/** The public multiplier grid: the largest supported multiplier, and the grid builder. */
module LagrangianGrids {
  import opened Wrappers
  import opened NumberTheory
  import opened NumericDomains

  const MAX_GRID_SIZE := 16

  datatype GridError = InvalidArgument | RangeExceeded

  datatype Bits = Bits(score: nat, delta: nat, bound: nat)

  datatype GridConfig = GridConfig(denominator: int, requestedSize: nat, spanFactor: int)

  datatype Grid = Grid(q: int, denominator: int, mu: seq<int>)

  datatype Bounds = Bounds(bits: Bits, maximumMu: int)

  predicate IsInt64(x: int) {
    -INT64_MAX - 1 <= x <= INT64_MAX
  }

  /** The largest factor that a score puts on a cost. */
  function CoefficientBound(q: int, mu: int, alpha: int, threshold: int): int {
    MaxOf(Abs(q - mu * alpha), q + mu * threshold)
  }

  /** ceilLog2 as the source runs it, failing beyond 126 bits. */
  function CeilLog2Checked(value: int): Result<nat, GridError> {
    if value <= 0 || 126 < CeilLog2(value) then Failure(RangeExceeded) else Success(CeilLog2(value))
  }

  const INT128_LIMIT := 0x8000_0000_0000_0000_0000_0000_0000_0000

  /** Doubling in a signed 128-bit integer. */
  function Doubled128(x: int): int {
    (2 * x + INT128_LIMIT) % (2 * INT128_LIMIT) - INT128_LIMIT
  }

  lemma DoubledPower(bits: nat)
    requires bits <= 126
    ensures Doubled128(Pow2(bits)) == if bits < 126 then Pow2(bits + 1) else -INT128_LIMIT
  {
    Pow2Of63();
    Pow2Mono(bits, 126);
    assert Pow2(127) == 2 * Pow2(126);
    if bits < 126 {
      Pow2Mono(bits + 1, 126);
      SmallRemainder(2 * Pow2(bits) + INT128_LIMIT, 2 * INT128_LIMIT);
    }
  }

  /** The doubling loop; beyond 2^126 the power wraps and the loop ends in its overflow error. */
  method CeilLog2ByDoubling(value: int) returns (r: Result<nat, GridError>)
    requires -INT128_LIMIT <= value < INT128_LIMIT
    ensures r == CeilLog2Checked(value)
  {
    if value <= 0 {
      return Failure(RangeExceeded);
    }
    var bits, power := 0, 1;
    while power < value
      invariant 0 <= bits <= 127 && power == if bits < 127 then Pow2(bits) else -INT128_LIMIT
      invariant bits <= CeilLog2(value)
      decreases 127 - bits
    {
      if bits == 127 {
        return Failure(RangeExceeded);
      }
      CeilLog2Least(value, bits);
      DoubledPower(bits);
      power := Doubled128(power);
      bits := bits + 1;
    }
    if bits < 127 {
      CeilLog2Least(value, bits);
    }
    r := Success(bits);
  }

  function CheckedBitSum(a: nat, b: nat): Result<nat, GridError> {
    if a > UINT32_MAX - b then Failure(RangeExceeded) else Success(a + b)
  }

  function RequiredBits(domain: NumericDomain, threshold: int, q: int, mu: int): Result<Bits, GridError> {
    var g := CoefficientBound(q, mu, domain.scale - threshold, threshold);
    var gBits :- CeilLog2Checked(g);
    var score :- CheckedBitSum(domain.maxCostBits, gBits);
    var delta :- CheckedBitSum(score, 1);
    var rowBits :- CeilLog2Checked(domain.maxRows);
    var bound :- CheckedBitSum(score, rowBits);
    Success(Bits(score, delta, bound))
  }

  function Supported(domain: NumericDomain, threshold: int, q: int, mu: int): Result<bool, GridError> {
    var bits :- RequiredBits(domain, threshold, q, mu);
    Success(bits.delta <= OPERAND_BITS && bits.bound <= domain.compareBits && domain.compareBits <= OPERAND_BITS)
  }

  predicate IsSupported(domain: NumericDomain, threshold: int, q: int, mu: int) {
    Supported(domain, threshold, q, mu) == Success(true)
  }

  // ---------------------------------------------------------------- what support means

  /** Bit counts add up within a width exactly when the product fits it. */
  lemma WidthExactly(g: int, c: nat, top: nat)
    requires 1 <= g
    ensures c + CeilLog2(g) <= top <==> g * Pow2(c) <= Pow2(top)
  {
    hide Pow2, CeilLog2;
    if c <= top {
      Pow2Add(top - c, c);
      CeilLog2Least(g, top - c);
      if g <= Pow2(top - c) {
        MulMono(g, Pow2(top - c), Pow2(c));
      } else {
        MulStrict(Pow2(top - c), g, Pow2(c));
      }
    } else {
      Pow2Step(top);
      Pow2Mono(top + 1, c);
      MulMono(1, g, Pow2(c));
    }
  }

  lemma Pow2Step(e: nat)
    ensures Pow2(e) < Pow2(e + 1)
  {
  }

  /**
   A multiplier is supported exactly when the larger coefficient of a score, times any declared cost,
   leaves room for one bit more below 2^127, and summed over the declared rows fits the comparison width.
   */
  lemma SupportedExactly(domain: NumericDomain, threshold: int, q: int, mu: int)
    requires domain.Representable() && 0 <= threshold < domain.scale && 0 < q && 0 <= mu && 0 < domain.maxRows
    ensures var g := MaxOf(Abs(q - mu * (domain.scale - threshold)), q + mu * threshold);
      && 1 <= g
      && (IsSupported(domain, threshold, q, mu) <==>
            && g * Pow2(domain.maxCostBits + 1) <= Pow2(OPERAND_BITS)
            && g * Pow2(domain.maxCostBits + CeilLog2(domain.maxRows)) <= Pow2(domain.compareBits)
            && domain.compareBits <= OPERAND_BITS)
  {
    hide Pow2, CeilLog2;
    CoefficientBoundMonotone(q, mu, mu, domain.scale - threshold, threshold);
    var g := CoefficientBound(q, mu, domain.scale - threshold, threshold);
    assert g == MaxOf(Abs(q - mu * (domain.scale - threshold)), q + mu * threshold);
    hide CoefficientBound, MaxOf, Abs;
    WidthExactly(g, domain.maxCostBits + 1, OPERAND_BITS);
    WidthExactly(g, domain.maxCostBits + CeilLog2(domain.maxRows), domain.compareBits);
    RowBitsSmall(domain);
  }

  lemma RowBitsSmall(domain: NumericDomain)
    requires domain.Representable() && 0 < domain.maxRows
    ensures CeilLog2(domain.maxRows) <= 64
  {
    Pow2Of63();
    assert Pow2(64) == 2 * Pow2(63);
    CeilLog2Least(domain.maxRows, 64);
  }

  /**
   The bits that are reported, of a score, of a difference of two, and of a sum over the rows, and
   exactly when they are out of range: beyond 126 bits of a factor, or beyond 32 bits of a count.
   */
  lemma RequiredBitsAre(domain: NumericDomain, threshold: int, q: int, mu: int)
    requires 0 <= threshold < domain.scale && 0 < q && 0 <= mu
    ensures var g := MaxOf(Abs(q - mu * (domain.scale - threshold)), q + mu * threshold);
      && 1 <= g
      && RequiredBits(domain, threshold, q, mu) ==
           if 0 < domain.maxRows && CeilLog2(g) <= 126 && CeilLog2(domain.maxRows) <= 126
              && domain.maxCostBits + CeilLog2(g) + 1 < 0x1_0000_0000
              && domain.maxCostBits + CeilLog2(g) + CeilLog2(domain.maxRows) < 0x1_0000_0000
           then Success(Bits(domain.maxCostBits + CeilLog2(g), domain.maxCostBits + CeilLog2(g) + 1,
                             domain.maxCostBits + CeilLog2(g) + CeilLog2(domain.maxRows)))
           else Failure(RangeExceeded)
  {
    CoefficientBoundMonotone(q, mu, mu, domain.scale - threshold, threshold);
  }

  // ---------------------------------------------------------------- the bound grows with mu

  /** Although |q - mu * alpha| first falls, the larger of the two factors never does. */
  lemma CoefficientBoundMonotone(q: int, mu: int, mu': int, alpha: int, threshold: int)
    requires 0 < q && 0 <= mu <= mu' && 0 < alpha && 0 <= threshold
    ensures q <= CoefficientBound(q, mu, alpha, threshold) <= CoefficientBound(q, mu', alpha, threshold)
  {
    MulMono(mu, mu', alpha);
    MulMono(mu, mu', threshold);
    MulNonNeg(mu, threshold);
    MulNonNeg(mu, alpha);
  }

  /** Every intermediate of the bound fits in 128 bits, whatever 64-bit integers go in. */
  lemma CoefficientFitsInt128(q: int, mu: int, alpha: int, threshold: int)
    requires IsInt64(q) && IsInt64(mu) && IsInt64(alpha) && IsInt64(threshold)
    ensures var limit := 0x4000_0000_0000_0000_0000_0000_0000_0000;
      && Abs(mu * alpha) <= limit && Abs(mu * threshold) <= limit
      && Abs(q - mu * alpha) < 2 * limit && Abs(q + mu * threshold) < 2 * limit
  {
    var top := INT64_MAX + 1;
    ProductMagnitude(mu, alpha, top);
    ProductMagnitude(mu, threshold, top);
  }

  lemma ProductMagnitude(a: int, b: int, top: int)
    requires Abs(a) <= top && Abs(b) <= top
    ensures Abs(a * b) <= top * top
  {
    ProductRange(a, Abs(b), top, top);
    if b < 0 {
      assert a * -b == -(a * b);
    }
  }

  /** For the arguments the grid builder passes, the doubling loop stays below its overflow too. */
  lemma CoefficientBelow126Bits(q: int, mu: int, scale: int, threshold: int)
    requires 0 < q <= INT64_MAX && 0 <= mu <= INT64_MAX && 0 <= threshold < scale <= INT64_MAX
    ensures 0 < CoefficientBound(q, mu, scale - threshold, threshold) <= 0x4000_0000_0000_0000_0000_0000_0000_0000
    ensures CeilLog2(CoefficientBound(q, mu, scale - threshold, threshold)) <= 126
  {
    var alpha := scale - threshold;
    MulMono(mu, INT64_MAX, alpha);
    MulMono(mu, INT64_MAX, threshold);
    MulNonNeg(mu, alpha);
    MulNonNeg(mu, threshold);
    CoefficientBoundMonotone(q, 0, mu, alpha, threshold);
    Pow2Add(63, 63);
    Pow2Of63();
    CeilLog2Least(CoefficientBound(q, mu, alpha, threshold), 126);
  }

  /** Support is downward closed, which is what the binary search needs. */
  lemma SupportedMonotone(domain: NumericDomain, threshold: int, q: int, mu: int, mu': int)
    requires 0 <= threshold < domain.scale && 0 < q && 0 <= mu <= mu'
    requires IsSupported(domain, threshold, q, mu')
    ensures IsSupported(domain, threshold, q, mu)
  {
    var alpha := domain.scale - threshold;
    CoefficientBoundMonotone(q, mu, mu', alpha, threshold);
    CeilLog2Mono(CoefficientBound(q, mu, alpha, threshold), CoefficientBound(q, mu', alpha, threshold));
  }

  /** The test itself never fails once it has succeeded for mu = 0. */
  lemma SupportedDefined(domain: NumericDomain, threshold: int, q: int, mu: int)
    requires domain.Representable() && 0 <= threshold < domain.scale && 0 < q <= INT64_MAX && 0 <= mu <= INT64_MAX
    requires IsSupported(domain, threshold, q, 0)
    ensures Supported(domain, threshold, q, mu).Success?
  {
    CoefficientBelow126Bits(q, mu, domain.scale, threshold);
  }

  /** The largest supported 64-bit multiplier. */
  ghost predicate LargestSupported(domain: NumericDomain, threshold: int, q: int, limit: int) {
    && 0 <= limit <= INT64_MAX && IsSupported(domain, threshold, q, limit)
    && forall mu :: limit < mu <= INT64_MAX ==> !IsSupported(domain, threshold, q, mu)
  }

  /** The largest supported multiplier, by binary search over the 64-bit integers. */
  method MaximumMu(domain: NumericDomain, threshold: int, q: int) returns (r: Result<int, GridError>)
    requires domain.Representable() && 0 <= threshold < domain.scale && 0 < q <= INT64_MAX
    ensures if IsSupported(domain, threshold, q, 0)
      then r.Success? && LargestSupported(domain, threshold, q, r.value)
      else r == Failure(RangeExceeded)
  {
    if Supported(domain, threshold, q, 0) != Success(true) {
      return Failure(RangeExceeded);
    }
    var low, high := 0, INT64_MAX;
    while low < high
      invariant 0 <= low <= high <= INT64_MAX
      invariant IsSupported(domain, threshold, q, low)
      invariant forall mu :: high < mu <= INT64_MAX ==> !IsSupported(domain, threshold, q, mu)
    {
      var midpoint := low + (high - low + 1) / 2;
      SupportedDefined(domain, threshold, q, midpoint);
      if Supported(domain, threshold, q, midpoint).value {
        low := midpoint;
      } else {
        forall mu | midpoint <= mu <= INT64_MAX
          ensures !IsSupported(domain, threshold, q, mu)
        {
          if IsSupported(domain, threshold, q, mu) {
            SupportedMonotone(domain, threshold, q, midpoint, mu);
          }
        }
        high := midpoint - 1;
      }
    }
    r := Success(low);
  }

  // ---------------------------------------------------------------- checking a grid

  predicate StrictlyIncreasing(s: seq<int>) {
    forall i, j :: 0 <= i < j < |s| ==> s[i] < s[j]
  }

  /** Every part of the domain that a grid needs is declared. */
  ghost predicate Complete(domain: NumericDomain) {
    0 < domain.maxRows && 0 < domain.maxCostBits && 0 < domain.compareBits
  }

  ghost predicate GridLegal(domain: NumericDomain, threshold: int, grid: Grid) {
    && 0 < domain.scale && Complete(domain) && 0 <= threshold < domain.scale
    && 0 < grid.q && 0 < grid.denominator && domain.scale * grid.denominator == grid.q
    && grid.mu != [] && StrictlyIncreasing(grid.mu) && grid.mu[0] == 0
  }

  method DeriveBounds(domain: NumericDomain, threshold: int, grid: Grid) returns (r: Result<Bounds, GridError>)
    requires domain.Representable() && grid.q <= INT64_MAX && forall k :: 0 <= k < |grid.mu| ==> grid.mu[k] <= INT64_MAX
    ensures !GridLegal(domain, threshold, grid) ==> r == Failure(InvalidArgument)
    ensures GridLegal(domain, threshold, grid) ==>
      var last := grid.mu[|grid.mu| - 1];
      if !IsSupported(domain, threshold, grid.q, last) then r == Failure(RangeExceeded)
      else
        && r.Success? && RequiredBits(domain, threshold, grid.q, last) == Success(r.value.bits)
        && LargestSupported(domain, threshold, grid.q, r.value.maximumMu)
  {
    if domain.scale <= 0 || domain.maxRows == 0 || domain.maxCostBits == 0 || domain.compareBits == 0 {
      return Failure(InvalidArgument);
    }
    if threshold < 0 || threshold >= domain.scale {
      return Failure(InvalidArgument);
    }
    if grid.q <= 0 || grid.denominator <= 0 || grid.mu == [] {
      return Failure(InvalidArgument);
    }
    if domain.scale * grid.denominator != grid.q {
      return Failure(InvalidArgument);
    }
    if grid.mu[0] != 0 || !StrictlyIncreasing(grid.mu) {
      return Failure(InvalidArgument);
    }
    var last := grid.mu[|grid.mu| - 1];
    if IsSupported(domain, threshold, grid.q, last) {
      SupportedMonotone(domain, threshold, grid.q, 0, last);
    }
    if domain.compareBits > OPERAND_BITS {
      return Failure(RangeExceeded);
    }
    var attempt := MaximumMu(domain, threshold, grid.q);
    match attempt
    case Failure(e) =>
      return Failure(e);
    case Success(maximum) =>
    if last > maximum {
      return Failure(RangeExceeded);
    }
    SupportedMonotone(domain, threshold, grid.q, last, maximum);
    var bits := RequiredBits(domain, threshold, grid.q, last);
    r := Success(Bounds(bits.value, maximum));
  }

  // ---------------------------------------------------------------- building a grid

  function RoundedRatio(a: int, b: int, denominator: int): int
    requires 0 < denominator
  {
    MinOf((a * b + denominator / 2) / denominator, INT64_MAX)
  }

  lemma HeadBelow(head: int, rest: seq<int>)
    requires StrictlyIncreasing(rest) && forall x :: x in rest ==> head < x
    ensures StrictlyIncreasing([head] + rest)
  {
    forall i | 0 <= i < |rest|
      ensures head < rest[i]
    {
      assert rest[i] in rest;
    }
  }

  /** Insertion into the ordered set that collects the grid points. */
  function Insert(s: seq<int>, v: int): (r: seq<int>)
    requires StrictlyIncreasing(s)
    ensures StrictlyIncreasing(r)
    ensures forall x :: x in r <==> x in s || x == v
    ensures |r| == if v in s then |s| else |s| + 1
  {
    if s == [] then [v]
    else if v < s[0] then [v] + s
    else if v == s[0] then s
    else
      var rest := Insert(s[1..], v);
      HeadBelow(s[0], rest);
      [s[0]] + rest
  }

  predicate IsAnchor(v: int, anchors: (int, int)) {
    v == anchors.0 || v == anchors.1
  }

  function Erase(s: seq<int>, i: int): (r: seq<int>)
    requires 0 <= i < |s|
    ensures |r| == |s| - 1
    ensures StrictlyIncreasing(s) ==> StrictlyIncreasing(r)
    ensures forall x :: x in r ==> x in s
    ensures forall x :: x in s ==> x in r || x == s[i]
    ensures 0 < i ==> r != [] && r[0] == s[0]
  {
    s[..i] + s[i + 1..]
  }

  /**
   Trimming from the top, sparing 0 and the anchors. The size can stay above the request only when
   nothing but 0 and the two anchors is left.
   */
  method Trim(values: seq<int>, requestedSize: nat, anchors: (int, int)) returns (r: seq<int>)
    requires values != [] && values[0] == 0 && StrictlyIncreasing(values) && 1 <= requestedSize
    ensures r != [] && r[0] == 0 && |r| <= MaxOf(requestedSize, 3)
    ensures Trimmed(r, values, requestedSize, anchors)
  {
    r := values;
    while |r| > requestedSize
      invariant r != [] && r[0] == 0
      invariant DropsFromTop(r, values, anchors)
      invariant if |values| <= requestedSize then r == values else requestedSize <= |r|
    {
      ghost var before := r;
      var it := |r| - 1;
      if IsAnchor(r[it], anchors) {
        var candidate := it;
        while candidate > 0 && (candidate == it || r[candidate] == 0 || IsAnchor(r[candidate], anchors))
          invariant 0 <= candidate <= it
          invariant forall j :: candidate < j <= it ==> IsAnchor(r[j], anchors)
        {
          assert candidate < it ==> r[0] < r[candidate];
          candidate := candidate - 1;
        }
        if candidate == 0 {
          OnlyAnchors(r, anchors);
          return;
        }
        it := candidate;
      }
      assert r[0] < r[it];
      r := Erase(r, it);
      DropsOneMore(before, r, values, anchors, it);
    }
  }

  /** 0 and the anchors are never dropped, and of the rest only what is above everything that stays. */
  ghost predicate DropsFromTop(r: seq<int>, values: seq<int>, anchors: (int, int)) {
    && StrictlyIncreasing(r)
    && (forall x :: x in r ==> x in values)
    && (forall x :: x in values && (x == 0 || x == anchors.0 || x == anchors.1) ==> x in r)
    && (forall x, y :: x in values && x !in r && y in r && y != 0 && y != anchors.0 && y != anchors.1 ==> y < x)
  }

  /** As many are dropped as the request asks for and the spared ones allow. */
  ghost predicate Trimmed(r: seq<int>, values: seq<int>, requestedSize: nat, anchors: (int, int)) {
    && DropsFromTop(r, values, anchors)
    && (|values| <= requestedSize ==> r == values)
    && (requestedSize < |values| ==> requestedSize <= |r|)
    && (requestedSize < |r| ==> forall x :: x in r ==> x == 0 || x == anchors.0 || x == anchors.1)
  }

  lemma DropsOneMore(before: seq<int>, after: seq<int>, values: seq<int>, anchors: (int, int), it: int)
    requires DropsFromTop(before, values, anchors) && 0 < it < |before| && before[0] == 0 && after == Erase(before, it)
    requires !IsAnchor(before[it], anchors)
    requires forall j :: it < j < |before| ==> IsAnchor(before[j], anchors)
    ensures DropsFromTop(after, values, anchors)
  {
    forall x, y | x in values && x !in after && y in after && y != 0 && !IsAnchor(y, anchors)
      ensures y < x
    {
      var j :| 0 <= j < |before| && before[j] == y;
      if x in before {
        assert x == before[it];
        assert y != before[it] by {
          ErasedOnce(before, it);
        }
      }
    }
  }

  lemma ErasedOnce(s: seq<int>, i: int)
    requires StrictlyIncreasing(s) && 0 <= i < |s|
    ensures s[i] !in Erase(s, i)
  {
  }

  lemma NotAllAnchors(r: seq<int>, anchors: (int, int))
    requires StrictlyIncreasing(r) && 3 < |r|
    ensures exists j :: 1 <= j < |r| && !IsAnchor(r[j], anchors)
  {
    assert r[1] < r[2] < r[3];
  }

  lemma OnlyAnchors(r: seq<int>, anchors: (int, int))
    requires StrictlyIncreasing(r)
    requires forall j :: 1 <= j < |r| ==> IsAnchor(r[j], anchors)
    ensures |r| <= 3
  {
    if 3 < |r| {
      NotAllAnchors(r, anchors);
    }
  }

  /** The i-th of m evenly spaced points up to upper, rounded. */
  ghost function EvenPoint(upper: int, i: int, m: int): int
    requires 0 < m
  {
    (upper * i + m / 2) / m
  }

  /** x is one of the first n of m evenly spaced points. */
  ghost predicate IsEvenPoint(x: int, upper: int, n: int, m: int)
    requires 0 < m
  {
    exists i :: 1 <= i <= n && x == EvenPoint(upper, i, m)
  }

  lemma EvenPointsGrow(upper: int, n: nat, m: int)
    requires 0 < m
    ensures forall x :: IsEvenPoint(x, upper, n, m) <==>
      0 < n && (IsEvenPoint(x, upper, n - 1, m) || x == (upper * n + m / 2) / m)
  {
    assert EvenPoint(upper, n, m) == (upper * n + m / 2) / m;
    hide EvenPoint;
  }

  lemma EvenPointWithin(upper: int, i: int, m: int)
    requires 0 <= upper && 0 <= i <= m && 0 < m
    ensures 0 <= EvenPoint(upper, i, m) <= upper
    ensures m == 1 && i == 1 ==> EvenPoint(upper, i, m) == upper
  {
    MulNonNeg(upper, i);
    MulMono(i, m, upper);
    DivWithin(upper * i + m / 2, upper, m);
  }

  lemma DivWithin(x: int, upper: int, n: int)
    requires 0 < n && 0 <= x < n * upper + n
    ensures 0 <= x / n <= upper
  {
    assert x == x / n * n + x % n;
    assert (upper + 1) * n == n * upper + n;
    if x / n > upper {
      MulMono(upper + 1, x / n, n);
    }
    if x / n < 0 {
      MulMono(x / n, -1, n);
    }
  }

  /** Which points a grid is collected from: 0, the anchors that fit, and the evenly spaced ones. */
  ghost predicate IsPoint(x: int, requestedSize: nat, anchors: (int, int), upper: int)
    requires 2 <= requestedSize
  {
    || x == 0
    || (x == anchors.0 && 0 < x <= upper)
    || (x == anchors.1 && 0 < x <= upper && (3 <= requestedSize || !(0 < anchors.0 <= upper)))
    || (0 < upper && IsEvenPoint(x, upper, requestedSize - 1, requestedSize - 1))
  }

  ghost predicate Collected(values: seq<int>, requestedSize: nat, anchors: (int, int), upper: int)
    requires 2 <= requestedSize
  {
    StrictlyIncreasing(values) && forall x :: x in values <==> IsPoint(x, requestedSize, anchors, upper)
  }

  /** Zero, the anchors that fit, and evenly spaced points, in order. */
  method CollectPoints(requestedSize: nat, anchors: (int, int), upper: int) returns (values: seq<int>)
    requires 2 <= requestedSize && 0 <= upper
    ensures Collected(values, requestedSize, anchors, upper)
  {
    hide IsEvenPoint;
    values := [0];
    if |values| < requestedSize && 0 < anchors.0 <= upper {
      values := Insert(values, anchors.0);
    }
    if |values| < requestedSize && 0 < anchors.1 <= upper {
      values := Insert(values, anchors.1);
    }
    ghost var anchored := values;
    if upper > 0 {
      var intervals := requestedSize - 1;
      EvenPointsGrow(upper, 0, intervals);
      for i := 1 to intervals + 1
        invariant StrictlyIncreasing(values)
        invariant forall x :: x in values <==>
          x in anchored || IsEvenPoint(x, upper, i - 1, intervals)
      {
        EvenPointsGrow(upper, i, intervals);
        values := Insert(values, (upper * i + intervals / 2) / intervals);
      }
    }
  }

  /** What the later steps need of the points. */
  lemma PointsFit(values: seq<int>, requestedSize: nat, anchors: (int, int), upper: int)
    requires 2 <= requestedSize && 0 <= upper && Collected(values, requestedSize, anchors, upper)
    ensures values != [] && values[0] == 0 && forall x :: x in values ==> 0 <= x <= upper
    ensures requestedSize == 2 ==> upper in values
    ensures 0 < anchors.0 <= upper ==> anchors.0 in values
    ensures requestedSize == 2 && 0 < anchors.0 <= upper ==>
      forall x :: x in values ==> x == 0 || x == anchors.0 || x == upper
  {
    assert 0 < anchors.0 <= upper ==> IsPoint(anchors.0, requestedSize, anchors, upper);
    forall x | x in values
      ensures 0 <= x <= upper
      ensures requestedSize == 2 && 0 < anchors.0 <= upper ==> x == 0 || x == anchors.0 || x == upper
    {
      var m := requestedSize - 1;
      if i :| 1 <= i <= m && x == EvenPoint(upper, i, m) {
        EvenPointWithin(upper, i, m);
      }
    }
    if requestedSize == 2 {
      EvenPointWithin(upper, 1, 1);
      assert upper > 0 ==> IsEvenPoint(upper, upper, 1, 1);
      assert IsPoint(upper, requestedSize, anchors, upper);
    }
    assert IsPoint(0, requestedSize, anchors, upper);
    FirstIsLeast(values, 0);
  }

  ghost predicate ConfigLegal(domain: NumericDomain, threshold: int, config: GridConfig) {
    && 0 < domain.scale && 0 < config.denominator
    && 0 < config.requestedSize <= MAX_GRID_SIZE && 0 < config.spanFactor
    && 0 <= threshold < domain.scale
  }

  ghost predicate ConfigOk(domain: NumericDomain, threshold: int, config: GridConfig) {
    ConfigLegal(domain, threshold, config) && domain.scale * config.denominator <= INT64_MAX
  }

  /** The error of a rejected configuration: what is illegal or not declared, or out of range. */
  ghost function BuildError(domain: NumericDomain, threshold: int, config: GridConfig): GridError {
    if !ConfigLegal(domain, threshold, config) then InvalidArgument
    else if INT64_MAX < domain.scale * config.denominator then RangeExceeded
    else if (threshold == 0 || config.requestedSize == 1) && !Complete(domain) then InvalidArgument
    else if !IsSupported(domain, threshold, domain.scale * config.denominator, 0) then RangeExceeded
    else InvalidArgument
  }

  /** The multipliers at which a coefficient changes sign: Q / (S - T) and Q / T, rounded and capped. */
  ghost function Anchors(domain: NumericDomain, threshold: int, config: GridConfig): (int, int)
    requires 0 < threshold < domain.scale
  {
    var (q, alpha) := (config.denominator * domain.scale, domain.scale - threshold);
    (MinOf((q + alpha / 2) / alpha, INT64_MAX), MinOf((q + threshold / 2) / threshold, INT64_MAX))
  }

  /** The one case in which a grid outgrows its request: of two points asked for, both anchors stay. */
  ghost predicate Outgrows(domain: NumericDomain, threshold: int, config: GridConfig) {
    && 0 < threshold < domain.scale && config.requestedSize == 2
    && var (a, b) := Anchors(domain, threshold, config);
       var q := domain.scale * config.denominator;
       && a < b && IsSupported(domain, threshold, q, b)
       && (config.spanFactor == 1 || b == INT64_MAX || !IsSupported(domain, threshold, q, b + 1))
  }

  lemma OutgrowsTwo(domain: NumericDomain, threshold: int, config: GridConfig)
    ensures Outgrows(domain, threshold, config) ==> 0 < threshold && config.requestedSize == 2
  {
  }

  /** Such a configuration. */
  lemma GridOutgrows()
    ensures var domain, config := NumericDomain(10, 1, 8, 8, 16, 16), GridConfig(1, 2, 1);
      && domain.AcceptedByBackend() && ConfigOk(domain, 3, config) && IsSupported(domain, 3, 10, 0)
      && Anchors(domain, 3, config) == (1, 3) && Outgrows(domain, 3, config)
  {
    SmallLogs();
    hide CeilLog2;
  }

  lemma SmallLogs()
    ensures CeilLog2(1) == 0 && CeilLog2(10) == 4 && CeilLog2(19) == 5
  {
    CeilLog2Least(10, 4);
    CeilLog2Least(10, 3);
    CeilLog2Least(19, 5);
    CeilLog2Least(19, 4);
    assert Pow2(3) == 8 && Pow2(4) == 16 && Pow2(5) == 32;
  }

  /** A grid that the solver may rely on. */
  predicate GoodGrid(domain: NumericDomain, threshold: int, grid: Grid) {
    && 0 < grid.q <= INT64_MAX
    && grid.mu != [] && grid.mu[0] == 0 && StrictlyIncreasing(grid.mu)
    && |grid.mu| <= MAX_GRID_SIZE
    && forall k :: 0 <= k < |grid.mu| ==> 0 <= grid.mu[k] <= INT64_MAX && IsSupported(domain, threshold, grid.q, grid.mu[k])
  }

  /**
   The grid of a configuration: {0}, or the points up to the largest supported multiplier and the
   wanted span, trimmed to the requested size.
   */
  ghost predicate IsGrid(domain: NumericDomain, threshold: int, config: GridConfig, mu: seq<int>)
    requires ConfigOk(domain, threshold, config)
  {
    if threshold == 0 || config.requestedSize == 1 then mu == [0]
    else
      exists limit, values :: GridFrom(domain, threshold, config, limit, values, mu)
  }

  /** The last point: the largest supported multiplier, or the wanted multiple of the larger anchor. */
  ghost function UpperEnd(config: GridConfig, anchors: (int, int), limit: int): int {
    MinOf(limit, MinOf(config.spanFactor * MaxOf(anchors.0, anchors.1), INT64_MAX))
  }

  lemma UpperEndWithin(config: GridConfig, anchors: (int, int), limit: int)
    requires 0 < config.spanFactor && 1 <= anchors.0 <= INT64_MAX && 1 <= anchors.1 <= INT64_MAX && 0 <= limit
    ensures 0 <= UpperEnd(config, anchors, limit) <= limit
    ensures anchors.0 <= limit <==> anchors.0 <= UpperEnd(config, anchors, limit)
    ensures anchors.1 <= limit <==> anchors.1 <= UpperEnd(config, anchors, limit)
  {
    MulGrows(config.spanFactor, MaxOf(anchors.0, anchors.1));
  }

  ghost predicate GridFrom(domain: NumericDomain, threshold: int, config: GridConfig, limit: int, values: seq<int>,
      mu: seq<int>)
    requires ConfigOk(domain, threshold, config) && 0 < threshold && 2 <= config.requestedSize
  {
    var anchors := Anchors(domain, threshold, config);
    && LargestSupported(domain, threshold, domain.scale * config.denominator, limit)
    && Collected(values, config.requestedSize, anchors, UpperEnd(config, anchors, limit))
    && Trimmed(mu, values, config.requestedSize, anchors)
  }

  // ---------------------------------------------------------------- there is only one such grid

  lemma {:induction false} SortedEqual(s: seq<int>, t: seq<int>)
    requires StrictlyIncreasing(s) && StrictlyIncreasing(t) && forall x :: x in s <==> x in t
    ensures s == t
  {
    assert t != [] ==> t[0] in t;
    if s != [] {
      assert s[0] in s && s[0] in t;
      FirstOf(s);
      FirstOf(t);
      assert t[0] in s;
      Tail(s);
      Tail(t);
      SortedEqual(s[1..], t[1..]);
    }
  }

  lemma FirstOf(s: seq<int>)
    requires StrictlyIncreasing(s)
    ensures forall x :: x in s ==> s[0] <= x
  {
  }

  lemma Tail(s: seq<int>)
    requires StrictlyIncreasing(s) && s != []
    ensures StrictlyIncreasing(s[1..]) && forall x :: x in s[1..] <==> x in s && x != s[0]
  {
    forall x | x in s && x != s[0]
      ensures x in s[1..]
    {
      var i :| 0 <= i < |s| && s[i] == x;
      assert s[1..][i - 1] == x;
    }
  }

  /** A sorted sequence that holds everything of another, and more, is longer. */
  lemma {:induction false} SubsetShorter(s: seq<int>, t: seq<int>, x: int)
    requires StrictlyIncreasing(s) && StrictlyIncreasing(t) && (forall y :: y in s ==> y in t)
    requires x in t && x !in s
    ensures |s| < |t|
  {
    if s != [] {
      assert s[0] in s && s[0] in t;
      FirstOf(t);
      Tail(t);
      Tail(s);
      if t[0] == s[0] {
        SubsetShorter(s[1..], t[1..], x);
      } else if x == t[0] {
        SubsetAtMost(s, t[1..]);
      } else {
        SubsetShorter(s, t[1..], x);
      }
    }
  }

  lemma {:induction false} SubsetAtMost(s: seq<int>, t: seq<int>)
    requires StrictlyIncreasing(s) && StrictlyIncreasing(t) && (forall y :: y in s ==> y in t)
    ensures |s| <= |t|
    decreases |t|
  {
    if s != [] {
      assert s[0] in s && s[0] in t;
      FirstOf(t);
      Tail(t);
      Tail(s);
      if t[0] == s[0] {
        SubsetAtMost(s[1..], t[1..]);
      } else {
        SubsetAtMost(s, t[1..]);
      }
    }
  }

  lemma TrimmedSubset(r: seq<int>, r': seq<int>, values: seq<int>, requestedSize: nat, anchors: (int, int), x: int)
    requires Trimmed(r, values, requestedSize, anchors) && Trimmed(r', values, requestedSize, anchors)
    ensures x in r ==> x in r'
  {
    if x in r && x !in r' {
      forall y | y in r'
        ensures y in r
      {
      }
      SubsetShorter(r', r, x);
    }
  }

  /** Trimming leaves no choice. */
  lemma TrimmedUnique(r: seq<int>, r': seq<int>, values: seq<int>, requestedSize: nat, anchors: (int, int))
    requires Trimmed(r, values, requestedSize, anchors) && Trimmed(r', values, requestedSize, anchors)
    ensures r == r'
  {
    forall x
      ensures x in r <==> x in r'
    {
      TrimmedSubset(r, r', values, requestedSize, anchors, x);
      TrimmedSubset(r', r, values, requestedSize, anchors, x);
    }
    SortedEqual(r, r');
  }

  /** A configuration has one grid. */
  lemma GridUnique(domain: NumericDomain, threshold: int, config: GridConfig, mu: seq<int>, mu': seq<int>)
    requires ConfigOk(domain, threshold, config)
    requires IsGrid(domain, threshold, config, mu) && IsGrid(domain, threshold, config, mu')
    ensures mu == mu'
  {
    if 0 < threshold && config.requestedSize != 1 {
      var limit, values :| GridFrom(domain, threshold, config, limit, values, mu);
      var limit', values' :| GridFrom(domain, threshold, config, limit', values', mu');
      assert limit == limit';
      SortedEqual(values, values');
      TrimmedUnique(mu, mu', values, config.requestedSize, Anchors(domain, threshold, config));
    }
  }

  /** The points of a grid that is more than {0}. */
  method ChoosePoints(domain: NumericDomain, threshold: int, config: GridConfig, limit: int) returns (mu: seq<int>)
    requires domain.Representable() && ConfigOk(domain, threshold, config) && 0 < threshold && 2 <= config.requestedSize
    requires LargestSupported(domain, threshold, domain.scale * config.denominator, limit)
    ensures exists values :: GridFrom(domain, threshold, config, limit, values, mu)
  {
    hide IsSupported, LargestSupported, Collected, Trimmed;
    AnchorsPositive(domain, threshold, config);
    var anchors := (RoundedRatio(config.denominator, domain.scale, domain.scale - threshold),
                    RoundedRatio(config.denominator, domain.scale, threshold));
    assert anchors == Anchors(domain, threshold, config);
    hide Anchors;
    var desired := MinOf(config.spanFactor * MaxOf(anchors.0, anchors.1), INT64_MAX);
    var upper := MinOf(limit, desired);
    assert upper == UpperEnd(config, anchors, limit);
    hide UpperEnd;
    LimitNotNegative(domain, threshold, domain.scale * config.denominator, limit);
    UpperEndWithin(config, anchors, limit);

    var values := CollectPoints(config.requestedSize, anchors, upper);
    PointsFit(values, config.requestedSize, anchors, upper);
    CollectedIncreasing(values, config.requestedSize, anchors, upper);
    mu := Trim(values, config.requestedSize, anchors);
    assert GridFrom(domain, threshold, config, limit, values, mu);
  }

  lemma LimitNotNegative(domain: NumericDomain, threshold: int, q: int, limit: int)
    requires LargestSupported(domain, threshold, q, limit)
    ensures 0 <= limit
  {
  }

  lemma CollectedIncreasing(values: seq<int>, requestedSize: nat, anchors: (int, int), upper: int)
    requires 2 <= requestedSize && Collected(values, requestedSize, anchors, upper)
    ensures StrictlyIncreasing(values)
  {
  }

  /** What every such grid is like. */
  lemma GridFacts(domain: NumericDomain, threshold: int, config: GridConfig, limit: int, values: seq<int>, mu: seq<int>)
    requires domain.Representable() && ConfigOk(domain, threshold, config) && 0 < threshold && 2 <= config.requestedSize
    requires GridFrom(domain, threshold, config, limit, values, mu)
    ensures mu != [] && mu[0] == 0 && StrictlyIncreasing(mu) && forall x :: x in mu ==> 0 <= x <= limit
    ensures |mu| <= MaxOf(config.requestedSize, 3)
    ensures config.requestedSize < |mu| <==> Outgrows(domain, threshold, config)
  {
    hide Outgrows, IsSupported, Collected, Anchors, UpperEnd;
    AnchorsPositive(domain, threshold, config);
    var anchors := Anchors(domain, threshold, config);
    var upper := UpperEnd(config, anchors, limit);
    UpperEndWithin(config, anchors, limit);
    PointsFit(values, config.requestedSize, anchors, upper);
    KeptSize(mu, values, config.requestedSize, anchors);
    UpperIsAnchor(domain, threshold, config, limit);
    OutgrowsTwo(domain, threshold, config);
    if config.requestedSize == 2 {
      TwoAsked(values, mu, anchors, upper);
    }
  }

  /** What is kept starts with 0, and is larger than asked only when it is 0 and two anchors. */
  lemma KeptSize(mu: seq<int>, values: seq<int>, requestedSize: nat, anchors: (int, int))
    requires Trimmed(mu, values, requestedSize, anchors) && values != [] && values[0] == 0 && 1 <= requestedSize
    requires forall x :: x in values ==> 0 <= x
    ensures mu != [] && mu[0] == 0 && |mu| <= MaxOf(requestedSize, 3)
  {
    assert 0 in mu;
    FirstIsLeast(mu, 0);
    if requestedSize < |mu| {
      forall j | 1 <= j < |mu|
        ensures IsAnchor(mu[j], anchors)
      {
        assert mu[j] in mu && mu[0] < mu[j];
      }
      OnlyAnchors(mu, anchors);
    }
  }

  /** Supported anchors are collected and never trimmed. */
  lemma AnchorsKept(domain: NumericDomain, threshold: int, config: GridConfig, limit: int, values: seq<int>, mu: seq<int>)
    requires ConfigOk(domain, threshold, config) && 0 < threshold && 2 <= config.requestedSize
    requires GridFrom(domain, threshold, config, limit, values, mu)
    ensures var (a, b) := Anchors(domain, threshold, config);
      && (IsSupported(domain, threshold, domain.scale * config.denominator, a) ==> a in mu)
      && (3 <= config.requestedSize && IsSupported(domain, threshold, domain.scale * config.denominator, b) ==> b in mu)
  {
    hide Anchors, IsSupported, UpperEnd;
    AnchorsPositive(domain, threshold, config);
    var (a, b) := Anchors(domain, threshold, config);
    UpperEndWithin(config, (a, b), limit);
    assert a <= limit ==> IsPoint(a, config.requestedSize, (a, b), UpperEnd(config, (a, b), limit));
    assert b <= limit && 3 <= config.requestedSize ==>
      IsPoint(b, config.requestedSize, (a, b), UpperEnd(config, (a, b), limit));
  }

  /**
   The builder succeeds exactly when its configuration is legal, the scale alone is supported and
   cost bits are declared: its own final check rejects nothing else. A grid has at most
   max(requestedSize, 3) points, every one supported, and exceeds the request exactly when it outgrows it.
   */
  method BuildGrid(domain: NumericDomain, threshold: int, config: GridConfig) returns (r: Result<Grid, GridError>)
    requires domain.Representable() && IsInt64(config.denominator) && IsInt64(config.spanFactor)
    ensures r.Success? <==>
      && ConfigOk(domain, threshold, config)
      && IsSupported(domain, threshold, domain.scale * config.denominator, 0)
      && 0 < domain.maxCostBits
    ensures r.Failure? ==> r.error == BuildError(domain, threshold, config)
    ensures r.Success? ==>
      && GoodGrid(domain, threshold, r.value)
      && r.value.q == domain.scale * config.denominator && r.value.denominator == config.denominator
      && IsGrid(domain, threshold, config, r.value.mu)
      && |r.value.mu| <= MaxOf(config.requestedSize, 3)
      && (config.requestedSize < |r.value.mu| <==> Outgrows(domain, threshold, config))
      && (threshold == 0 || config.requestedSize == 1 ==> r.value.mu == [0])
    ensures r.Success? && 0 < threshold && 2 <= config.requestedSize ==>
      var (a, b) := Anchors(domain, threshold, config);
      && (IsSupported(domain, threshold, r.value.q, a) ==> a in r.value.mu)
      && (3 <= config.requestedSize && IsSupported(domain, threshold, r.value.q, b) ==> b in r.value.mu)
  {
    hide Outgrows, IsSupported, Collected, Trimmed;
    assert Outgrows(domain, threshold, config) ==> 0 < threshold && config.requestedSize == 2 by {
      OutgrowsTwo(domain, threshold, config);
    }
    if domain.scale <= 0 || config.denominator <= 0 || config.requestedSize == 0
       || config.requestedSize > MAX_GRID_SIZE || config.spanFactor <= 0 {
      return Failure(InvalidArgument);
    }
    if threshold < 0 || threshold >= domain.scale {
      return Failure(InvalidArgument);
    }
    var q := domain.scale * config.denominator;
    if q > INT64_MAX {
      return Failure(RangeExceeded);
    }
    MulGrows(config.denominator, domain.scale);
    if IsSupported(domain, threshold, q, 0) {
      SupportNeedsCompareBits(domain, threshold, q);
    }
    if threshold == 0 || config.requestedSize == 1 {
      var grid := Grid(q, config.denominator, [0]);
      var check := DeriveBounds(domain, threshold, grid);
      match check
      case Failure(e) =>
        return Failure(e);
      case Success(_) =>
        return Success(grid);
    }
    var attempt := MaximumMu(domain, threshold, q);
    match attempt
    case Failure(e) =>
      return Failure(e);
    case Success(limit) =>
    var mu := ChoosePoints(domain, threshold, config, limit);
    ghost var values :| GridFrom(domain, threshold, config, limit, values, mu);
    GridFacts(domain, threshold, config, limit, values, mu);
    AnchorsKept(domain, threshold, config, limit, values, mu);
    forall k | 0 <= k < |mu|
      ensures 0 <= mu[k] <= INT64_MAX && IsSupported(domain, threshold, q, mu[k])
    {
      assert mu[k] in mu;
      SupportedMonotone(domain, threshold, q, mu[k], limit);
    }
    var grid := Grid(q, config.denominator, mu);
    var check := DeriveBounds(domain, threshold, grid);
    match check
    case Failure(e) =>
      return Failure(e);
    case Success(_) =>
      r := Success(grid);
  }

  /** The second anchor is the upper end exactly when it is supported and nothing larger is wanted or supported. */
  lemma UpperIsAnchor(domain: NumericDomain, threshold: int, config: GridConfig, limit: int)
    requires domain.Representable() && ConfigOk(domain, threshold, config) && 0 < threshold
    requires LargestSupported(domain, threshold, domain.scale * config.denominator, limit)
    ensures config.requestedSize == 2 ==>
      var (a, b) := Anchors(domain, threshold, config);
      (a < b == UpperEnd(config, (a, b), limit) <==> Outgrows(domain, threshold, config))
  {
    hide IsSupported, Anchors;
    AnchorsPositive(domain, threshold, config);
    var (a, b) := Anchors(domain, threshold, config);
    var q := domain.scale * config.denominator;
    MulGrows(config.denominator, domain.scale);
    UpperEndIs(config, (a, b), limit);
    hide UpperEnd;
    if b <= limit {
      SupportedMonotone(domain, threshold, q, b, limit);
    }
    if b + 1 <= limit {
      SupportedMonotone(domain, threshold, q, b + 1, limit);
    }
  }

  /** A larger second anchor is the last point when it is the limit, or the limit is higher and no more is wanted. */
  lemma UpperEndIs(config: GridConfig, anchors: (int, int), limit: int)
    requires 0 < config.spanFactor && 1 <= anchors.0 <= INT64_MAX && 1 <= anchors.1 <= INT64_MAX
    ensures anchors.0 < anchors.1 ==>
      (anchors.1 == UpperEnd(config, anchors, limit) <==>
        anchors.1 <= limit && (config.spanFactor == 1 || anchors.1 == INT64_MAX || limit == anchors.1))
  {
    if anchors.0 < anchors.1 {
      MulGrows(config.spanFactor, anchors.1);
      if config.spanFactor > 1 {
        MulMono(2, config.spanFactor, anchors.1);
      }
    }
  }

  /** Trimming to two points leaves three exactly when they are 0 and both anchors. */
  lemma TwoAsked(values: seq<int>, mu: seq<int>, anchors: (int, int), upper: int)
    requires StrictlyIncreasing(mu) && mu != [] && mu[0] == 0 && forall x :: x in mu ==> x in values
    requires forall x :: x in values && (x == 0 || IsAnchor(x, anchors)) ==> x in mu
    requires 2 < |mu| ==> forall x :: x in mu ==> x == 0 || IsAnchor(x, anchors)
    requires 1 <= anchors.0 && 1 <= anchors.1 && upper in values && forall x :: x in values ==> x <= upper
    requires anchors.0 <= upper ==>
      anchors.0 in values && forall x :: x in values ==> x == 0 || x == anchors.0 || x == upper
    ensures 2 < |mu| <==> anchors.0 < anchors.1 == upper
  {
    if 2 < |mu| {
      assert mu[0] < mu[1] < mu[2];
      assert mu[1] in mu && mu[2] in mu;
    }
    if anchors.0 < anchors.1 == upper {
      ThreePoints(mu, anchors.0, anchors.1);
    }
  }

  lemma ThreePoints(s: seq<int>, a: int, b: int)
    requires 0 in s && a in s && b in s && 0 < a < b
    ensures 3 <= |s|
  {
    var h :| 0 <= h < |s| && s[h] == 0;
    var i :| 0 <= i < |s| && s[i] == a;
    var j :| 0 <= j < |s| && s[j] == b;
    assert h != i && i != j && h != j;
  }

  lemma FirstIsLeast(s: seq<int>, least: int)
    requires StrictlyIncreasing(s) && least in s && forall x :: x in s ==> least <= x
    ensures s[0] == least
  {
    var i :| 0 <= i < |s| && s[i] == least;
    assert s[0] in s;
  }

  /** A supported scale leaves room for at least one comparison bit when costs have any. */
  lemma SupportNeedsCompareBits(domain: NumericDomain, threshold: int, q: int)
    requires 0 <= threshold < domain.scale && IsSupported(domain, threshold, q, 0)
    ensures domain.maxCostBits <= domain.compareBits <= OPERAND_BITS && 0 < domain.maxRows
  {
  }

  lemma AnchorsPositive(domain: NumericDomain, threshold: int, config: GridConfig)
    requires 0 < threshold < domain.scale && 0 < config.denominator
    ensures 1 <= Anchors(domain, threshold, config).0 <= INT64_MAX
    ensures 1 <= Anchors(domain, threshold, config).1 <= INT64_MAX
  {
    MulGrows(config.denominator, domain.scale);
    AtLeastOne(config.denominator * domain.scale, domain.scale - threshold);
    AtLeastOne(config.denominator * domain.scale, threshold);
  }

  lemma AtLeastOne(x: int, d: int)
    requires 0 < d <= x
    ensures 1 <= (x + d / 2) / d
  {
    var y := x + d / 2;
    assert y == y / d * d + y % d;
    if y / d < 1 {
      MulMono(y / d, 0, d);
    }
  }
}
