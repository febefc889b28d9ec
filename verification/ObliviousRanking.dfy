/**
 The ranking of the confidential optimizer on ciphertexts: fitness, comparison, choice and the
 insertion network. Every decision stays encrypted.
 */
module ObliviousRankings {
  import opened Wrappers
  import opened NumberTheory
  import opened Paillier
  import opened SecureProtocols
  import opened SecureOps
  import opened CostModel
  import opened NumericDomains
  import opened EncryptedCosts
  import opened ObliviousRepairs
  import opened Rankings
  import PlainSearches

  /** The genes are one-hot and the sums are those of the assignment; row caches play no part. */
  ghost predicate Ranks(k: Key, inst: Instance, v: EncryptedIndividual, x: Assignment) {
    && inst.Complete(x) && |v.genes| == |x|
    && (forall i :: 0 <= i < |x| ==> GenesHold(k, v.genes[i], x[i]))
    && SumsCached(k, inst, v, x)
  }

  ghost predicate GenesHold(k: Key, genes: seq<Ciphertext>, m: int) {
    |genes| == 3 && forall j :: 0 <= j < 3 ==> k.Holds(genes[j], BitValue(m == j + 1))
  }

  /** A repaired individual can be ranked. */
  lemma CarriesRanks(k: Key, inst: Instance, v: EncryptedIndividual, x: Assignment)
    requires Carries(k, inst, v, x)
    ensures Ranks(k, inst, v, x)
  {
    forall i | 0 <= i < |x|
      ensures GenesHold(k, v.genes[i], x[i])
    {
      assert RowCached(k, inst, v, x, i);
    }
  }

  // ---------------------------------------------------------------- ranges

  /** The optimizer's check that the declared widths bound everything that it ranks by. */
  predicate AdmitsRanking(domain: NumericDomain, multiplier: int) {
    && AdmitsRepair(domain) && 0 < multiplier && 0 < domain.scale
    && var (scaleBits, penaltyBits) := (BitLength(domain.scale), domain.maxTotalBits + 1 + BitLength(multiplier));
    && domain.maxLinearBits + domain.maxTotalBits <= domain.compareBits
    && domain.maxTotalBits + scaleBits <= domain.compareBits
    && penaltyBits + domain.maxLinearBits <= domain.compareBits
    && penaltyBits + (domain.maxTotalBits + 1 + scaleBits) <= domain.compareBits
  }

  lemma ProductBits(a: int, b: int, p: nat, q: nat)
    requires 0 <= a <= Pow2(p) && 0 <= b <= Pow2(q)
    ensures 0 <= a * b <= Pow2(p + q)
  {
    MulMono(a, Pow2(p), b);
    MulMono(b, Pow2(q), Pow2(p));
    MulNonNeg(a, b);
    Pow2Add(p, q);
    assert b * Pow2(p) == Pow2(p) * b && Pow2(q) * Pow2(p) == Pow2(p) * Pow2(q);
  }

  /** Sums stay below half of the declared widths. */
  lemma SumsFit(domain: NumericDomain, inst: Instance, x: Assignment)
    requires Matches(domain, inst.threshold, inst) && inst.Complete(x)
    ensures 0 <= inst.Sum(C12, x) && 0 <= inst.Sum(C3, x) && 0 <= inst.Sum(TOTAL, x) < Pow2(domain.maxTotalBits)
    ensures inst.Sum(TOTAL, x) == inst.Sum(C12, x) + inst.Sum(C3, x)
    ensures Abs(inst.Sum(inst.Linear(), x)) < Pow2(domain.maxLinearBits - 1)
  {
    var top := Pow2(domain.maxCostBits) - 1;
    var rowBits := CeilLog2(domain.maxRows);
    Pow2Mono(rowBits, rowBits);
    inst.SumParts(x);
    SumRange(inst, TOTAL, 1, top, x);
    SumRange(inst, inst.Linear(), domain.scale, top, x);
    assert Pow2(0) == 1;
    Budget(|x|, 1, top, rowBits, 0, domain.maxCostBits);
    Budget(|x|, domain.scale, top, rowBits, CeilLog2(domain.scale), domain.maxCostBits);
    Pow2Mono(domain.maxCostBits + rowBits, domain.maxTotalBits);
    Pow2Mono(domain.maxCostBits + CeilLog2(domain.scale) + rowBits, domain.maxLinearBits - 1);
  }

  lemma MaxTotalFits(domain: NumericDomain, inst: Instance)
    requires Matches(domain, inst.threshold, inst)
    ensures 0 <= MaxTotal(inst) < Pow2(domain.maxTotalBits)
  {
    var top := Pow2(domain.maxCostBits) - 1;
    var rowBits := CeilLog2(domain.maxRows);
    PlainSearches.MaxPrefixSuffix(inst, |inst.rows|);
    MaxPrefixFits(inst, top, |inst.rows|);
    assert Pow2(0) == 1;
    Budget(|inst.rows|, 1, top, rowBits, 0, domain.maxCostBits);
    Pow2Mono(domain.maxCostBits + rowBits, domain.maxTotalBits);
  }

  lemma {:induction false} MaxPrefixFits(inst: Instance, top: int, n: nat)
    requires inst.Valid() && n <= |inst.rows| && CostsUpTo(inst, top)
    ensures 0 <= PlainSearches.MaxPrefix(inst, n) <= n * top
  {
    if n > 0 {
      MaxPrefixFits(inst, top, n - 1);
      inst.RowBounds(TOTAL, n - 1);
      var m :| inst.Has(n - 1, m) && inst.MaxUpTo(TOTAL, n - 1, 3).value == inst.Term(TOTAL, n - 1, m);
      assert n * top == (n - 1) * top + top;
    }
  }

  /** The penalties of the request. */
  lemma PenaltyFits(domain: NumericDomain, multiplier: int, inst: Instance)
    requires Matches(domain, inst.threshold, inst) && AdmitsRanking(domain, multiplier)
    ensures 0 < Penalty(inst, multiplier) <= Pow2(domain.maxTotalBits + BitLength(multiplier))
    ensures 0 < (MaxTotal(inst) + 1) * inst.scale <= Pow2(domain.maxTotalBits + BitLength(domain.scale))
  {
    hide Pow2, BitLength, MaxTotal, NumericDomain.AcceptedByBackend, NumericDomain.Admits;
    MaxTotalFits(domain, inst);
    BelowBitLength(multiplier);
    BelowBitLength(domain.scale);
    ProductBits(MaxTotal(inst) + 1, multiplier, domain.maxTotalBits, BitLength(multiplier));
    ProductBits(MaxTotal(inst) + 1, domain.scale, domain.maxTotalBits, BitLength(domain.scale));
    MulStrict(0, MaxTotal(inst) + 1, multiplier);
    MulStrict(0, MaxTotal(inst) + 1, domain.scale);
  }

  /** The four parts of a fitness, each well below the range, so that their sum is in range too. */
  lemma FitnessFits(domain: NumericDomain, multiplier: int, inst: Instance, x: Assignment)
    requires Matches(domain, inst.threshold, inst) && AdmitsRanking(domain, multiplier) && inst.Complete(x)
    ensures InRange(Fitness(inst, multiplier, x)) && InRange(Penalty(inst, multiplier))
    ensures InRange((MaxTotal(inst) + 1) * inst.scale)
    ensures InRange(Penalty(inst, multiplier) * ((MaxTotal(inst) + 1) * inst.scale))
    ensures InRange(inst.Sum(inst.Linear(), x)) && InRange(-inst.Sum(inst.Linear(), x))
  {
    hide Pow2, Instance.Sum, InRange, Penalty, MaxTotal, Fitness;
    var (penalty, extent) := (Penalty(inst, multiplier), (MaxTotal(inst) + 1) * inst.scale);
    var (total, linear) := (inst.Sum(TOTAL, x), inst.Sum(inst.Linear(), x));
    SumsFit(domain, inst, x);
    SumsInRange(domain, inst, x);
    Negated(linear);
    PenaltyFits(domain, multiplier, inst);
    BelowBitLength(domain.scale);
    FitnessIs(inst, multiplier, x);
    PartsFit(domain.maxTotalBits, BitLength(multiplier), BitLength(domain.scale), domain.maxLinearBits, domain.compareBits,
             total, inst.scale, penalty, if linear < 0 then -linear else 0, extent);
  }

  lemma Negated(v: int)
    requires InRange(v)
    ensures InRange(-v)
  {
  }

  /** Every part of a fitness takes a quarter of the comparison width at most. */
  lemma PartsFit(t: nat, mb: nat, sb: nat, lb: nat, bits: nat,
      total: int, scale: int, penalty: int, violation: int, extent: int)
    requires 0 < t && 0 < lb && bits < OPERAND_BITS && t + 1 + mb + lb <= bits && t + 1 + mb + (t + 1 + sb) <= bits
    requires 0 <= total <= Pow2(t) && 0 <= scale <= Pow2(sb) && 0 <= penalty <= Pow2(t + mb)
    requires 0 <= violation <= Pow2(lb - 1) && 0 <= extent <= Pow2(t + sb)
    ensures InRange(total * scale + penalty * scale + penalty * violation)
    ensures InRange(total * scale + penalty * scale + penalty * violation + penalty * extent)
    ensures InRange(penalty) && InRange(extent) && InRange(penalty * extent)
  {
    hide Pow2;
    ProductFits(total, scale, t, sb, bits - 2);
    ProductFits(penalty, scale, t + mb, sb, bits - 2);
    ProductFits(penalty, violation, t + mb, lb - 1, bits - 2);
    ProductFits(penalty, extent, t + mb, t + sb, bits - 2);
    Pow2Mono(t + mb, bits - 2);
    Pow2Mono(t + sb, bits - 2);
    QuarterRange(bits);
  }

  lemma FitnessIs(inst: Instance, multiplier: int, x: Assignment)
    requires inst.Valid() && inst.Complete(x)
    ensures var (penalty, linear) := (Penalty(inst, multiplier), inst.Sum(inst.Linear(), x));
      var violation := if linear < 0 then -linear else 0;
      Fitness(inst, multiplier, x) == inst.Sum(TOTAL, x) * inst.scale + penalty * inst.scale + penalty * violation
        + (if inst.Sum(C3, x) > 0 then 0 else penalty * ((MaxTotal(inst) + 1) * inst.scale))
  {
  }

  lemma ProductFits(a: int, b: int, p: nat, q: nat, bits: nat)
    requires 0 <= a <= Pow2(p) && 0 <= b <= Pow2(q) && p + q <= bits
    ensures 0 <= a * b <= Pow2(bits)
  {
    ProductBits(a, b, p, q);
    Pow2Mono(p + q, bits);
  }

  /** Four parts of a quarter of the comparison width are in range together. */
  lemma QuarterRange(bits: int)
    requires 2 <= bits < OPERAND_BITS
    ensures 4 * Pow2(bits - 2) < TWO_127
  {
    Pow2Mono(bits - 2, 124);
    Half127();
    assert Pow2(126) == 2 * Pow2(125) == 4 * Pow2(124);
  }

  // ---------------------------------------------------------------- fitness

  datatype Penalties = Penalties(penalty: Ciphertext, scaled: Ciphertext, missing: Ciphertext)

  ghost predicate PenaltiesHold(k: Key, inst: Instance, multiplier: int, p: Penalties)
    requires inst.Valid()
  {
    && k.Holds(p.penalty, Penalty(inst, multiplier)) && k.Holds(p.scaled, Penalty(inst, multiplier) * inst.scale)
    && k.Holds(p.missing, Penalty(inst, multiplier) * ((MaxTotal(inst) + 1) * inst.scale))
  }

  /** maximumTotal: the sum of the rows' largest costs, found by encrypted comparisons. */
  method MaximumTotal(k: Key, domain: NumericDomain, costs: seq<CostRow>, ghost inst: Instance) returns (c: Ciphertext)
    requires k.Valid() && Matches(domain, inst.threshold, inst) && CostsHold(k, costs, inst)
    ensures k.Holds(c, MaxTotal(inst))
  {
    hide Key.Holds, Key.Valid, Matches, RowHolds;
    MatchesValid(domain, inst);
    c := EncryptConstant(k, 0);
    for i := 0 to |costs|
      invariant k.Holds(c, PlainSearches.MaxPrefix(inst, i))
    {
      inst.RowBounds(TOTAL, i);
      var largest := RowMaximum(k, domain, costs[i], inst, i);
      c := Add(k, c, largest, PlainSearches.MaxPrefix(inst, i), inst.MaxUpTo(TOTAL, i, 3).value);
    }
  }

  method RowMaximum(k: Key, domain: NumericDomain, row: CostRow, ghost inst: Instance, ghost i: nat)
    returns (c: Ciphertext)
    requires k.Valid() && Matches(domain, inst.threshold, inst) && i < |inst.rows| && RowHolds(k, row, inst.rows[i])
    ensures inst.MaxUpTo(TOTAL, i, 3).Some? && k.Holds(c, inst.MaxUpTo(TOTAL, i, 3).value)
  {
    inst.RowBounds(TOTAL, i);
    SafeBasics(domain, inst);
    hide Key.Holds, Key.Valid, Matches;
    var largest: Option<Ciphertext> := None;
    for j := 0 to 3
      invariant HoldsOption(k, largest, inst.MaxUpTo(TOTAL, i, j))
      invariant largest.Some? ==> exists m :: inst.Has(i, m) && inst.MaxUpTo(TOTAL, i, j) == Some(inst.Term(TOTAL, i, m))
    {
      assert HoldsOption(k, row[j], inst.rows[i][j]);
      if row[j].Some? {
        PlainTerms(inst, i, j + 1);
        if largest.None? {
          largest := row[j];
        } else {
          ghost var best := inst.MaxUpTo(TOTAL, i, j).value;
          ghost var m :| inst.Has(i, m) && best == inst.Term(TOTAL, i, m);
          CandidatesInRange(domain, inst, i, m, j + 1);
          var above := GreaterThan(k, row[j].value, largest.value, inst.Cost(i, j + 1), best);
          var selected := Select(k, above, row[j].value, largest.value, inst.Cost(i, j + 1) > best,
                                 inst.Cost(i, j + 1), best);
          largest := Some(selected);
        }
      }
    }
    c := largest.value;
  }

  lemma CandidatesInRange(domain: NumericDomain, inst: Instance, i: nat, m: int, m': int)
    requires Matches(domain, inst.threshold, inst) && inst.Has(i, m) && inst.Has(i, m')
    ensures inst.Term(TOTAL, i, m') == inst.Cost(i, m')
    ensures InRange(inst.Term(TOTAL, i, m)) && InRange(inst.Cost(i, m'))
    ensures InRange(inst.Cost(i, m') - inst.Term(TOTAL, i, m))
  {
    SafeBasics(domain, inst);
    SafeTerms(domain, inst, TOTAL, i, m, m');
    PlainTerms(inst, i, m');
  }

  /** The encrypted penalties, once per request. */
  method MakePenalties(k: Key, domain: NumericDomain, multiplier: int, costs: seq<CostRow>, ghost inst: Instance)
    returns (p: Penalties)
    requires k.Valid() && Matches(domain, inst.threshold, inst) && AdmitsRanking(domain, multiplier)
    requires CostsHold(k, costs, inst)
    ensures inst.Valid() && PenaltiesHold(k, inst, multiplier, p)
  {
    hide Key.Holds, Key.Valid, AdmitsRanking;
    var total := MaximumTotal(k, domain, costs, inst);
    PenaltyInRange(domain, multiplier, inst);
    hide Matches;
    var one := EncryptConstant(k, 1);
    var more := Add(k, total, one, MaxTotal(inst), 1);
    var penalty := ScalarMul(k, more, multiplier, MaxTotal(inst) + 1);
    var scaled := ScalarMul(k, penalty, domain.scale, Penalty(inst, multiplier));
    var extent := ScalarMul(k, more, domain.scale, MaxTotal(inst) + 1);
    var missing := SecureMul(k, penalty, extent, Penalty(inst, multiplier), (MaxTotal(inst) + 1) * domain.scale);
    p := Penalties(penalty, scaled, missing);
  }

  lemma PenaltyInRange(domain: NumericDomain, multiplier: int, inst: Instance)
    requires Matches(domain, inst.threshold, inst) && AdmitsRanking(domain, multiplier)
    ensures InRange(Penalty(inst, multiplier)) && InRange((MaxTotal(inst) + 1) * inst.scale)
  {
    PenaltyFits(domain, multiplier, inst);
    Pow2Mono(domain.maxTotalBits + BitLength(multiplier), 126);
    Pow2Mono(domain.maxTotalBits + BitLength(domain.scale), 126);
    Half127();
  }

  /** fitness, on the common integer scale. */
  method FitnessOf(k: Key, domain: NumericDomain, multiplier: int, p: Penalties, v: EncryptedIndividual,
      ghost inst: Instance, ghost x: Assignment)
    returns (c: Ciphertext)
    requires k.Valid() && Matches(domain, inst.threshold, inst) && AdmitsRanking(domain, multiplier)
    requires PenaltiesHold(k, inst, multiplier, p) && inst.Complete(x) && SumsCached(k, inst, v, x)
    ensures k.Holds(c, Fitness(inst, multiplier, x))
  {
    hide Key.Holds, Key.Valid, AdmitsRanking;
    FitnessFits(domain, multiplier, inst, x);
    SumsInRange(domain, inst, x);
    hide Matches;
    ghost var penalty, linear := Penalty(inst, multiplier), inst.Sum(inst.Linear(), x);
    ghost var violated := if linear < 0 then -linear else 0;
    ghost var extra := penalty * ((MaxTotal(inst) + 1) * inst.scale);
    var zero := EncryptConstant(k, 0);
    var negative := ScalarMul(k, v.linear, -1, linear);
    var below := GreaterThan(k, negative, zero, -linear, 0);
    var violation := Select(k, below, negative, zero, -linear > 0, -linear, 0);
    var present := GreaterThan(k, v.c3, zero, inst.Sum(C3, x), 0);
    var missing := BitNot(k, present, inst.Sum(C3, x) > 0);
    var base := ScalarMul(k, v.total, domain.scale, inst.Sum(TOTAL, x));
    var weighted := SecureMul(k, p.penalty, violation, penalty, violated);
    var missingCost := SecureMul(k, p.missing, missing, extra, BitValue(inst.Sum(C3, x) <= 0));
    var left := Add(k, base, p.scaled, inst.Sum(TOTAL, x) * domain.scale, penalty * inst.scale);
    var right := Add(k, weighted, missingCost, penalty * violated, extra * BitValue(inst.Sum(C3, x) <= 0));
    c := Add(k, left, right, inst.Sum(TOTAL, x) * inst.scale + penalty * inst.scale,
             penalty * violated + extra * BitValue(inst.Sum(C3, x) <= 0));
  }

  // ---------------------------------------------------------------- comparison

  /** lexLess: row by row, whether a gene is smaller behind equal ones. */
  method LexBit(k: Key, a: EncryptedIndividual, b: EncryptedIndividual, ghost inst: Instance,
      ghost x: Assignment, ghost y: Assignment)
    returns (less: Ciphertext)
    requires k.Valid() && Ranks(k, inst, a, x) && Ranks(k, inst, b, y)
    ensures HoldsBit(k, less, LexLess(x, y))
  {
    hide Key.Holds, Key.Valid, SumsCached, LexLess;
    var zero := EncryptConstant(k, 0);
    var never := GreaterThan(k, zero, zero, 0, 0);
    less := GreaterThan(k, zero, zero, 0, 0);
    var equal := BitNot(k, never, false);
    LexNothing(x, y);
    for i := 0 to |a.genes|
      invariant HoldsBit(k, less, LexLess(x[..i], y[..i])) && HoldsBit(k, equal, x[..i] == y[..i])
    {
      var indexA := GeneIndex(k, a.genes[i], x[i]);
      var indexB := GeneIndex(k, b.genes[i], y[i]);
      assert inst.Has(i, x[i]) && inst.Has(i, y[i]);
      var below := GreaterThan(k, indexB, indexA, y[i] - 1, x[i] - 1);
      var above := GreaterThan(k, indexA, indexB, x[i] - 1, y[i] - 1);
      var differs := BitOrExclusive(k, above, below, x[i] > y[i], y[i] > x[i]);
      var same := BitNot(k, differs, x[i] > y[i] || y[i] > x[i]);
      var first := BitAnd(k, equal, below, x[..i] == y[..i], y[i] > x[i]);
      less := BitOr(k, less, first, LexLess(x[..i], y[..i]), x[..i] == y[..i] && y[i] > x[i]);
      equal := BitAnd(k, equal, same, x[..i] == y[..i], !(x[i] > y[i] || y[i] > x[i]));
      LexStep(x, y, i);
    }
    assert x[..|x|] == x && y[..|y|] == y;
  }

  method GeneIndex(k: Key, genes: seq<Ciphertext>, ghost m: int) returns (c: Ciphertext)
    requires k.Valid() && GenesHold(k, genes, m) && 1 <= m <= 3
    ensures k.Holds(c, m - 1)
  {
    hide Key.Holds, Key.Valid;
    var twice := ScalarMul(k, genes[2], 2, BitValue(m == 3));
    c := Add(k, genes[1], twice, BitValue(m == 2), BitValue(m == 3) * 2);
  }

  lemma LexNothing(x: Assignment, y: Assignment)
    ensures !LexLess(x[..0], y[..0])
  {
  }

  lemma LexStep(x: Assignment, y: Assignment, i: nat)
    requires i < |x| && i < |y|
    ensures LexLess(x[..i + 1], y[..i + 1]) <==> LexLess(x[..i], y[..i]) || (x[..i] == y[..i] && x[i] < y[i])
    ensures x[..i + 1] == y[..i + 1] <==> x[..i] == y[..i] && x[i] == y[i]
  {
    var a, b := x[..i + 1], y[..i + 1];
    assert a[..i] == x[..i] && b[..i] == y[..i];
    assert a == x[..i] + [x[i]] && b == y[..i] + [y[i]];
    LexExtends(a, b, i);
    if LexLess(a, b) {
      var j :| 0 <= j < |a| && j < |b| && a[..j] == b[..j] && a[j] < b[j];
      if j < i {
        assert x[..i][..j] == a[..j] && y[..i][..j] == b[..j];
        assert LexLess(x[..i], y[..i]);
      }
    }
  }

  /** better: every comparison is made, and the bit is the order of the two hidden assignments. */
  method Better(k: Key, domain: NumericDomain, multiplier: int, p: Penalties,
      a: EncryptedIndividual, b: EncryptedIndividual, ghost inst: Instance, ghost x: Assignment, ghost y: Assignment)
    returns (bit: Ciphertext)
    requires k.Valid() && Matches(domain, inst.threshold, inst) && AdmitsRanking(domain, multiplier)
    requires PenaltiesHold(k, inst, multiplier, p) && Ranks(k, inst, a, x) && Ranks(k, inst, b, y)
    ensures HoldsBit(k, bit, Precedes(inst, multiplier, x, y))
  {
    hide Key.Holds, Key.Valid, AdmitsRanking, PenaltiesHold, LexLess, Precedes, Matches, Instance.Sum, Instance.Feasible,
      Fitness;
    MatchesValid(domain, inst);
    var feasibleA := FeasibleBit(k, domain, a, inst, x);
    var feasibleB := FeasibleBit(k, domain, b, inst, y);
    ghost var fa, fb := inst.Feasible(x), inst.Feasible(y);
    var notA := BitNot(k, feasibleA, fa);
    var notB := BitNot(k, feasibleB, fb);
    var onlyA := BitAnd(k, feasibleA, notB, fa, !fb);
    var lex := LexBit(k, a, b, inst, x, y);
    var early := FeasibleBetter(k, domain, a, b, lex, inst, x, y);
    var late := InfeasibleBetter(k, domain, multiplier, p, a, b, lex, inst, x, y);
    ghost var pe := Chain(inst.Sum(TOTAL, x), inst.Sum(TOTAL, y), inst.Sum(inst.Linear(), x), inst.Sum(inst.Linear(), y),
                          LexLess(x, y));
    ghost var pl := Chain(Fitness(inst, multiplier, x), Fitness(inst, multiplier, y), 0, 0, LexLess(x, y));
    var both := BitAnd(k, feasibleA, feasibleB, fa, fb);
    var neither := BitAnd(k, notA, notB, !fa, !fb);
    var one := BitAnd(k, both, early, fa && fb, pe);
    var two := BitAnd(k, neither, late, !fa && !fb, pl);
    var rest := BitOr(k, one, two, fa && fb && pe, !fa && !fb && pl);
    bit := BitOr(k, onlyA, rest, fa && !fb, (fa && fb && pe) || (!fa && !fb && pl));
    PrecedesIs(inst, multiplier, x, y);
  }

  lemma MatchesValid(domain: NumericDomain, inst: Instance)
    requires Matches(domain, inst.threshold, inst)
    ensures inst.Valid() && inst.scale == domain.scale
  {
  }

  /** First, then second, then the given bit. */
  predicate Chain(a: int, b: int, c: int, d: int, last: bool) {
    a < b || (a == b && (c < d || (c == d && last)))
  }

  lemma PrecedesIs(inst: Instance, multiplier: int, x: Assignment, y: Assignment)
    requires inst.Valid() && inst.Complete(x) && inst.Complete(y)
    ensures var fa, fb := inst.Feasible(x), inst.Feasible(y);
      Precedes(inst, multiplier, x, y) <==>
        || (fa && !fb)
        || (fa && fb && Chain(inst.Sum(TOTAL, x), inst.Sum(TOTAL, y), inst.Sum(inst.Linear(), x),
                              inst.Sum(inst.Linear(), y), LexLess(x, y)))
        || (!fa && !fb && Chain(Fitness(inst, multiplier, x), Fitness(inst, multiplier, y), 0, 0, LexLess(x, y)))
  {
    hide LexLess, Fitness, Instance.Sum;
  }

  /** Two values compared both ways: less, and equal. */
  method Compare(k: Key, a: Ciphertext, b: Ciphertext, ghost va: int, ghost vb: int)
    returns (less: Ciphertext, equal: Ciphertext)
    requires k.Valid() && k.Holds(a, va) && k.Holds(b, vb) && InRange(va) && InRange(vb)
    ensures HoldsBit(k, less, va < vb) && HoldsBit(k, equal, va == vb)
  {
    hide Key.Holds, Key.Valid;
    var above := GreaterThan(k, a, b, va, vb);
    less := GreaterThan(k, b, a, vb, va);
    var differs := BitOrExclusive(k, above, less, va > vb, vb > va);
    equal := BitNot(k, differs, va > vb || vb > va);
  }

  method FeasibleBetter(k: Key, domain: NumericDomain, a: EncryptedIndividual, b: EncryptedIndividual, lex: Ciphertext,
      ghost inst: Instance, ghost x: Assignment, ghost y: Assignment)
    returns (bit: Ciphertext)
    requires k.Valid() && Matches(domain, inst.threshold, inst) && Ranks(k, inst, a, x) && Ranks(k, inst, b, y)
    requires HoldsBit(k, lex, LexLess(x, y))
    ensures HoldsBit(k, bit, Chain(inst.Sum(TOTAL, x), inst.Sum(TOTAL, y), inst.Sum(inst.Linear(), x),
                                   inst.Sum(inst.Linear(), y), LexLess(x, y)))
  {
    hide Key.Holds, Key.Valid, LexLess, Matches, Instance.Sum;
    SumsInRange(domain, inst, x);
    SumsInRange(domain, inst, y);
    ghost var (ta, tb) := (inst.Sum(TOTAL, x), inst.Sum(TOTAL, y));
    ghost var (la, lb) := (inst.Sum(inst.Linear(), x), inst.Sum(inst.Linear(), y));
    var cheaper, asCheap := Compare(k, a.total, b.total, ta, tb);
    var closer, asClose := Compare(k, a.linear, b.linear, la, lb);
    var tie := BitAnd(k, asClose, lex, la == lb, LexLess(x, y));
    var second := BitOr(k, closer, tie, la < lb, la == lb && LexLess(x, y));
    var then2 := BitAnd(k, asCheap, second, ta == tb, la < lb || (la == lb && LexLess(x, y)));
    bit := BitOr(k, cheaper, then2, ta < tb, ta == tb && (la < lb || (la == lb && LexLess(x, y))));
  }

  method InfeasibleBetter(k: Key, domain: NumericDomain, multiplier: int, p: Penalties, a: EncryptedIndividual,
      b: EncryptedIndividual, lex: Ciphertext, ghost inst: Instance, ghost x: Assignment, ghost y: Assignment)
    returns (bit: Ciphertext)
    requires k.Valid() && Matches(domain, inst.threshold, inst) && AdmitsRanking(domain, multiplier)
    requires PenaltiesHold(k, inst, multiplier, p) && Ranks(k, inst, a, x) && Ranks(k, inst, b, y)
    requires HoldsBit(k, lex, LexLess(x, y))
    ensures HoldsBit(k, bit, Chain(Fitness(inst, multiplier, x), Fitness(inst, multiplier, y), 0, 0, LexLess(x, y)))
  {
    hide Key.Holds, Key.Valid, LexLess, Matches, Instance.Sum, AdmitsRanking, PenaltiesHold, Fitness;
    MatchesValid(domain, inst);
    FitnessFits(domain, multiplier, inst, x);
    FitnessFits(domain, multiplier, inst, y);
    ghost var f, g := Fitness(inst, multiplier, x), Fitness(inst, multiplier, y);
    var fitnessA := FitnessOf(k, domain, multiplier, p, a, inst, x);
    var fitnessB := FitnessOf(k, domain, multiplier, p, b, inst, y);
    var fitter, asFit := Compare(k, fitnessA, fitnessB, f, g);
    var tie := BitAnd(k, asFit, lex, f == g, LexLess(x, y));
    bit := BitOr(k, fitter, tie, f < g, f == g && LexLess(x, y));
  }

  // ---------------------------------------------------------------- choice and selection

  /** choose: genes and sums of one of two individuals, without row caches. */
  method Choose(k: Key, domain: NumericDomain, condition: Ciphertext, yes: EncryptedIndividual, no: EncryptedIndividual,
      ghost c: bool, ghost inst: Instance, ghost x: Assignment, ghost y: Assignment)
    returns (r: EncryptedIndividual)
    requires k.Valid() && Matches(domain, inst.threshold, inst) && AdmitsRepair(domain) && HoldsBit(k, condition, c)
    requires Ranks(k, inst, yes, x) && Ranks(k, inst, no, y)
    ensures Ranks(k, inst, r, if c then x else y)
  {
    hide Key.Holds, Key.Valid, Matches, Instance.Sum, AdmitsRepair;
    DifferencesInRange(domain, inst, x, y);
    ghost var z := if c then x else y;
    var genes: seq<seq<Ciphertext>> := [];
    for i := 0 to |yes.genes|
      invariant |genes| == i && forall l :: 0 <= l < i ==> GenesHold(k, genes[l], z[l])
    {
      var row := ChooseGenes(k, condition, yes.genes[i], no.genes[i], c, x[i], y[i]);
      genes := genes + [row];
    }
    var total := Select(k, condition, yes.total, no.total, c, inst.Sum(TOTAL, x), inst.Sum(TOTAL, y));
    var c12 := Select(k, condition, yes.c12, no.c12, c, inst.Sum(C12, x), inst.Sum(C12, y));
    var c3 := Select(k, condition, yes.c3, no.c3, c, inst.Sum(C3, x), inst.Sum(C3, y));
    var linear := Select(k, condition, yes.linear, no.linear, c, inst.Sum(inst.Linear(), x), inst.Sum(inst.Linear(), y));
    r := EncryptedIndividual(genes, [], [], [], [], total, c12, c3, linear);
  }

  method ChooseGenes(k: Key, condition: Ciphertext, yes: seq<Ciphertext>, no: seq<Ciphertext>,
      ghost c: bool, ghost m: int, ghost n: int)
    returns (r: seq<Ciphertext>)
    requires k.Valid() && HoldsBit(k, condition, c) && GenesHold(k, yes, m) && GenesHold(k, no, n)
    ensures GenesHold(k, r, if c then m else n)
  {
    hide Key.Holds, Key.Valid;
    r := [];
    for j := 0 to 3
      invariant |r| == j && forall l :: 0 <= l < j ==> k.Holds(r[l], BitValue((if c then m else n) == l + 1))
    {
      var gene := Select(k, condition, yes[j], no[j], c, BitValue(m == j + 1), BitValue(n == j + 1));
      r := r + [gene];
    }
  }

  lemma DifferencesInRange(domain: NumericDomain, inst: Instance, x: Assignment, y: Assignment)
    requires Matches(domain, inst.threshold, inst) && AdmitsRepair(domain) && inst.Complete(x) && inst.Complete(y)
    ensures InRange(inst.Sum(TOTAL, x) - inst.Sum(TOTAL, y)) && InRange(inst.Sum(C12, x) - inst.Sum(C12, y))
    ensures InRange(inst.Sum(C3, x) - inst.Sum(C3, y))
    ensures InRange(inst.Sum(inst.Linear(), x) - inst.Sum(inst.Linear(), y))
  {
    SumsFit(domain, inst, x);
    SumsFit(domain, inst, y);
    Pow2Mono(domain.maxTotalBits, 127);
    Pow2Mono(domain.maxLinearBits - 1, 126);
    Half127();
    assert Pow2(127) == 2 * Pow2(126);
    hide Pow2, Instance.Sum;
  }

  ghost predicate AllRank(k: Key, inst: Instance, vs: seq<EncryptedIndividual>, xs: seq<Assignment>) {
    |vs| == |xs| && forall i :: 0 <= i < |vs| ==> Ranks(k, inst, vs[i], xs[i])
  }

  /**
   eliteSet: the insertion network on ciphertexts leaves in its slots what the plain network keeps,
   the best individuals of the population in order.
   */
  method EliteSet(k: Key, domain: NumericDomain, multiplier: int, p: Penalties, population: seq<EncryptedIndividual>,
      elitism: nat, ghost inst: Instance, ghost xs: seq<Assignment>)
    returns (elite: seq<EncryptedIndividual>)
    requires k.Valid() && Matches(domain, inst.threshold, inst) && AdmitsRanking(domain, multiplier)
    requires PenaltiesHold(k, inst, multiplier, p) && AllRank(k, inst, population, xs)
    requires population != [] && 0 < elitism
    ensures AllComplete(inst, xs) && AllRank(k, inst, elite, Elites(inst, multiplier, xs, elitism).0)
  {
    hide Key.Holds, Key.Valid, Matches, AdmitsRanking, PenaltiesHold, Precedes, Ranks, Instance.Complete, Pass;
    MatchesValid(domain, inst);
    FirstSlot(k, inst, multiplier, population, xs, elitism);
    elite := [population[0]];
    for index := 1 to |population|
      invariant AllRank(k, inst, elite, Elites(inst, multiplier, xs[..index], elitism).0)
    {
      ghost var slots := Elites(inst, multiplier, xs[..index], elitism).0;
      assert xs[..index + 1][..index] == xs[..index];
      var carry;
      elite, carry := PassThrough(k, domain, multiplier, p, elite, population[index], inst, slots, xs[index]);
      if |elite| < elitism {
        elite := elite + [carry];
      }
    }
    assert xs[..|xs|] == xs;
  }

  lemma FirstSlot(k: Key, inst: Instance, multiplier: int, population: seq<EncryptedIndividual>, xs: seq<Assignment>,
      elitism: nat)
    requires inst.Valid() && AllRank(k, inst, population, xs) && population != [] && 0 < elitism
    ensures AllComplete(inst, xs) && Elites(inst, multiplier, xs[..1], elitism).0 == [xs[0]]
    ensures forall i :: 0 <= i < |xs| ==> inst.Complete(xs[i])
  {
    assert xs[..1][..0] == [];
    assert Pass(inst, multiplier, [], xs[0]) == ([], xs[0]);
  }

  /** One candidate passes through the slots. */
  method PassThrough(k: Key, domain: NumericDomain, multiplier: int, p: Penalties, slots: seq<EncryptedIndividual>,
      candidate: EncryptedIndividual, ghost inst: Instance, ghost xs: seq<Assignment>, ghost x: Assignment)
    returns (elite: seq<EncryptedIndividual>, carry: EncryptedIndividual)
    requires k.Valid() && Matches(domain, inst.threshold, inst) && AdmitsRanking(domain, multiplier)
    requires PenaltiesHold(k, inst, multiplier, p) && AllRank(k, inst, slots, xs) && Ranks(k, inst, candidate, x)
    ensures AllComplete(inst, xs) && inst.Complete(x)
    ensures AllRank(k, inst, elite, Pass(inst, multiplier, xs, x).0)
    ensures Ranks(k, inst, carry, Pass(inst, multiplier, xs, x).1)
  {
    hide Key.Holds, Key.Valid, Matches, AdmitsRanking, PenaltiesHold, Precedes, Instance.Complete;
    MatchesValid(domain, inst);
    assert AdmitsRepair(domain) by {
      AdmitsBoth(domain, multiplier);
    }
    elite, carry := [], candidate;
    assert xs[..0] == [];
    for rank := 0 to |slots|
      invariant AllRank(k, inst, elite, Pass(inst, multiplier, xs[..rank], x).0)
      invariant Ranks(k, inst, carry, Pass(inst, multiplier, xs[..rank], x).1)
    {
      ghost var c := Pass(inst, multiplier, xs[..rank], x).1;
      assert xs[..rank + 1][..rank] == xs[..rank];
      var wins := Better(k, domain, multiplier, p, carry, slots[rank], inst, c, xs[rank]);
      ghost var wins' := Precedes(inst, multiplier, c, xs[rank]);
      var kept := Choose(k, domain, wins, carry, slots[rank], wins', inst, c, xs[rank]);
      carry := Choose(k, domain, wins, slots[rank], carry, wins', inst, xs[rank], c);
      elite := elite + [kept];
    }
    assert xs[..|xs|] == xs;
  }

  lemma AdmitsBoth(domain: NumericDomain, multiplier: int)
    requires AdmitsRanking(domain, multiplier)
    ensures AdmitsRepair(domain)
  {
  }

  /**
   The running best over one more population. Over a whole run, whatever the generations were made
   of, it carries the best of all the individuals that the run has ranked.
   */
  method KeepBest(k: Key, domain: NumericDomain, multiplier: int, p: Penalties, best: EncryptedIndividual,
      population: seq<EncryptedIndividual>, ghost inst: Instance, ghost seen: seq<Assignment>, ghost xs: seq<Assignment>)
    returns (r: EncryptedIndividual)
    requires k.Valid() && Matches(domain, inst.threshold, inst) && AdmitsRanking(domain, multiplier)
    requires inst.Valid() && PenaltiesHold(k, inst, multiplier, p) && AllRank(k, inst, population, xs)
    requires seen != [] && AllComplete(inst, seen) && Ranks(k, inst, best, Champion(inst, multiplier, seen))
    ensures AllComplete(inst, seen + xs) && Ranks(k, inst, r, Champion(inst, multiplier, seen + xs))
  {
    hide Key.Holds, Key.Valid, Matches, AdmitsRanking, PenaltiesHold, Precedes, Instance.Complete;
    AdmitsBoth(domain, multiplier);
    r := best;
    assert seen + xs[..0] == seen;
    for i := 0 to |population|
      invariant AllComplete(inst, seen + xs[..i])
      invariant Ranks(k, inst, r, Champion(inst, multiplier, seen + xs[..i]))
    {
      ghost var champion := Champion(inst, multiplier, seen + xs[..i]);
      ghost var next := seen + xs[..i + 1];
      assert next[..|next| - 1] == seen + xs[..i];
      var wins := Better(k, domain, multiplier, p, population[i], r, inst, xs[i], champion);
      r := Choose(k, domain, wins, population[i], r, Precedes(inst, multiplier, xs[i], champion), inst, xs[i], champion);
    }
    assert xs[..|xs|] == xs;
  }
}
