/**
 The repair rounds of the confidential optimizer, on real ciphertexts. Every round has the same
 operations whatever the values; it is proved to carry out Round of the plain model, and to keep the
 genes one-hot and every cached sum equal to recomputation.
 */
module ObliviousRepairs {
  import opened Wrappers
  import opened NumberTheory
  import opened Paillier
  import opened SecureProtocols
  import opened SecureOps
  import opened CostModel
  import opened NumericDomains
  import opened EncryptedCosts
  import opened Repairs

  datatype EncryptedIndividual = EncryptedIndividual(
    genes: seq<seq<Ciphertext>>,
    rowCost: seq<Ciphertext>, rowLinear: seq<Ciphertext>, rowC12: seq<Ciphertext>, rowC3: seq<Ciphertext>,
    total: Ciphertext, c12: Ciphertext, c3: Ciphertext, linear: Ciphertext)

  /** The running choice of a scan: what it changes, its number, and whether there is one. */
  datatype Scan = Scan(cost: Ciphertext, linear: Ciphertext, id: Ciphertext, have: Ciphertext)

  // ---------------------------------------------------------------- what ciphertexts carry

  ghost predicate RowCached(k: Key, inst: Instance, v: EncryptedIndividual, x: Assignment, i: int)
    requires inst.Complete(x) && 0 <= i < |x|
    requires |v.genes| == |v.rowCost| == |v.rowLinear| == |v.rowC12| == |v.rowC3| == |x|
  {
    && |v.genes[i]| == 3 && (forall j :: 0 <= j < 3 ==> k.Holds(v.genes[i][j], BitValue(x[i] == j + 1)))
    && k.Holds(v.rowCost[i], inst.Term(TOTAL, i, x[i])) && k.Holds(v.rowLinear[i], inst.Term(inst.Linear(), i, x[i]))
    && k.Holds(v.rowC12[i], inst.Term(C12, i, x[i])) && k.Holds(v.rowC3[i], inst.Term(C3, i, x[i]))
  }

  ghost predicate SumsCached(k: Key, inst: Instance, v: EncryptedIndividual, x: Assignment)
    requires inst.Complete(x)
  {
    && k.Holds(v.total, inst.Sum(TOTAL, x)) && k.Holds(v.c12, inst.Sum(C12, x))
    && k.Holds(v.c3, inst.Sum(C3, x)) && k.Holds(v.linear, inst.Sum(inst.Linear(), x))
  }

  /** One-hot genes on available methods, with every cache equal to recomputation. */
  ghost predicate Carries(k: Key, inst: Instance, v: EncryptedIndividual, x: Assignment) {
    && inst.Complete(x) && |v.genes| == |v.rowCost| == |v.rowLinear| == |v.rowC12| == |v.rowC3| == |x|
    && (forall i :: 0 <= i < |x| ==> RowCached(k, inst, v, x, i))
    && SumsCached(k, inst, v, x)
  }

  /** What a choice changes in the sum weighted by w; nothing when there is none. */
  ghost function ChangeOf(inst: Instance, w: Weight, x: Assignment, best: Option<nat>): int
    requires inst.Complete(x) && (best.Some? ==> Offers(inst, best.value))
  {
    if best.Some? then Change(inst, w, x, best.value) else 0
  }

  ghost predicate ChoiceHolds(k: Key, inst: Instance, x: Assignment, s: Scan, best: Option<nat>)
    requires inst.Complete(x)
  {
    && (best.Some? ==> Offers(inst, best.value))
    && k.Holds(s.cost, ChangeOf(inst, TOTAL, x, best)) && k.Holds(s.linear, ChangeOf(inst, inst.Linear(), x, best))
    && k.Holds(s.id, if best.Some? then best.value else 0)
  }

  ghost predicate ScanHolds(k: Key, inst: Instance, x: Assignment, s: Scan, best: Option<nat>)
    requires inst.Complete(x)
  {
    ChoiceHolds(k, inst, x, s, best) && HoldsBit(k, s.have, best.Some?)
  }

  // ---------------------------------------------------------------- ranges

  /** The part of the optimizer's check of the numeric domain that its repair needs. */
  predicate AdmitsRepair(domain: NumericDomain) {
    domain.Representable() && domain.maxCostBits + domain.maxLinearBits <= domain.compareBits < OPERAND_BITS
  }

  ghost predicate Setup(k: Key, domain: NumericDomain, threshold: int, costs: seq<CostRow>, inst: Instance) {
    && k.Valid() && Matches(domain, threshold, inst) && AdmitsRepair(domain) && CostsHold(k, costs, inst)
  }

  /** A cost change and a margin change within the declared widths. */
  predicate Small(domain: NumericDomain, cost: int, linear: int) {
    Abs(cost) < Pow2(domain.maxCostBits) && Abs(linear) < Pow2(domain.maxLinearBits)
  }

  lemma ChangeSmall(domain: NumericDomain, inst: Instance, x: Assignment, id: nat)
    requires Matches(domain, inst.threshold, inst) && inst.Complete(x) && Offers(inst, id)
    ensures Small(domain, Change(inst, TOTAL, x, id), Change(inst, inst.Linear(), x, id))
  {
    var top := Pow2(domain.maxCostBits) - 1;
    LinearBudget(domain);
    hide Pow2, NumericDomain.AcceptedByBackend;
    CostChange(inst, x, id, top);
    LinearChange(inst, x, id, domain.scale, top);
  }

  lemma CostChange(inst: Instance, x: Assignment, id: nat, top: int)
    requires inst.Complete(x) && Offers(inst, id) && CostsUpTo(inst, top)
    ensures Abs(Change(inst, TOTAL, x, id)) <= top
  {
    var i := RowOf(id);
    assert inst.Has(i, x[i]);
    assert inst.Cost(i, MethodOf(id)) <= top && inst.Cost(i, x[i]) <= top;
  }

  lemma LinearChange(inst: Instance, x: Assignment, id: nat, scale: int, top: int)
    requires inst.Complete(x) && Offers(inst, id) && CostsUpTo(inst, top) && 0 <= inst.threshold < scale == inst.scale
    ensures Abs(Change(inst, inst.Linear(), x, id)) <= 2 * (scale * top)
  {
    var i := RowOf(id);
    assert Coefficients(inst.Linear(), scale);
    hide CostsUpTo, Coefficients, Instance.Term;
    TermRange(inst, inst.Linear(), scale, top, i, MethodOf(id));
    TermRange(inst, inst.Linear(), scale, top, i, x[i]);
  }

  lemma LinearBudget(domain: NumericDomain)
    requires domain.AcceptedByBackend()
    ensures 2 * (domain.scale * (Pow2(domain.maxCostBits) - 1)) < Pow2(domain.maxLinearBits)
  {
    assert Pow2(1) == 2 * Pow2(0);
    Budget(2, domain.scale, Pow2(domain.maxCostBits) - 1, 1, CeilLog2(domain.scale), domain.maxCostBits);
    Pow2Mono(domain.maxCostBits + CeilLog2(domain.scale) + 1, domain.maxLinearBits);
  }

  lemma ZeroSmall(domain: NumericDomain)
    ensures Small(domain, 0, 0)
  {
  }

  /** The comparisons and products of small changes stay in range. */
  lemma SmallInRange(domain: NumericDomain, c: int, l: int, c': int, l': int)
    requires AdmitsRepair(domain) && 0 < domain.maxCostBits && 0 < domain.maxLinearBits
    requires Small(domain, c, l) && Small(domain, c', l')
    ensures InRange(c) && InRange(l) && InRange(c - c') && InRange(l - l') && InRange(c * l')
  {
    var a, b := Pow2(domain.maxCostBits), Pow2(domain.maxLinearBits);
    Pow2Add(domain.maxCostBits, domain.maxLinearBits);
    Pow2Mono(domain.maxCostBits + domain.maxLinearBits, 126);
    Pow2Mono(1, domain.maxCostBits);
    Pow2Mono(1, domain.maxLinearBits);
    assert Pow2(1) == 2;
    MulMono(2, a, b);
    MulMono(2, b, a);
    ProductRange(c, Abs(l'), a, b);
    AbsProduct(c, l');
    Half127();
  }

  lemma AbsProduct(a: int, b: int)
    ensures Abs(a * b) == Abs(a * Abs(b))
  {
    if b < 0 {
      assert a * -b == -(a * b);
    }
  }

  lemma Half127()
    ensures 2 * Pow2(126) == TWO_127
  {
    Pow2Of63();
  }

  // ---------------------------------------------------------------- bits about the whole individual

  /** feasible: the margin is not negative, and method 3 and the total cost something. */
  method FeasibleBit(k: Key, domain: NumericDomain, v: EncryptedIndividual, ghost inst: Instance, ghost x: Assignment)
    returns (c: Ciphertext)
    requires k.Valid() && Matches(domain, inst.threshold, inst) && inst.Complete(x) && SumsCached(k, inst, v, x)
    ensures HoldsBit(k, c, inst.Feasible(x))
  {
    SumsInRange(domain, inst, x);
    hide Key.Holds, Key.Valid, RowCached, Matches;
    var zero := EncryptConstant(k, 0);
    var negative := GreaterThan(k, zero, v.linear, 0, inst.Sum(inst.Linear(), x));
    var notNegative := BitNot(k, negative, 0 > inst.Sum(inst.Linear(), x));
    var third := GreaterThan(k, v.c3, zero, inst.Sum(C3, x), 0);
    var total := GreaterThan(k, v.total, zero, inst.Sum(TOTAL, x), 0);
    var both := BitAnd(k, notNegative, third, inst.Sum(inst.Linear(), x) >= 0, inst.Sum(C3, x) > 0);
    c := BitAnd(k, both, total, inst.Sum(inst.Linear(), x) >= 0 && inst.Sum(C3, x) > 0, inst.Sum(TOTAL, x) > 0);
    inst.SumParts(x);
  }

  lemma SumsInRange(domain: NumericDomain, inst: Instance, x: Assignment)
    requires Matches(domain, inst.threshold, inst) && inst.Complete(x)
    ensures InRange(0) && InRange(1)
    ensures InRange(inst.Sum(inst.Linear(), x)) && InRange(inst.Sum(TOTAL, x))
    ensures InRange(inst.Sum(C3, x)) && InRange(inst.Sum(C12, x))
  {
    SafeBasics(domain, inst);
    SafeSums(domain, inst, inst.Linear(), x);
    SafeSums(domain, inst, TOTAL, x);
    SafeSums(domain, inst, C12, x);
    SafeSums(domain, inst, C3, x);
  }

  /** The number of rows that run method 3, from their genes. */
  method CountGenes(k: Key, v: EncryptedIndividual, ghost inst: Instance, ghost x: Assignment) returns (c: Ciphertext)
    requires k.Valid() && Carries(k, inst, v, x)
    ensures k.Holds(c, CountM3(x))
  {
    hide Key.Holds, Key.Valid, SumsCached;
    c := EncryptConstant(k, 0);
    for i := 0 to |v.genes|
      invariant k.Holds(c, CountM3(x[..i]))
    {
      assert RowCached(k, inst, v, x, i) && x[..i + 1][..i] == x[..i];
      c := Add(k, c, v.genes[i][2], CountM3(x[..i]), BitValue(x[i] == 3));
    }
    assert x[..|x|] == x;
  }

  lemma {:induction false} CountM3Bound(x: Assignment)
    ensures CountM3(x) <= |x|
  {
    if x != [] {
      CountM3Bound(x[..|x| - 1]);
    }
  }

  // ---------------------------------------------------------------- the scan over the moves

  /** The cost and margin that one move adds. */
  method Changes(k: Key, threshold: int, scale: int, cost: Ciphertext, v: EncryptedIndividual, i: nat, j: nat,
      ghost inst: Instance, ghost x: Assignment)
    returns (deltaCost: Ciphertext, deltaLinear: Ciphertext)
    requires k.Valid() && Carries(k, inst, v, x) && i < |x| && j < 3 && inst.Has(i, j + 1)
    requires inst.scale == scale && inst.threshold == threshold && k.Holds(cost, inst.Cost(i, j + 1))
    ensures k.Holds(deltaCost, Change(inst, TOTAL, x, 3 * i + j))
    ensures k.Holds(deltaLinear, Change(inst, inst.Linear(), x, 3 * i + j))
  {
    hide Key.Holds, Key.Valid, SumsCached;
    assert RowCached(k, inst, v, x, i);
    assert RowOf(3 * i + j) == i && MethodOf(3 * i + j) == j + 1;
    deltaCost := Sub(k, cost, v.rowCost[i], inst.Cost(i, j + 1), inst.Term(TOTAL, i, x[i]));
    var target := ScalarMul(k, cost, if j < 2 then scale - threshold else -threshold, inst.Cost(i, j + 1));
    ContributionTerm(inst, i, j + 1);
    deltaLinear := Sub(k, target, v.rowLinear[i], inst.Term(inst.Linear(), i, j + 1),
                       inst.Term(inst.Linear(), i, x[i]));
  }

  /** Replace the running choice when the bit says so. */
  method Replace(k: Key, domain: NumericDomain, s: Scan, cost: Ciphertext, linear: Ciphertext, number: nat,
      replace: Ciphertext, ghost p: bool, ghost best: Option<nat>, ghost inst: Instance, ghost x: Assignment)
    returns (r: Scan)
    requires k.Valid() && inst.Complete(x) && Matches(domain, inst.threshold, inst) && AdmitsRepair(domain)
    requires ChoiceHolds(k, inst, x, s, best) && Offers(inst, number) && HoldsBit(k, replace, p)
    requires k.Holds(cost, Change(inst, TOTAL, x, number))
    requires k.Holds(linear, Change(inst, inst.Linear(), x, number))
    ensures r.have == s.have && ChoiceHolds(k, inst, x, r, if p then Some(number) else best)
  {
    ghost var c, l := Change(inst, TOTAL, x, number), Change(inst, inst.Linear(), x, number);
    ghost var c', l' := ChangeOf(inst, TOTAL, x, best), ChangeOf(inst, inst.Linear(), x, best);
    ghost var n' := if best.Some? then best.value else 0;
    ScanSmall(domain, inst, x, best, number);
    NumbersInRange(domain, inst, number);
    NumbersInRange(domain, inst, n');
    hide Key.Holds, Key.Valid, Matches, Change, Offers;
    var rc := Select(k, replace, cost, s.cost, p, c, c');
    var rl := Select(k, replace, linear, s.linear, p, l, l');
    var constant := EncryptConstant(k, number);
    var ri := Select(k, replace, constant, s.id, p, number, n');
    r := Scan(rc, rl, ri, s.have);
  }

  /** Everything that the scan computes about a candidate and the running choice is in range. */
  lemma ScanSmall(domain: NumericDomain, inst: Instance, x: Assignment, best: Option<nat>, number: nat)
    requires Matches(domain, inst.threshold, inst) && AdmitsRepair(domain) && inst.Complete(x)
    requires Offers(inst, number) && (best.Some? ==> Offers(inst, best.value))
    ensures var c, l := Change(inst, TOTAL, x, number), Change(inst, inst.Linear(), x, number);
      var c', l' := ChangeOf(inst, TOTAL, x, best), ChangeOf(inst, inst.Linear(), x, best);
      && InRange(c) && InRange(l) && InRange(c') && InRange(l') && InRange(c - c') && InRange(l - l')
      && InRange(c * l') && InRange(c' * l) && InRange(0)
  {
    ChangeSmall(domain, inst, x, number);
    if best.Some? {
      ChangeSmall(domain, inst, x, best.value);
    }
    ZeroSmall(domain);
    var c, l := Change(inst, TOTAL, x, number), Change(inst, inst.Linear(), x, number);
    var c', l' := ChangeOf(inst, TOTAL, x, best), ChangeOf(inst, inst.Linear(), x, best);
    hide Small, Change, Offers;
    SmallInRange(domain, c, l, c', l');
    SmallInRange(domain, c', l', c, l);
  }

  /** Move numbers are far below the operand range, and so are row counts. */
  lemma NumbersInRange(domain: NumericDomain, inst: Instance, number: nat)
    requires Matches(domain, inst.threshold, inst) && AdmitsRepair(domain) && number <= 3 * |inst.rows|
    ensures 0 <= number < TWO_127 / 4
  {
  }

  /** The method-3 scan at one row. */
  method ConsiderThird(k: Key, domain: NumericDomain, t: Scan, deltaCost: Ciphertext, deltaLinear: Ciphertext, i: nat,
      ghost inst: Instance, ghost x: Assignment)
    returns (r: Scan)
    requires k.Valid() && inst.Complete(x) && Matches(domain, inst.threshold, inst) && AdmitsRepair(domain)
    requires i < |x| && Offers(inst, 3 * i + 2) && ScanHolds(k, inst, x, t, ThirdUpTo(inst, x, i))
    requires k.Holds(deltaCost, Change(inst, TOTAL, x, 3 * i + 2))
    requires k.Holds(deltaLinear, Change(inst, inst.Linear(), x, 3 * i + 2))
    ensures ScanHolds(k, inst, x, r, ThirdUpTo(inst, x, i + 1))
  {
    ghost var best := ThirdUpTo(inst, x, i);
    ghost var c, c' := Change(inst, TOTAL, x, 3 * i + 2), ChangeOf(inst, TOTAL, x, best);
    ghost var wins := best.None? || c < c';
    assert ThirdUpTo(inst, x, i + 1) == if wins then Some(3 * i + 2) else best;
    ScanSmall(domain, inst, x, best, 3 * i + 2);
    hide Key.Holds, Key.Valid, Matches, Change, ChangeOf, Offers, ThirdUpTo, InRange;
    var smaller := GreaterThan(k, t.cost, deltaCost, c', c);
    var none := BitNot(k, t.have, best.Some?);
    var replace := BitOr(k, none, smaller, best.None?, c < c');
    r := Replace(k, domain, t, deltaCost, deltaLinear, 3 * i + 2, replace, wins, best, inst, x);
    var have := BitOr(k, t.have, replace, best.Some?, wins);
    r := r.(have := have);
  }

  /** Whether one move is admitted. */
  method Admit(k: Key, domain: NumericDomain, v: EncryptedIndividual, deltaLinear: Ciphertext, count: Ciphertext,
      needThird: Ciphertext, i: nat, j: nat, ghost inst: Instance, ghost x: Assignment)
    returns (valid: Ciphertext)
    requires k.Valid() && Carries(k, inst, v, x) && Matches(domain, inst.threshold, inst) && AdmitsRepair(domain)
    requires i < |x| && j < 3 && Offers(inst, 3 * i + j) && k.Holds(count, CountM3(x))
    requires HoldsBit(k, needThird, inst.Sum(C3, x) <= 0)
    requires k.Holds(deltaLinear, Change(inst, inst.Linear(), x, 3 * i + j))
    ensures HoldsBit(k, valid, ObliviousMove(inst, x, 3 * i + j))
  {
    ghost var id := 3 * i + j;
    assert RowOf(id) == i && MethodOf(id) == j + 1 && RowCached(k, inst, v, x, i);
    ScanSmall(domain, inst, x, None, id);
    CountM3Bound(x);
    NumbersInRange(domain, inst, |x|);
    hide Key.Holds, Key.Valid, Matches, Change, SumsCached, CountM3, Instance.Sum;
    var zero := EncryptConstant(k, 0);
    var positive := GreaterThan(k, deltaLinear, zero, Change(inst, inst.Linear(), x, id), 0);
    ghost var raises := Change(inst, inst.Linear(), x, id) > 0;
    if j != 2 {
      ghost var left := CountM3(x) - BitValue(x[i] == 3);
      var remaining := Sub(k, count, v.genes[i][2], CountM3(x), BitValue(x[i] == 3));
      var some := GreaterThan(k, remaining, zero, left, 0);
      valid := BitAnd(k, positive, some, raises, left > 0);
    } else {
      var present := BitNot(k, needThird, inst.Sum(C3, x) <= 0);
      valid := BitAnd(k, positive, present, raises, inst.Sum(C3, x) > 0);
    }
  }

  /** The ratio scan at one move. */
  method ConsiderMove(k: Key, domain: NumericDomain, s: Scan, deltaCost: Ciphertext, deltaLinear: Ciphertext,
      valid: Ciphertext, number: nat, ghost inst: Instance, ghost x: Assignment)
    returns (r: Scan)
    requires k.Valid() && inst.Complete(x) && Matches(domain, inst.threshold, inst) && AdmitsRepair(domain)
    requires Offers(inst, number) && ScanHolds(k, inst, x, s, BestUpTo(false, inst, x, number))
    requires k.Holds(deltaCost, Change(inst, TOTAL, x, number))
    requires k.Holds(deltaLinear, Change(inst, inst.Linear(), x, number))
    requires HoldsBit(k, valid, ObliviousMove(inst, x, number))
    ensures ScanHolds(k, inst, x, r, BestUpTo(false, inst, x, number + 1))
  {
    ghost var best, admitted := BestUpTo(false, inst, x, number), ObliviousMove(inst, x, number);
    ghost var c, l := Change(inst, TOTAL, x, number), Change(inst, inst.Linear(), x, number);
    ghost var c', l' := ChangeOf(inst, TOTAL, x, best), ChangeOf(inst, inst.Linear(), x, best);
    ghost var wins := admitted && (best.None? || c * l' < c' * l);
    assert BestUpTo(false, inst, x, number + 1) == if wins then Some(number) else best;
    ScanSmall(domain, inst, x, best, number);
    hide Key.Holds, Key.Valid, Matches, Change, Offers, BestUpTo, ObliviousMove, InRange;
    var lhs := SecureMul(k, deltaCost, s.linear, c, l');
    var rhs := SecureMul(k, s.cost, deltaLinear, c', l);
    var smaller := GreaterThan(k, rhs, lhs, c' * l, c * l');
    var none := BitNot(k, s.have, best.Some?);
    var either := BitOr(k, none, smaller, best.None?, c * l' < c' * l);
    var replace := BitAnd(k, valid, either, admitted, best.None? || c * l' < c' * l);
    r := Replace(k, domain, s, deltaCost, deltaLinear, number, replace, wins, best, inst, x);
    var have := BitOr(k, s.have, valid, best.Some?, admitted);
    r := r.(have := have);
  }

  /** One row's methods: both scans advance past the row. */
  method ScanRow(k: Key, domain: NumericDomain, threshold: int, row: CostRow, v: EncryptedIndividual,
      count: Ciphertext, needThird: Ciphertext, s: Scan, t: Scan, i: nat, ghost inst: Instance, ghost x: Assignment)
    returns (selected: Scan, third: Scan)
    requires k.Valid() && inst.Complete(x) && Carries(k, inst, v, x)
    requires Matches(domain, threshold, inst) && AdmitsRepair(domain)
    requires i < |x| && RowHolds(k, row, inst.rows[i]) && k.Holds(count, CountM3(x))
    requires HoldsBit(k, needThird, inst.Sum(C3, x) <= 0)
    requires ScanHolds(k, inst, x, s, BestUpTo(false, inst, x, 3 * i))
    requires ScanHolds(k, inst, x, t, ThirdUpTo(inst, x, i))
    ensures ScanHolds(k, inst, x, selected, BestUpTo(false, inst, x, 3 * (i + 1)))
    ensures ScanHolds(k, inst, x, third, ThirdUpTo(inst, x, i + 1))
  {
    hide Key.Holds, Key.Valid, Matches, Change, BestUpTo, ThirdUpTo, Carries, AdmitsRepair, ScanHolds, CountM3;
    selected, third := s, t;
    for j := 0 to 3
      invariant ScanHolds(k, inst, x, selected, BestUpTo(false, inst, x, 3 * i + j))
      invariant ScanHolds(k, inst, x, third, ThirdUpTo(inst, x, if j < 3 then i else i + 1))
    {
      assert HoldsOption(k, row[j], inst.rows[i][j]);
      assert RowOf(3 * i + j) == i && MethodOf(3 * i + j) == j + 1;
      NoOffer(inst, x, i, j);
      if row[j].Some? {
        assert inst.Has(i, j + 1);
        MatchesScale(domain, threshold, inst);
        var deltaCost, deltaLinear := Changes(k, threshold, domain.scale, row[j].value, v, i, j, inst, x);
        var valid := Admit(k, domain, v, deltaLinear, count, needThird, i, j, inst, x);
        if j == 2 {
          third := ConsiderThird(k, domain, third, deltaCost, deltaLinear, i, inst, x);
        }
        selected := ConsiderMove(k, domain, selected, deltaCost, deltaLinear, valid, 3 * i + j, inst, x);
      }
    }
  }

  lemma MatchesScale(domain: NumericDomain, threshold: int, inst: Instance)
    requires Matches(domain, threshold, inst)
    ensures inst.scale == domain.scale && inst.threshold == threshold
  {
  }

  /** A missing method leaves both scans as they are. */
  lemma NoOffer(inst: Instance, x: Assignment, i: nat, j: nat)
    requires inst.Complete(x) && i < |x| && j < 3
    ensures !inst.Has(i, j + 1) ==> BestUpTo(false, inst, x, 3 * i + j + 1) == BestUpTo(false, inst, x, 3 * i + j)
    ensures !inst.Has(i, 3) ==> ThirdUpTo(inst, x, i + 1) == ThirdUpTo(inst, x, i)
  {
  }

  /** An empty running choice. */
  method EmptyScan(k: Key, ghost inst: Instance, ghost x: Assignment) returns (s: Scan)
    requires k.Valid() && inst.Complete(x)
    ensures ScanHolds(k, inst, x, s, None)
  {
    var zero := EncryptConstant(k, 0);
    var none := GreaterThan(k, zero, zero, 0, 0);
    s := Scan(zero, zero, zero, none);
  }

  /** Both scans, and the choice between them: the number of the move and whether to make it. */
  method ChooseMove(k: Key, domain: NumericDomain, threshold: int, costs: seq<CostRow>, v: EncryptedIndividual,
      ghost inst: Instance, ghost x: Assignment)
    returns (number: Ciphertext, apply: Ciphertext)
    requires Setup(k, domain, threshold, costs, inst) && Carries(k, inst, v, x)
    ensures k.Holds(number, RoundMove(inst, x)) && HoldsBit(k, apply, RoundApplies(inst, x))
  {
    hide Key.Holds, Key.Valid, Matches, Change, BestUpTo, ThirdUpTo, AdmitsRepair, CountM3, Instance.Sum, Instance.Has,
      RowCached, Offers;
    MatchesScale(domain, threshold, inst);
    SumsInRange(domain, inst, x);
    var feasible := FeasibleBit(k, domain, v, inst, x);
    var selected := EmptyScan(k, inst, x);
    var third := selected;
    var zero := EncryptConstant(k, 0);
    var present := GreaterThan(k, v.c3, zero, inst.Sum(C3, x), 0);
    var needThird := BitNot(k, present, inst.Sum(C3, x) > 0);
    var count := CountGenes(k, v, inst, x);
    ScansStart(inst, x);
    for i := 0 to |costs|
      invariant ScanHolds(k, inst, x, selected, BestUpTo(false, inst, x, 3 * i))
      invariant ScanHolds(k, inst, x, third, ThirdUpTo(inst, x, i))
    {
      selected, third := ScanRow(k, domain, threshold, costs[i], v, count, needThird, selected, third, i, inst, x);
    }
    ghost var best, first := BestUpTo(false, inst, x, 3 * |x|), ThirdUpTo(inst, x, |x|);
    ghost var need := inst.Sum(C3, x) <= 0;
    ghost var nb, nf := if best.Some? then best.value else 0, if first.Some? then first.value else 0;
    NumbersInRange(domain, inst, nb) by {
      OffersBelow(inst, nb, best);
    }
    NumbersInRange(domain, inst, nf) by {
      OffersBelow(inst, nf, first);
    }
    number := Select(k, needThird, third.id, selected.id, need, nf, nb);
    var brought := BitAnd(k, needThird, third.have, need, first.Some?);
    var have := BitOr(k, selected.have, brought, best.Some?, need && first.Some?);
    var infeasible := BitNot(k, feasible, inst.Feasible(x));
    apply := BitAnd(k, infeasible, have, !inst.Feasible(x), best.Some? || (need && first.Some?));
  }

  lemma OffersBelow(inst: Instance, number: nat, best: Option<nat>)
    requires best.Some? ==> Offers(inst, best.value)
    requires number == if best.Some? then best.value else 0
    ensures number <= 3 * |inst.rows|
  {
  }

  lemma ScansStart(inst: Instance, x: Assignment)
    requires inst.Complete(x)
    ensures BestUpTo(false, inst, x, 0) == None && ThirdUpTo(inst, x, 0) == None
  {
  }

  // ---------------------------------------------------------------- applying the move

  /** Add delta where the mask is set. */
  method Shift(k: Key, c: Ciphertext, mask: Ciphertext, delta: Ciphertext, ghost p: bool, ghost v: int, ghost d: int)
    returns (r: Ciphertext)
    requires k.Valid() && k.Holds(c, v) && HoldsBit(k, mask, p) && k.Holds(delta, d) && InRange(d)
    ensures k.Holds(r, if p then v + d else v)
  {
    var product := SecureMul(k, mask, delta, BitValue(p), d);
    r := Add(k, c, product, v, BitValue(p) * d);
  }

  /** The difference between a target and a cache, shifted into both the cache and its sum. */
  method ShiftBoth(k: Key, sum: Ciphertext, cache: Ciphertext, target: Ciphertext, mask: Ciphertext,
      ghost p: bool, ghost total: int, ghost term: int, ghost goal: int)
    returns (newSum: Ciphertext, newCache: Ciphertext)
    requires k.Valid() && k.Holds(sum, total) && k.Holds(cache, term) && k.Holds(target, goal) && HoldsBit(k, mask, p)
    requires InRange(goal - term)
    ensures k.Holds(newSum, if p then total - term + goal else total)
    ensures k.Holds(newCache, if p then goal else term)
  {
    hide Key.Holds, Key.Valid;
    var delta := Sub(k, target, cache, goal, term);
    newSum := Shift(k, sum, mask, delta, p, total, goal - term);
    newCache := Shift(k, cache, mask, delta, p, term, goal - term);
  }

  /** The one-hot genes of a row, moved to a method where the mask is set. */
  method ShiftGenes(k: Key, genes: seq<Ciphertext>, mask: Ciphertext, j: nat, ghost p: bool, ghost m: int)
    returns (r: seq<Ciphertext>)
    requires k.Valid() && HoldsBit(k, mask, p) && j < 3 && |genes| == 3
    requires forall l :: 0 <= l < 3 ==> k.Holds(genes[l], BitValue(m == l + 1))
    ensures |r| == 3
    ensures forall l :: 0 <= l < 3 ==> k.Holds(r[l], BitValue((if p then j + 1 else m) == l + 1))
  {
    hide Key.Holds, Key.Valid;
    r := [];
    for l := 0 to 3
      invariant |r| == l
      invariant forall n :: 0 <= n < l ==> k.Holds(r[n], BitValue((if p then j + 1 else m) == n + 1))
    {
      var target := EncryptConstant(k, if l == j then 1 else 0);
      var delta := Sub(k, target, genes[l], BitValue(l == j), BitValue(m == l + 1));
      var c := Shift(k, genes[l], mask, delta, p, BitValue(m == l + 1), BitValue(l == j) - BitValue(m == l + 1));
      r := r + [c];
    }
  }

  /** The assignment after the masks of all moves numbered below id. */
  ghost function Partway(inst: Instance, x: Assignment, apply: bool, number: nat, id: nat): (y: Assignment)
    requires inst.Complete(x)
    ensures inst.Complete(y)
  {
    if apply && number < id && Offers(inst, number) then Moved(inst, x, number) else x
  }

  lemma PartwayStep(inst: Instance, x: Assignment, apply: bool, number: nat, id: nat)
    requires inst.Complete(x)
    ensures var y := Partway(inst, x, apply, number, id);
      Partway(inst, x, apply, number, id + 1) ==
        if apply && number == id && Offers(inst, id) then y[RowOf(id) := MethodOf(id)] else y
  {
  }

  /** Only row i and the sums changed. */
  lemma Reassembled(k: Key, inst: Instance, v: EncryptedIndividual, r: EncryptedIndividual, y: Assignment, z: Assignment,
      i: nat)
    requires inst.Complete(y) && inst.Complete(z) && Carries(k, inst, v, y) && i < |y|
    requires |r.genes| == |r.rowCost| == |r.rowLinear| == |r.rowC12| == |r.rowC3| == |y|
    requires forall l :: 0 <= l < |y| && l != i ==>
      && z[l] == y[l] && r.genes[l] == v.genes[l] && r.rowCost[l] == v.rowCost[l]
      && r.rowLinear[l] == v.rowLinear[l] && r.rowC12[l] == v.rowC12[l] && r.rowC3[l] == v.rowC3[l]
    requires RowCached(k, inst, r, z, i) && SumsCached(k, inst, r, z)
    ensures Carries(k, inst, r, z)
  {
    hide Key.Holds, SumsCached, Instance.Term;
    forall l | 0 <= l < |z| && l != i
      ensures RowCached(k, inst, r, z, l)
    {
      assert RowCached(k, inst, v, y, l);
    }
  }

  /** A sum after a masked move. */
  lemma MaskedSum(inst: Instance, w: Weight, y: Assignment, i: nat, m: int, p: bool)
    requires inst.Complete(y) && i < |y| && inst.Has(i, m)
    ensures var z := if p then y[i := m] else y;
      && inst.Complete(z)
      && inst.Sum(w, z) == if p then inst.Sum(w, y) - inst.Term(w, i, y[i]) + inst.Term(w, i, m) else inst.Sum(w, y)
  {
    inst.SumUpdate(w, y, i, m);
  }

  /** One move under its mask: aggregates, caches and genes of the row. */
  method ApplyMove(k: Key, domain: NumericDomain, threshold: int, cost: Ciphertext, v: EncryptedIndividual,
      mask: Ciphertext, i: nat, j: nat, ghost p: bool, ghost inst: Instance, ghost y: Assignment)
    returns (r: EncryptedIndividual)
    requires k.Valid() && Matches(domain, threshold, inst) && inst.Complete(y) && Carries(k, inst, v, y)
    requires i < |y| && j < 3 && inst.Has(i, j + 1) && k.Holds(cost, inst.Cost(i, j + 1)) && HoldsBit(k, mask, p)
    ensures Carries(k, inst, r, if p then y[i := j + 1] else y)
  {
    hide Key.Holds, Key.Valid, Matches, InRange, Instance.Sum, Instance.Term, BitValue;
    ghost var m, w := j + 1, inst.Linear();
    ghost var z := if p then y[i := m] else y;
    MatchesScale(domain, threshold, inst);
    assert RowCached(k, inst, v, y, i);
    TermsInRange(domain, inst, i, m, y[i]);
    var zero := EncryptConstant(k, 0);
    var target := ScalarMul(k, cost, if j < 2 then domain.scale - threshold else -threshold, inst.Cost(i, m));
    ContributionTerm(inst, i, m);
    PlainTerms(inst, i, m);
    var total, rowCost := ShiftSum(k, v.total, v.rowCost[i], cost, mask, p, TOTAL, inst, y, i, m);
    var linear, rowLinear := ShiftSum(k, v.linear, v.rowLinear[i], target, mask, p, w, inst, y, i, m);
    var c12, rowC12 := ShiftSum(k, v.c12, v.rowC12[i], if j < 2 then cost else zero, mask, p, C12, inst, y, i, m);
    var c3, rowC3 := ShiftSum(k, v.c3, v.rowC3[i], if j == 2 then cost else zero, mask, p, C3, inst, y, i, m);
    var genes := ShiftGenes(k, v.genes[i], mask, j, p, y[i]);
    r := EncryptedIndividual(v.genes[i := genes], v.rowCost[i := rowCost], v.rowLinear[i := rowLinear],
                             v.rowC12[i := rowC12], v.rowC3[i := rowC3], total, c12, c3, linear);
    Reassembled(k, inst, v, r, y, z, i);
  }

  /** The sum weighted by w and the row's term in it, moved to method m where the mask is set. */
  method ShiftSum(k: Key, sum: Ciphertext, cache: Ciphertext, target: Ciphertext, mask: Ciphertext, ghost p: bool,
      ghost w: Weight, ghost inst: Instance, ghost y: Assignment, ghost i: nat, ghost m: int)
    returns (newSum: Ciphertext, newCache: Ciphertext)
    requires k.Valid() && inst.Complete(y) && i < |y| && inst.Has(i, m) && HoldsBit(k, mask, p)
    requires k.Holds(sum, inst.Sum(w, y)) && k.Holds(cache, inst.Term(w, i, y[i])) && k.Holds(target, inst.Term(w, i, m))
    requires InRange(inst.Term(w, i, m) - inst.Term(w, i, y[i]))
    ensures var z := if p then y[i := m] else y;
      inst.Complete(z) && k.Holds(newSum, inst.Sum(w, z)) && k.Holds(newCache, inst.Term(w, i, z[i]))
  {
    hide Key.Holds, Key.Valid, Instance.Sum, Instance.Term;
    MaskedSum(inst, w, y, i, m, p);
    newSum, newCache := ShiftBoth(k, sum, cache, target, mask, p, inst.Sum(w, y), inst.Term(w, i, y[i]), inst.Term(w, i, m));
  }

  lemma TermsInRange(domain: NumericDomain, inst: Instance, i: nat, m: int, m': int)
    requires Matches(domain, inst.threshold, inst) && inst.Has(i, m) && inst.Has(i, m')
    ensures InRange(inst.Term(TOTAL, i, m) - inst.Term(TOTAL, i, m'))
    ensures InRange(inst.Term(inst.Linear(), i, m) - inst.Term(inst.Linear(), i, m'))
    ensures InRange(inst.Term(C12, i, m) - inst.Term(C12, i, m'))
    ensures InRange(inst.Term(C3, i, m) - inst.Term(C3, i, m'))
  {
    SafeBasics(domain, inst);
    SafeTerms(domain, inst, TOTAL, i, m, m');
    SafeTerms(domain, inst, inst.Linear(), i, m, m');
    SafeTerms(domain, inst, C12, i, m, m');
    SafeTerms(domain, inst, C3, i, m, m');
  }

  lemma PlainTerms(inst: Instance, i: int, m: int)
    requires inst.Has(i, m)
    ensures inst.Term(TOTAL, i, m) == inst.Cost(i, m)
    ensures inst.Term(C12, i, m) == (if m < 3 then inst.Cost(i, m) else 0)
    ensures inst.Term(C3, i, m) == (if m < 3 then 0 else inst.Cost(i, m))
  {
  }

  /** Whether the encrypted number is this one. */
  method IsNumber(k: Key, number: Ciphertext, id: nat, ghost n: nat) returns (eq: Ciphertext)
    requires k.Valid() && k.Holds(number, n) && InRange(n) && InRange(id)
    ensures HoldsBit(k, eq, n == id)
  {
    hide Key.Holds, Key.Valid;
    var constant := EncryptConstant(k, id);
    var above := GreaterThan(k, number, constant, n, id);
    var below := GreaterThan(k, constant, number, id, n);
    var differs := BitOrExclusive(k, above, below, n > id, id > n);
    eq := BitNot(k, differs, n > id || id > n);
  }

  /** The second scan: every move, under the mask of its number. */
  method ApplyNumber(k: Key, domain: NumericDomain, threshold: int, costs: seq<CostRow>, v: EncryptedIndividual,
      number: Ciphertext, apply: Ciphertext, ghost n: nat, ghost applies: bool, ghost inst: Instance, ghost x: Assignment)
    returns (r: EncryptedIndividual)
    requires Setup(k, domain, threshold, costs, inst) && inst.Complete(x) && Carries(k, inst, v, x)
    requires k.Holds(number, n) && n <= 3 * |x| && HoldsBit(k, apply, applies)
    ensures Carries(k, inst, r, if applies && Offers(inst, n) then Moved(inst, x, n) else x)
  {
    hide Key.Holds, Key.Valid, Matches, Carries, Partway;
    r := v;
    assert Partway(inst, x, applies, n, 0) == x by {
      PartwayEnds(inst, x, applies, n);
    }
    for i := 0 to |costs|
      invariant Carries(k, inst, r, Partway(inst, x, applies, n, 3 * i))
    {
      for j := 0 to 3
        invariant Carries(k, inst, r, Partway(inst, x, applies, n, 3 * i + j))
      {
        r := ApplyMasked(k, domain, threshold, costs, r, number, apply, i, j, n, applies, inst, x);
      }
    }
    PartwayEnds(inst, x, applies, n);
  }

  lemma PartwayEnds(inst: Instance, x: Assignment, applies: bool, n: nat)
    requires inst.Complete(x)
    ensures Partway(inst, x, applies, n, 0) == x
    ensures Partway(inst, x, applies, n, 3 * |x|) == if applies && Offers(inst, n) then Moved(inst, x, n) else x
  {
  }

  method ApplyMasked(k: Key, domain: NumericDomain, threshold: int, costs: seq<CostRow>, v: EncryptedIndividual,
      number: Ciphertext, apply: Ciphertext, i: nat, j: nat, ghost n: nat, ghost applies: bool,
      ghost inst: Instance, ghost x: Assignment)
    returns (r: EncryptedIndividual)
    requires Setup(k, domain, threshold, costs, inst) && inst.Complete(x) && i < |costs| && j < 3
    requires Carries(k, inst, v, Partway(inst, x, applies, n, 3 * i + j))
    requires k.Holds(number, n) && n <= 3 * |x| && HoldsBit(k, apply, applies)
    ensures Carries(k, inst, r, Partway(inst, x, applies, n, 3 * i + j + 1))
  {
    ghost var id := 3 * i + j;
    assert RowHolds(k, costs[i], inst.rows[i]) && HoldsOption(k, costs[i][j], inst.rows[i][j]);
    assert RowOf(id) == i && MethodOf(id) == j + 1;
    MatchesScale(domain, threshold, inst);
    NumbersInRange(domain, inst, n);
    NumbersInRange(domain, inst, id);
    hide Key.Holds, Key.Valid, Matches, Carries, Partway, CostsHold;
    PartwayStep(inst, x, applies, n, id);
    r := v;
    if costs[i][j].Some? {
      var eq := IsNumber(k, number, 3 * i + j, n);
      var mask := SecureMul(k, apply, eq, BitValue(applies), BitValue(n == id));
      r := ApplyMove(k, domain, threshold, costs[i][j].value, v, mask, i, j, applies && n == id, inst,
                     Partway(inst, x, applies, n, id));
    }
  }

  // ---------------------------------------------------------------- evaluation

  /** What the first j methods of a row contribute under its one-hot genes. */
  ghost function PartTerm(inst: Instance, w: Weight, i: nat, m: int, j: nat): int
    requires inst.Has(i, m)
  {
    if m <= j then inst.Term(w, i, m) else 0
  }

  /** A gene times a cost, and the contribution made of it: the terms when the gene is set, else nothing. */
  lemma ChosenTerms(inst: Instance, i: nat, m: int, j: nat)
    requires inst.Has(i, m) && j < 3 && inst.Has(i, j + 1)
    ensures BitValue(m == j + 1) * inst.Cost(i, j + 1) == ChosenTerm(inst, TOTAL, i, m, j)
    ensures ChosenTerm(inst, TOTAL, i, m, j) * (if j < 2 then inst.scale - inst.threshold else -inst.threshold)
         == ChosenTerm(inst, inst.Linear(), i, m, j)
    ensures ChosenTerm(inst, C12, i, m, j) == if j < 2 then ChosenTerm(inst, TOTAL, i, m, j) else 0
    ensures ChosenTerm(inst, C3, i, m, j) == if j < 2 then 0 else ChosenTerm(inst, TOTAL, i, m, j)
  {
    PlainTerms(inst, i, j + 1);
    ContributionTerm(inst, i, j + 1);
  }

  ghost function ChosenTerm(inst: Instance, w: Weight, i: nat, m: int, j: nat): int
    requires inst.Has(i, m)
  {
    if m == j + 1 then inst.Term(w, i, m) else 0
  }

  /** One row's aggregates, as products of genes and costs. */
  method EvaluateRow(k: Key, domain: NumericDomain, threshold: int, row: CostRow, genes: seq<Ciphertext>,
      ghost inst: Instance, ghost i: nat, ghost m: int)
    returns (cost: Ciphertext, linear: Ciphertext, c12: Ciphertext, c3: Ciphertext)
    requires k.Valid() && Matches(domain, threshold, inst) && inst.Has(i, m) && RowHolds(k, row, inst.rows[i])
    requires |genes| == 3 && forall j :: 0 <= j < 3 ==> k.Holds(genes[j], BitValue(m == j + 1))
    ensures k.Holds(cost, inst.Term(TOTAL, i, m)) && k.Holds(linear, inst.Term(inst.Linear(), i, m))
    ensures k.Holds(c12, inst.Term(C12, i, m)) && k.Holds(c3, inst.Term(C3, i, m))
  {
    hide Key.Holds, Key.Valid, Matches, Instance.Term;
    var zero := EncryptConstant(k, 0);
    cost, linear, c12, c3 := zero, zero, zero, zero;
    MatchesScale(domain, threshold, inst);
    for j := 0 to 3
      invariant k.Holds(cost, PartTerm(inst, TOTAL, i, m, j))
      invariant k.Holds(linear, PartTerm(inst, inst.Linear(), i, m, j))
      invariant k.Holds(c12, PartTerm(inst, C12, i, m, j)) && k.Holds(c3, PartTerm(inst, C3, i, m, j))
    {
      assert HoldsOption(k, row[j], inst.rows[i][j]);
      if row[j].Some? {
        CostInRange(domain, inst, i, j + 1);
        ChosenTerms(inst, i, m, j);
        ghost var c, l := ChosenTerm(inst, TOTAL, i, m, j), ChosenTerm(inst, inst.Linear(), i, m, j);
        var chosen := SecureMul(k, genes[j], row[j].value, BitValue(m == j + 1), inst.Cost(i, j + 1));
        cost := Add(k, cost, chosen, PartTerm(inst, TOTAL, i, m, j), c);
        if j < 2 {
          c12 := Add(k, c12, chosen, PartTerm(inst, C12, i, m, j), c);
        } else {
          c3 := Add(k, c3, chosen, PartTerm(inst, C3, i, m, j), c);
        }
        var contribution := ScalarMul(k, chosen, if j < 2 then domain.scale - threshold else -threshold, c);
        linear := Add(k, linear, contribution, PartTerm(inst, inst.Linear(), i, m, j), l);
      }
    }
  }

  lemma CostInRange(domain: NumericDomain, inst: Instance, i: nat, m: int)
    requires Matches(domain, inst.threshold, inst) && inst.Has(i, m)
    ensures InRange(inst.Cost(i, m)) && InRange(0) && InRange(1)
  {
    SafeBasics(domain, inst);
    SafeTerms(domain, inst, TOTAL, i, m, m);
    PlainTerms(inst, i, m);
  }

  lemma NoRows(inst: Instance)
    ensures inst.Partial([]) && inst.Sum(TOTAL, []) == inst.Sum(C12, []) == inst.Sum(C3, []) == 0
    ensures inst.Sum(inst.Linear(), []) == 0
  {
  }

  lemma SumNext(inst: Instance, x: Assignment, i: nat)
    requires inst.Complete(x) && i < |x|
    ensures inst.Partial(x[..i]) && inst.Partial(x[..i + 1])
    ensures inst.Sum(TOTAL, x[..i + 1]) == inst.Sum(TOTAL, x[..i]) + inst.Term(TOTAL, i, x[i])
    ensures inst.Sum(C12, x[..i + 1]) == inst.Sum(C12, x[..i]) + inst.Term(C12, i, x[i])
    ensures inst.Sum(C3, x[..i + 1]) == inst.Sum(C3, x[..i]) + inst.Term(C3, i, x[i])
    ensures inst.Sum(inst.Linear(), x[..i + 1]) == inst.Sum(inst.Linear(), x[..i]) + inst.Term(inst.Linear(), i, x[i])
  {
    assert x[..i + 1][..i] == x[..i];
  }

  /** evaluate: from one-hot genes to the individual with all its caches. */
  method Evaluate(k: Key, domain: NumericDomain, threshold: int, costs: seq<CostRow>, genes: seq<seq<Ciphertext>>,
      ghost inst: Instance, ghost x: Assignment)
    returns (r: EncryptedIndividual)
    requires Setup(k, domain, threshold, costs, inst) && inst.Complete(x) && |genes| == |x|
    requires forall i :: 0 <= i < |x| ==>
      |genes[i]| == 3 && forall j :: 0 <= j < 3 ==> k.Holds(genes[i][j], BitValue(x[i] == j + 1))
    ensures Carries(k, inst, r, x)
  {
    hide Key.Holds, Key.Valid, Matches, RowHolds, Instance.Term, AdmitsRepair, BitValue, Instance.Sum;
    NoRows(inst);
    var zero := EncryptConstant(k, 0);
    r := EncryptedIndividual(genes, [], [], [], [], zero, zero, zero, zero);
    for i := 0 to |costs|
      invariant r.genes == genes && |r.rowCost| == |r.rowLinear| == |r.rowC12| == |r.rowC3| == i
      invariant forall l :: 0 <= l < i ==>
        && k.Holds(r.rowCost[l], inst.Term(TOTAL, l, x[l])) && k.Holds(r.rowC12[l], inst.Term(C12, l, x[l]))
        && k.Holds(r.rowLinear[l], inst.Term(inst.Linear(), l, x[l])) && k.Holds(r.rowC3[l], inst.Term(C3, l, x[l]))
      invariant k.Holds(r.total, inst.Sum(TOTAL, x[..i])) && k.Holds(r.c12, inst.Sum(C12, x[..i]))
      invariant k.Holds(r.c3, inst.Sum(C3, x[..i])) && k.Holds(r.linear, inst.Sum(inst.Linear(), x[..i]))
    {
      var cost, linear, c12, c3 := EvaluateRow(k, domain, threshold, costs[i], genes[i], inst, i, x[i]);
      SumNext(inst, x, i);
      var total := Add(k, r.total, cost, inst.Sum(TOTAL, x[..i]), inst.Term(TOTAL, i, x[i]));
      var sum12 := Add(k, r.c12, c12, inst.Sum(C12, x[..i]), inst.Term(C12, i, x[i]));
      var sum3 := Add(k, r.c3, c3, inst.Sum(C3, x[..i]), inst.Term(C3, i, x[i]));
      var margin := Add(k, r.linear, linear, inst.Sum(inst.Linear(), x[..i]), inst.Term(inst.Linear(), i, x[i]));
      r := EncryptedIndividual(genes, r.rowCost + [cost], r.rowLinear + [linear], r.rowC12 + [c12], r.rowC3 + [c3],
                               total, sum12, sum3, margin);
    }
    assert x[..|x|] == x;
  }

  // ---------------------------------------------------------------- the repair

  /**
   repair: after any number of rounds the individual carries what the plain rounds leave, with one-hot
   genes and exact caches. With positive method-3 costs that is the plain repair stopped after as many
   moves, and the plain repair itself for the default number of rounds.
   */
  method Repair(k: Key, domain: NumericDomain, threshold: int, costs: seq<CostRow>, v: EncryptedIndividual,
      repairRounds: nat, ghost inst: Instance, ghost x: Assignment)
    returns (r: EncryptedIndividual)
    requires Setup(k, domain, threshold, costs, inst) && Carries(k, inst, v, x)
    ensures inst.Complete(x) && Carries(k, inst, r, Rounds(inst, x, if repairRounds == 0 then 3 * |x| else repairRounds))
    ensures PositiveThirds(inst) ==>
      Carries(k, inst, r, RepairedFor(inst, x, if repairRounds == 0 then 3 * |x| else repairRounds))
    ensures PositiveThirds(inst) && (repairRounds == 0 || RepairMoves(inst, x) <= repairRounds) ==>
      Carries(k, inst, r, Repaired(inst, x))
  {
    hide Key.Holds, Key.Valid, Matches, Carries, RoundMove, RoundApplies, Setup, RepairedFor, RepairMoves, Repaired;
    assert inst.Complete(x) && |x| == |costs| by {
      CarriesComplete(k, domain, threshold, costs, v, inst, x);
    }
    var rounds := if repairRounds == 0 then 3 * |costs| else repairRounds;
    r := v;
    ghost var y := x;
    for round := 0 to rounds
      invariant inst.Complete(y) && Carries(k, inst, r, y) && Rounds(inst, y, rounds - round) == Rounds(inst, x, rounds)
    {
      var number, apply := ChooseMove(k, domain, threshold, costs, r, inst, y);
      r := ApplyOnce(k, domain, threshold, costs, r, number, apply, inst, y);
      y := Round(inst, y);
    }
    if PositiveThirds(inst) {
      RoundsRepair(inst, x, rounds);
    }
  }

  method ApplyOnce(k: Key, domain: NumericDomain, threshold: int, costs: seq<CostRow>, v: EncryptedIndividual,
      number: Ciphertext, apply: Ciphertext, ghost inst: Instance, ghost x: Assignment)
    returns (r: EncryptedIndividual)
    requires Setup(k, domain, threshold, costs, inst) && inst.Complete(x) && Carries(k, inst, v, x)
    requires k.Holds(number, RoundMove(inst, x)) && HoldsBit(k, apply, RoundApplies(inst, x))
    ensures Carries(k, inst, r, Round(inst, x))
  {
    RoundMoveBelow(inst, x);
    r := ApplyNumber(k, domain, threshold, costs, v, number, apply, RoundMove(inst, x), RoundApplies(inst, x), inst, x);
  }

  lemma CarriesComplete(k: Key, domain: NumericDomain, threshold: int, costs: seq<CostRow>, v: EncryptedIndividual,
      inst: Instance, x: Assignment)
    requires Setup(k, domain, threshold, costs, inst) && Carries(k, inst, v, x)
    ensures inst.Complete(x) && |x| == |costs|
  {
  }

  lemma RoundMoveBelow(inst: Instance, x: Assignment)
    requires inst.Complete(x)
    ensures RoundMove(inst, x) <= 3 * |x|
  {
  }
}
