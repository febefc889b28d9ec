/**
 The cover problem behind the structured exact solver. Every row keeps the cheaper of methods 1 and
 2; the cheapest choice is the base; rows where method 3 is cheaper may be upgraded, which raises the
 linear margin by a gain at an extra cost; rows where it is not may provide method-3 cost.

 Cover is the exhaustive search over the upgrades in row order. The solver refines it, and the
 lemmas here say what its answer means for the assignments of the instance.
 */
module CoverModels {
  import opened Wrappers
  import opened NumberTheory
  import opened CostModel

  /** Which of the first decision rows are upgraded. */
  type Bits = seq<bool>

  datatype Decision = Decision(row: nat, choice: int, extra: int, gain: int)

  datatype Dominated = Dominated(row: nat, extra: int, loss: int)

  /** A solution and its cost above the base. */
  datatype Candidate = Candidate(extra: int, choice: Assignment)

  datatype Multiplier = Multiplier(p: int, q: int)

  const GRID: seq<Multiplier> := [
    Multiplier(0, 1), Multiplier(1, 64), Multiplier(1, 32), Multiplier(1, 16), Multiplier(1, 8),
    Multiplier(3, 16), Multiplier(1, 4), Multiplier(3, 8), Multiplier(1, 2), Multiplier(3, 4),
    Multiplier(1, 1), Multiplier(5, 4), Multiplier(3, 2), Multiplier(2, 1), Multiplier(3, 1)
  ]

  lemma GridPositive(n: nat)
    requires n < |GRID|
    ensures 0 <= GRID[n].p && 0 < GRID[n].q
  {
  }

  // ---------------------------------------------------------------- the compressed rows

  /** Row i has method 1 or 2. */
  predicate Early(inst: Instance, i: int) {
    inst.Has(i, 1) || inst.Has(i, 2)
  }

  /** The cheaper of methods 1 and 2; method 1 when they cost the same. */
  function Cheaper(inst: Instance, i: int): int {
    if inst.Has(i, 1) && (!inst.Has(i, 2) || inst.Cost(i, 1) <= inst.Cost(i, 2)) then 1 else 2
  }

  /** Method 3 is strictly cheaper, so the row starts there and may be upgraded. */
  predicate Upgradable(inst: Instance, i: int) {
    Early(inst, i) && inst.Has(i, 3) && inst.Cost(i, Cheaper(inst, i)) > inst.Cost(i, 3)
  }

  /** Method 3 is available but not cheaper. */
  predicate Provides(inst: Instance, i: int) {
    Early(inst, i) && inst.Has(i, 3) && inst.Cost(i, Cheaper(inst, i)) <= inst.Cost(i, 3)
  }

  function BaseMethod(inst: Instance, i: int): int {
    if Early(inst, i) && !Upgradable(inst, i) then Cheaper(inst, i) else 3
  }

  /** Assignments that never use the dearer of methods 1 and 2. */
  predicate Kept(inst: Instance, x: Assignment) {
    && inst.Complete(x)
    && forall i :: 0 <= i < |x| ==> x[i] == 3 || x[i] == Cheaper(inst, i)
  }

  ghost predicate KeptFeasible(inst: Instance, x: Assignment) {
    Kept(inst, x) && inst.Feasible(x)
  }

  /** The base with the upgrades that x makes in rows before i. */
  ghost function UpgradedBefore(inst: Instance, x: Assignment, i: int): Assignment {
    seq(|x|, j requires 0 <= j < |x| => if j < i && Upgradable(inst, j) then x[j] else BaseMethod(inst, j))
  }

  /** x upgrades a row only while its earlier upgrades do not reach the ratio. */
  ghost predicate Frugal(inst: Instance, x: Assignment)
    requires Kept(inst, x)
  {
    forall i :: 0 <= i < |x| && Upgradable(inst, i) && x[i] != 3 ==>
      && inst.Partial(UpgradedBefore(inst, x, i))
      && inst.Sum(inst.Linear(), UpgradedBefore(inst, x, i)) < 0
  }

  /** What the solver answers on every input: a cheapest frugal solution. */
  ghost predicate CheapestFrugal(inst: Instance, r: Option<Assignment>) {
    match r
    case None => forall x :: KeptFeasible(inst, x) ==> !Frugal(inst, x)
    case Some(s) =>
      && KeptFeasible(inst, s) && Frugal(inst, s)
      && forall x :: KeptFeasible(inst, x) && Frugal(inst, x) ==> inst.Sum(TOTAL, s) <= inst.Sum(TOTAL, x)
  }

  /** A cheapest solution of the compressed rows. */
  ghost predicate CheapestKept(inst: Instance, r: Option<Assignment>) {
    match r
    case None => forall x :: !KeptFeasible(inst, x)
    case Some(s) =>
      KeptFeasible(inst, s) && forall x :: KeptFeasible(inst, x) ==> inst.Sum(TOTAL, s) <= inst.Sum(TOTAL, x)
  }

  /** A cheapest solution of all. */
  ghost predicate Cheapest(inst: Instance, r: Option<Assignment>) {
    match r
    case None => forall x :: !inst.Feasible(x)
    case Some(s) => inst.Feasible(s) && forall x :: inst.Feasible(x) ==> inst.Sum(TOTAL, s) <= inst.Sum(TOTAL, x)
  }

  /** Frugality loses nothing on this instance. */
  ghost predicate FrugalSuffices(inst: Instance) {
    forall x :: KeptFeasible(inst, x) ==>
      exists y :: KeptFeasible(inst, y) && Frugal(inst, y) && inst.Sum(TOTAL, y) <= inst.Sum(TOTAL, x)
  }

  /** Method 3 has a positive cost in every row that may be upgraded, or in some row that has nothing else. */
  ghost predicate PositivePrices(inst: Instance) {
    || (forall i :: Upgradable(inst, i) ==> inst.Cost(i, 3) > 0)
    || (exists i :: !Early(inst, i) && inst.Has(i, 3) && inst.Cost(i, 3) > 0)
  }

  predicate EqualPrices(inst: Instance) {
    forall i :: 0 <= i < |inst.rows| && inst.Has(i, 1) && inst.Has(i, 2) ==> inst.Cost(i, 1) == inst.Cost(i, 2)
  }

  // ---------------------------------------------------------------- method-3 cost

  /** How many rows run method 3 at a positive cost. */
  function PositiveM3(inst: Instance, s: Assignment): nat
    requires inst.Partial(s)
  {
    if s == [] then 0 else
      var d := |s| - 1;
      PositiveM3(inst, s[..d]) + if s[d] == 3 && inst.Cost(d, 3) > 0 then 1 else 0
  }

  lemma {:induction false} PositiveM3Update(inst: Instance, s: Assignment, i: nat, m: int)
    requires inst.Partial(s) && i < |s| && inst.Has(i, m)
    ensures inst.Partial(s[i := m])
    ensures PositiveM3(inst, s[i := m]) == PositiveM3(inst, s)
      - (if s[i] == 3 && inst.Cost(i, 3) > 0 then 1 else 0) + (if m == 3 && inst.Cost(i, 3) > 0 then 1 else 0)
  {
    var d := |s| - 1;
    if i < d {
      PositiveM3Update(inst, s[..d], i, m);
      assert s[i := m][..d] == s[..d][i := m];
    } else {
      assert s[i := m][..d] == s[..d];
    }
  }

  lemma {:induction false} PositiveM3Means(inst: Instance, s: Assignment)
    requires inst.Partial(s)
    ensures PositiveM3(inst, s) > 0 <==> exists i :: 0 <= i < |s| && s[i] == 3 && inst.Cost(i, 3) > 0
    ensures PositiveM3(inst, s) > 0 <==> inst.Sum(C3, s) > 0
  {
    if s != [] {
      var d := |s| - 1;
      PositiveM3Means(inst, s[..d]);
      inst.SumParts(s[..d]);
      if PositiveM3(inst, s[..d]) > 0 {
        var i :| 0 <= i < d && s[..d][i] == 3 && inst.Cost(i, 3) > 0;
        assert s[i] == 3;
      }
      if i :| 0 <= i < d && s[i] == 3 && inst.Cost(i, 3) > 0 {
        assert s[..d][i] == 3;
      }
    }
  }

  // ---------------------------------------------------------------- the plan

  datatype Plan = Plan(inst: Instance, base: Assignment, decisions: seq<Decision>, dominated: seq<Dominated>,
                       g0: int, required: int) {

    predicate DecisionOk(d: Decision) {
      && Upgradable(inst, d.row) && d.choice == Cheaper(inst, d.row)
      && d.extra == inst.Cost(d.row, d.choice) - inst.Cost(d.row, 3)
      && d.gain == (inst.scale - inst.threshold) * inst.Cost(d.row, d.choice) + inst.threshold * inst.Cost(d.row, 3)
    }

    predicate DominatedOk(d: Dominated) {
      && Provides(inst, d.row)
      && d.extra == inst.Cost(d.row, 3) - inst.Cost(d.row, Cheaper(inst, d.row))
      && d.loss == (inst.scale - inst.threshold) * inst.Cost(d.row, Cheaper(inst, d.row))
                   + inst.threshold * inst.Cost(d.row, 3)
    }

    /** The decisions are those of the first n rows, in order. */
    ghost predicate DecisionsOf(n: int) {
      && (forall k :: 0 <= k < |decisions| ==> decisions[k].row < n && DecisionOk(decisions[k]))
      && (forall j, k :: 0 <= j < k < |decisions| ==> decisions[j].row < decisions[k].row)
      && (forall i :: 0 <= i < n && Upgradable(inst, i) ==> exists k :: 0 <= k < |decisions| && decisions[k].row == i)
    }

    ghost predicate DominatedOf(n: int) {
      && (forall k :: 0 <= k < |dominated| ==> dominated[k].row < n && DominatedOk(dominated[k]))
      && (forall j, k :: 0 <= j < k < |dominated| ==> dominated[j].row < dominated[k].row)
      && (forall i :: 0 <= i < n && Provides(inst, i) ==> exists k :: 0 <= k < |dominated| && dominated[k].row == i)
    }

    /** The first n rows are sorted into fixed, decision and dominated rows. */
    ghost predicate Sorted(n: int) {
      && |base| == n <= |inst.rows| && (forall i :: 0 <= i < n ==> base[i] == BaseMethod(inst, i))
      && DecisionsOf(n) && DominatedOf(n)
    }

    ghost predicate Valid() {
      && inst.Valid() && Sorted(|inst.rows|) && inst.Complete(base)
      && g0 == inst.Sum(inst.Linear(), base) && required == if g0 < 0 then -g0 else 0
    }

    // -------------------------------------------------------------- sorting the rows

    /** What method 3 and the cheaper early method of a row differ by in the margin. */
    function Swing(i: int): int
      requires Early(inst, i) && inst.Has(i, 3)
    {
      (inst.scale - inst.threshold) * inst.Cost(i, Cheaper(inst, i)) + inst.threshold * inst.Cost(i, 3)
    }

    /** One more row: a decision, a dominated row, or a fixed one. */
    function AddRow(i: nat): Plan {
      if Upgradable(inst, i) then
        var extra := inst.Cost(i, Cheaper(inst, i)) - inst.Cost(i, 3);
        this.(base := base + [3], decisions := decisions + [Decision(i, Cheaper(inst, i), extra, Swing(i))])
      else if Provides(inst, i) then
        var extra := inst.Cost(i, 3) - inst.Cost(i, Cheaper(inst, i));
        this.(base := base + [Cheaper(inst, i)], dominated := dominated + [Dominated(i, extra, Swing(i))])
      else this.(base := base + [BaseMethod(inst, i)])
    }

    lemma AddRowSorted(i: nat)
      requires i < |inst.rows| && Sorted(i)
      ensures AddRow(i).inst == inst && AddRow(i).Sorted(i + 1)
    {
      hide DecisionsOf, DominatedOf;
      AddRowDecisions(i);
      AddRowDominated(i);
    }

    /** What a row adds to the two lists. */
    lemma AddRowLists(i: nat)
      ensures var next := AddRow(i);
        && next.inst == inst
        && (if Upgradable(inst, i)
            then exists d :: next.decisions == decisions + [d] && d.row == i && DecisionOk(d)
            else next.decisions == decisions)
        && (if Provides(inst, i)
            then exists d :: next.dominated == dominated + [d] && d.row == i && DominatedOk(d)
            else next.dominated == dominated)
    {
    }

    lemma AddRowDecisions(i: nat)
      requires DecisionsOf(i)
      ensures AddRow(i).DecisionsOf(i + 1)
    {
      hide AddRow, DecisionOk, Upgradable;
      var next := AddRow(i);
      AddRowLists(i);
      SameRows(next);
      forall r | 0 <= r < i + 1 && Upgradable(inst, r)
        ensures exists k :: 0 <= k < |next.decisions| && next.decisions[k].row == r
      {
        if r < i {
          var k :| 0 <= k < |decisions| && decisions[k].row == r;
          assert next.decisions[k].row == r;
        } else {
          assert next.decisions[|decisions|].row == r;
        }
      }
    }

    lemma AddRowDominated(i: nat)
      requires DominatedOf(i)
      ensures AddRow(i).DominatedOf(i + 1)
    {
      hide AddRow, DominatedOk, Provides;
      var next := AddRow(i);
      AddRowLists(i);
      SameRows(next);
      forall r | 0 <= r < i + 1 && Provides(inst, r)
        ensures exists k :: 0 <= k < |next.dominated| && next.dominated[k].row == r
      {
        if r < i {
          var k :| 0 <= k < |dominated| && dominated[k].row == r;
          assert next.dominated[k].row == r;
        } else {
          assert next.dominated[|dominated|].row == r;
        }
      }
    }

    /** Decisions and dominated rows depend on the instance only. */
    lemma SameRows(other: Plan)
      requires other.inst == inst
      ensures forall d :: other.DecisionOk(d) == DecisionOk(d)
      ensures forall d :: other.DominatedOk(d) == DominatedOk(d)
    {
    }

    // -------------------------------------------------------------- upgrades

    function Gain(bits: Bits): int
      requires |bits| <= |decisions|
    {
      if bits == [] then 0 else
        var d := |bits| - 1;
        Gain(bits[..d]) + if bits[d] then decisions[d].gain else 0
    }

    function Extra(bits: Bits): int
      requires |bits| <= |decisions|
    {
      if bits == [] then 0 else
        var d := |bits| - 1;
        Extra(bits[..d]) + if bits[d] then decisions[d].extra else 0
    }

    function Covers(bits: Bits): bool
      requires |bits| <= |decisions|
    {
      Gain(bits) >= required
    }

    /** The base with the chosen rows upgraded. */
    function Apply(bits: Bits): (s: Assignment)
      requires |bits| <= |decisions| && forall k :: 0 <= k < |decisions| ==> decisions[k].row < |base|
      ensures |s| == |base|
    {
      if bits == [] then base else
        var d := |bits| - 1;
        if bits[d] then Apply(bits[..d])[decisions[d].row := decisions[d].choice] else Apply(bits[..d])
    }

    /** Which row runs which method after upgrading. */
    lemma {:induction false} ApplyAt(bits: Bits, i: nat)
      requires Valid() && |bits| <= |decisions| && i < |base|
      ensures forall k :: 0 <= k < |decisions| && decisions[k].row == i ==>
        Apply(bits)[i] == if k < |bits| && bits[k] then decisions[k].choice else 3
      ensures !Upgradable(inst, i) ==> Apply(bits)[i] == base[i]
    {
      if bits != [] {
        ApplyAt(bits[..|bits| - 1], i);
      }
    }

    lemma ApplyKept(bits: Bits)
      requires Valid() && |bits| <= |decisions|
      ensures Kept(inst, Apply(bits))
    {
      forall i | 0 <= i < |base|
        ensures inst.Has(i, Apply(bits)[i]) && (Apply(bits)[i] == 3 || Apply(bits)[i] == Cheaper(inst, i))
      {
        ApplyAt(bits, i);
      }
    }

    lemma DecisionTerms(d: Decision)
      requires inst.Valid() && DecisionOk(d)
      ensures inst.Term(inst.Linear(), d.row, d.choice) - inst.Term(inst.Linear(), d.row, 3) == d.gain
      ensures inst.Term(TOTAL, d.row, d.choice) - inst.Term(TOTAL, d.row, 3) == d.extra
      ensures 0 <= d.gain && 0 < d.extra
    {
      NegateProduct(inst.threshold, inst.Cost(d.row, 3));
      MulNonNeg(inst.scale - inst.threshold, inst.Cost(d.row, d.choice));
      MulNonNeg(inst.threshold, inst.Cost(d.row, 3));
    }

    lemma DecisionSigns(k: nat)
      requires Valid() && k < |decisions|
      ensures 0 <= decisions[k].gain && 0 < decisions[k].extra
    {
      DecisionTerms(decisions[k]);
    }

    lemma DominatedTerms(d: Dominated)
      requires inst.Valid() && DominatedOk(d)
      ensures var m := Cheaper(inst, d.row);
        && inst.Term(inst.Linear(), d.row, m) - inst.Term(inst.Linear(), d.row, 3) == d.loss
        && inst.Term(TOTAL, d.row, 3) - inst.Term(TOTAL, d.row, m) == d.extra
      ensures 0 <= d.loss && 0 <= d.extra
    {
      NegateProduct(inst.threshold, inst.Cost(d.row, 3));
      MulNonNeg(inst.scale - inst.threshold, inst.Cost(d.row, Cheaper(inst, d.row)));
      MulNonNeg(inst.threshold, inst.Cost(d.row, 3));
    }

    /** Gains and extra costs are exactly what the upgrades add. */
    lemma {:induction false} ApplySums(bits: Bits)
      requires Valid() && |bits| <= |decisions|
      ensures inst.Complete(Apply(bits))
      ensures inst.Sum(inst.Linear(), Apply(bits)) == g0 + Gain(bits)
      ensures inst.Sum(TOTAL, Apply(bits)) == inst.Sum(TOTAL, base) + Extra(bits)
    {
      ApplyKept(bits);
      if bits != [] {
        var k := |bits| - 1;
        var s, d := Apply(bits[..k]), decisions[k];
        ApplySums(bits[..k]);
        ApplyAt(bits[..k], d.row);
        if bits[k] {
          inst.SumUpdate(inst.Linear(), s, d.row, d.choice);
          inst.SumUpdate(TOTAL, s, d.row, d.choice);
          DecisionTerms(d);
        }
      }
    }

    // -------------------------------------------------------------- candidates

    /** A dominated row that can supply method-3 cost without breaking the ratio. */
    predicate Qualifies(d: Dominated, gain: int) {
      inst.Has(d.row, 3) && inst.Cost(d.row, 3) > 0 && g0 + gain - d.loss >= 0
    }

    /** The cheapest qualifying row among the first n dominated ones; the first of equals. */
    function Provider(gain: int, n: nat): (r: Option<nat>)
      requires n <= |dominated|
      ensures r.Some? ==> r.value < n && Qualifies(dominated[r.value], gain)
      ensures forall k :: 0 <= k < n && Qualifies(dominated[k], gain) ==>
        r.Some? && dominated[r.value].extra <= dominated[k].extra
    {
      if n == 0 then None else
        var r := Provider(gain, n - 1);
        if Qualifies(dominated[n - 1], gain) && (r.None? || dominated[n - 1].extra < dominated[r.value].extra)
        then Some(n - 1) else r
    }

    /** What a cover contributes: itself, or with the cheapest provider when no method-3 cost is left. */
    ghost function Offer(bits: Bits): (r: Option<Candidate>)
      requires Valid() && |bits| <= |decisions|
      ensures r.Some? ==> r.value.extra >= Extra(bits)
    {
      ApplyKept(bits);
      if PositiveM3(inst, Apply(bits)) > 0 then Some(Candidate(Extra(bits), Apply(bits)))
      else match Provider(Gain(bits), |dominated|)
        case None => None
        case Some(k) =>
          Some(Candidate(Extra(bits) + dominated[k].extra, Apply(bits)[dominated[k].row := 3]))
    }

    /** The candidate is kept when it is the first or strictly cheaper than the last one kept. */
    ghost function Keep(history: seq<Candidate>, offer: Option<Candidate>): seq<Candidate> {
      if offer.Some? && (history == [] || offer.value.extra < history[|history| - 1].extra)
      then history + [offer.value] else history
    }

    /**
     The candidates kept by the search below bits, in order: each upgrade is tried before its absence,
     and a cover is not extended. Nothing else is cut.
     */
    ghost function Cover(bits: Bits, history: seq<Candidate>): (r: seq<Candidate>)
      requires Valid() && |bits| <= |decisions|
      decreases |decisions| - |bits|
    {
      if Covers(bits) then Keep(history, Offer(bits))
      else if |bits| == |decisions| then history
      else Cover(bits + [false], Cover(bits + [true], history))
    }

    // -------------------------------------------------------------- bounds

    function SuffixGain(k: nat): int
      requires k <= |decisions|
      decreases |decisions| - k
    {
      if k == |decisions| then 0 else SuffixGain(k + 1) + decisions[k].gain
    }

    /** q * scale * extra - p * gain. */
    function Reduced(m: Multiplier, k: nat): int
      requires k < |decisions|
    {
      decisions[k].extra * m.q * inst.scale - m.p * decisions[k].gain
    }

    function SuffixReduced(m: Multiplier, k: nat): int
      requires k <= |decisions|
      decreases |decisions| - k
    {
      if k == |decisions| then 0 else SuffixReduced(m, k + 1) + MinOf(0, Reduced(m, k))
    }

    /** The largest floored bound of the first n multipliers, and 0. */
    function Bound(k: nat, residual: int, n: nat): int
      requires k <= |decisions| && n <= |GRID| && 0 < inst.scale
    {
      if n == 0 then 0 else
        GridPositive(n - 1);
        MulStrict(0, GRID[n - 1].q, inst.scale);
        MaxOf(Bound(k, residual, n - 1),
            (GRID[n - 1].p * residual + SuffixReduced(GRID[n - 1], k)) / (GRID[n - 1].q * inst.scale))
    }

    /** Extending a choice adds gain, at most the remaining gain, and cost. */
    lemma {:induction false} Extending(bits: Bits, c: Bits)
      requires Valid() && bits <= c && |c| <= |decisions|
      ensures Gain(bits) <= Gain(c) && Gain(c) + SuffixGain(|c|) <= Gain(bits) + SuffixGain(|bits|)
      ensures 0 <= SuffixGain(|c|) && Extra(bits) <= Extra(c)
      decreases |c|
    {
      hide Plan.Valid;
      SuffixGainNonNeg(|c|);
      if |bits| < |c| {
        var k := |c| - 1;
        Extending(bits, c[..k]);
        DecisionSigns(k);
        assert SuffixGain(k) == SuffixGain(|c|) + decisions[k].gain;
      } else {
        assert bits == c;
      }
    }

    lemma {:induction false} SuffixGainNonNeg(k: nat)
      requires Valid() && k <= |decisions|
      ensures 0 <= SuffixGain(k)
      decreases |decisions| - k
    {
      if k < |decisions| {
        SuffixGainNonNeg(k + 1);
        DecisionTerms(decisions[k]);
      }
    }

    /** The relaxed sums: reduced costs of the chosen rows are at least those of the suffix. */
    lemma {:induction false} ReducedBound(m: Multiplier, bits: Bits, c: Bits)
      requires bits <= c && |c| <= |decisions|
      ensures (Extra(c) - Extra(bits)) * m.q * inst.scale - m.p * (Gain(c) - Gain(bits))
              >= SuffixReduced(m, |bits|) - SuffixReduced(m, |c|)
      decreases |c|
    {
      if |bits| < |c| {
        var k := |c| - 1;
        ReducedBound(m, bits, c[..k]);
        assert SuffixReduced(m, k) == SuffixReduced(m, k + 1) + MinOf(0, Reduced(m, k));
        hide MinOf, SuffixReduced;
        if c[k] {
          SplitReduced(Extra(c[..k]) - Extra(bits), decisions[k].extra, Gain(c[..k]) - Gain(bits),
                       decisions[k].gain, m, inst.scale);
        }
      } else {
        assert bits == c;
      }
    }

    lemma {:induction false} SuffixReducedNonPos(m: Multiplier, k: nat)
      requires k <= |decisions|
      ensures SuffixReduced(m, k) <= 0
      decreases |decisions| - k
    {
      if k < |decisions| {
        SuffixReducedNonPos(m, k + 1);
      }
    }

    /** The floored rational bound never exceeds what covering the residual costs. */
    lemma {:induction false} BoundIsSafe(bits: Bits, c: Bits, n: nat)
      requires Valid() && bits <= c && |c| <= |decisions| && Covers(c) && n <= |GRID|
      ensures Extra(bits) + Bound(|bits|, required - Gain(bits), n) <= Extra(c)
    {
      hide Plan.Gain, Plan.Extra, Plan.SuffixReduced;
      Extending(bits, c);
      if n > 0 {
        BoundIsSafe(bits, c, n - 1);
        GridPositive(n - 1);
        var m := GRID[n - 1];
        ReducedBound(m, bits, c);
        SuffixReducedNonPos(m, |c|);
        OneBound(m.p, m.q, inst.scale, required - Gain(bits), Gain(c) - Gain(bits), Extra(c) - Extra(bits),
                 SuffixReduced(m, |bits|));
      }
    }

    // -------------------------------------------------------------- cutting loses nothing

    ghost predicate Cut(lagrangian: bool, bits: Bits, history: seq<Candidate>)
      requires Valid() && |bits| <= |decisions|
    {
      || Gain(bits) + SuffixGain(|bits|) < required
      || (history != [] &&
           var best := history[|history| - 1].extra;
           || Extra(bits) >= best
           || (lagrangian && Extra(bits) + Bound(|bits|, required - Gain(bits), |GRID|) >= best))
    }

    /** When every cover below costs too much, the search keeps nothing. */
    lemma {:induction false} NothingKept(bits: Bits, history: seq<Candidate>)
      requires Valid() && |bits| <= |decisions|
      requires forall c :: bits <= c && |c| <= |decisions| && Covers(c) ==>
        history != [] && Extra(c) >= history[|history| - 1].extra
      ensures Cover(bits, history) == history
      decreases |decisions| - |bits|
    {
      if !Covers(bits) && |bits| < |decisions| {
        NothingKept(bits + [true], history);
        NothingKept(bits + [false], history);
      }
    }

    lemma CutIsSafe(lagrangian: bool, bits: Bits, history: seq<Candidate>)
      requires Valid() && |bits| <= |decisions| && Cut(lagrangian, bits, history)
      ensures Cover(bits, history) == history
    {
      forall c | bits <= c && |c| <= |decisions| && Covers(c)
        ensures history != [] && Extra(c) >= history[|history| - 1].extra
      {
        Extending(bits, c);
        BoundIsSafe(bits, c, |GRID|);
      }
      NothingKept(bits, history);
    }

    /** The nodes that the solver visits without a node limit. */
    ghost function Nodes(lagrangian: bool, bits: Bits, history: seq<Candidate>): seq<Bits>
      requires Valid() && |bits| <= |decisions|
      decreases |decisions| - |bits|
    {
      if Covers(bits) || Cut(lagrangian, bits, history) || |bits| == |decisions| then [bits]
      else
        [bits] + Nodes(lagrangian, bits + [true], history)
        + Nodes(lagrangian, bits + [false], Cover(bits + [true], history))
    }

    /** The candidates kept on the first budget nodes of the search. */
    ghost function KeptWithin(lagrangian: bool, bits: Bits, history: seq<Candidate>, budget: nat): seq<Candidate>
      requires Valid() && |bits| <= |decisions|
      decreases |decisions| - |bits|
    {
      if budget == 0 then history
      else if Covers(bits) then Keep(history, Offer(bits))
      else if Cut(lagrangian, bits, history) || |bits| == |decisions| then history
      else
        var first := |Nodes(lagrangian, bits + [true], history)|;
        var kept := KeptWithin(lagrangian, bits + [true], history, budget - 1);
        if budget - 1 <= first then kept
        else KeptWithin(lagrangian, bits + [false], kept, budget - 1 - first)
    }

    /** On all its nodes the search keeps what the exhaustive search keeps. */
    lemma {:induction false} KeptWithinAll(lagrangian: bool, bits: Bits, history: seq<Candidate>, budget: nat)
      requires Valid() && |bits| <= |decisions| && |Nodes(lagrangian, bits, history)| <= budget
      ensures KeptWithin(lagrangian, bits, history, budget) == Cover(bits, history)
      decreases |decisions| - |bits|
    {
      hide Offer, Keep, Plan.Valid, Cut, Gain;
      if !Covers(bits) {
        if Cut(lagrangian, bits, history) {
          CutIsSafe(lagrangian, bits, history);
        } else if |bits| < |decisions| {
          var first := |Nodes(lagrangian, bits + [true], history)|;
          KeptWithinAll(lagrangian, bits + [true], history, budget - 1);
          NodesPositive(lagrangian, bits + [false], Cover(bits + [true], history));
          KeptWithinAll(lagrangian, bits + [false], Cover(bits + [true], history), budget - 1 - first);
        }
      }
    }

    lemma NodesPositive(lagrangian: bool, bits: Bits, history: seq<Candidate>)
      requires Valid() && |bits| <= |decisions|
      ensures 0 < |Nodes(lagrangian, bits, history)|
    {
    }

    /** How the nodes and the candidates of a node that branches are made up of those of its children. */
    lemma Branches(lagrangian: bool, bits: Bits, history: seq<Candidate>, budget: nat)
      requires Valid() && |bits| < |decisions| && !Covers(bits) && !Cut(lagrangian, bits, history) && 0 < budget
      ensures var left := Nodes(lagrangian, bits + [true], history);
        var right := Nodes(lagrangian, bits + [false], Cover(bits + [true], history));
        && Nodes(lagrangian, bits, history) == [bits] + left + right
        && (budget <= |left| ==>
              && Nodes(lagrangian, bits, history)[..budget] == [bits] + left[..budget - 1]
              && KeptWithin(lagrangian, bits, history, budget)
                 == KeptWithin(lagrangian, bits + [true], history, budget - 1))
        && (|left| < budget <= |left| + |right| ==>
              Nodes(lagrangian, bits, history)[..budget] == [bits] + left + right[..budget - 1 - |left|])
        && (|left| < budget ==>
              KeptWithin(lagrangian, bits, history, budget)
              == KeptWithin(lagrangian, bits + [false], Cover(bits + [true], history), budget - 1 - |left|))
    {
      hide Offer, Keep, Plan.Valid, Cut, Covers;
      var left := Nodes(lagrangian, bits + [true], history);
      if |left| < budget {
        KeptWithinAll(lagrangian, bits + [true], history, budget - 1);
      }
    }

    lemma BranchesWhole(lagrangian: bool, bits: Bits, history: seq<Candidate>)
      requires Valid() && |bits| < |decisions| && !Covers(bits) && !Cut(lagrangian, bits, history)
      ensures Cover(bits, history) == Cover(bits + [false], Cover(bits + [true], history))
      ensures Nodes(lagrangian, bits, history) == [bits] + Nodes(lagrangian, bits + [true], history)
        + Nodes(lagrangian, bits + [false], Cover(bits + [true], history))
    {
    }

    /** The Lagrangian bound only removes nodes. */
    lemma {:induction false} NodesShrink(bits: Bits, history: seq<Candidate>)
      requires Valid() && |bits| <= |decisions|
      ensures |Nodes(true, bits, history)| <= |Nodes(false, bits, history)|
      ensures forall b :: b in Nodes(true, bits, history) ==> b in Nodes(false, bits, history)
      decreases |decisions| - |bits|
    {
      if !Covers(bits) && !Cut(true, bits, history) && |bits| < |decisions| {
        NodesShrink(bits + [true], history);
        NodesShrink(bits + [false], Cover(bits + [true], history));
      }
    }

    // -------------------------------------------------------------- first covers

    /** No proper prefix covers. */
    ghost predicate Open(bits: Bits)
      requires |bits| <= |decisions|
    {
      forall j :: 0 <= j < |bits| ==> !Covers(bits[..j])
    }

    ghost predicate FirstCover(c: Bits) {
      |c| <= |decisions| && Covers(c) && Open(c)
    }

    ghost predicate Offered(candidate: Candidate)
      requires Valid()
    {
      exists c :: FirstCover(c) && Offer(c) == Some(candidate)
    }

    ghost predicate HistoryOk(history: seq<Candidate>)
      requires Valid()
    {
      history != [] ==> Offered(history[|history| - 1])
    }

    /** At least as good as the candidate, when there is one. */
    ghost predicate Reaches(history: seq<Candidate>, offer: Option<Candidate>) {
      offer.Some? ==> history != [] && history[|history| - 1].extra <= offer.value.extra
    }

    /** The search keeps a cheapest offer of all first covers below bits. */
    lemma {:induction false} CoverLeast(bits: Bits, history: seq<Candidate>)
      requires Valid() && |bits| <= |decisions| && Open(bits) && HistoryOk(history)
      ensures var r := Cover(bits, history);
        && HistoryOk(r)
        && (history != [] ==> Reaches(r, Some(history[|history| - 1])))
        && forall c :: bits <= c && FirstCover(c) ==> Reaches(r, Offer(c))
      decreases |decisions| - |bits|
    {
      hide Plan.Valid, Offer, Gain;
      if Covers(bits) {
        assert FirstCover(bits);
      } else if |bits| < |decisions| {
        OpenChild(bits, true);
        OpenChild(bits, false);
        CoverLeast(bits + [true], history);
        CoverLeast(bits + [false], Cover(bits + [true], history));
      }
      var r := Cover(bits, history);
      forall c | bits <= c && FirstCover(c)
        ensures Reaches(r, Offer(c))
      {
        if c != bits {
          assert c[..|bits|] == bits;
          assert !Covers(bits) && |bits| < |decisions|;
          var child := c[..|bits| + 1];
          assert child <= c && child == bits + [c[|bits|]];
          if c[|bits|] {
            assert child == bits + [true];
          } else {
            assert child == bits + [false];
          }
        }
      }
    }

    lemma OpenChild(bits: Bits, b: bool)
      requires |bits| < |decisions| && Open(bits) && !Covers(bits)
      ensures Open(bits + [b])
    {
      forall j | 0 <= j < |bits| + 1
        ensures !Covers((bits + [b])[..j])
      {
        assert (bits + [b])[..j] == bits[..j];
        assert bits[..|bits|] == bits;
      }
    }

    /** The two children of a node that neither covers nor is complete. */
    lemma Children(bits: Bits)
      requires Valid() && |bits| < |decisions| && Open(bits) && !Covers(bits)
      ensures var d := decisions[|bits|]; var s := Apply(bits); var taken := bits + [true]; var skipped := bits + [false];
        && d.row < |s| && inst.Has(d.row, 3) && inst.Partial(s) && inst.Partial(s[d.row := d.choice])
        && Open(taken) && Apply(taken) == s[d.row := d.choice] && s[d.row := d.choice][d.row := 3] == s
        && Gain(taken) == Gain(bits) + d.gain && Extra(taken) == Extra(bits) + d.extra
        && PositiveM3(inst, Apply(taken)) == PositiveM3(inst, s) - (if inst.Cost(d.row, 3) > 0 then 1 else 0)
        && Open(skipped) && Apply(skipped) == s && Gain(skipped) == Gain(bits) && Extra(skipped) == Extra(bits)
    {
      hide Plan.Apply, Plan.Gain, Plan.Extra, Plan.Open, Plan.Covers;
      var d := decisions[|bits|];
      assert DecisionOk(d);
      OpenChild(bits, true);
      OpenChild(bits, false);
      ChildIs(bits, true);
      ChildIs(bits, false);
      ApplyAt(bits, d.row);
      ApplyKept(bits);
      PositiveM3Update(inst, Apply(bits), d.row, d.choice);
    }

    /** One more bit. */
    lemma ChildIs(bits: Bits, bit: bool)
      requires Valid() && |bits| < |decisions|
      ensures var d := decisions[|bits|]; var child := bits + [bit];
        && Apply(child) == (if bit then Apply(bits)[d.row := d.choice] else Apply(bits))
        && Gain(child) == Gain(bits) + (if bit then d.gain else 0)
        && Extra(child) == Extra(bits) + (if bit then d.extra else 0)
    {
      assert (bits + [bit])[..|bits|] == bits;
    }

    /** The root of the search. */
    lemma Root()
      requires Valid()
      ensures forall k :: 0 <= k < |decisions| ==> decisions[k].row < |base|
      ensures Open([]) && Apply([]) == base && inst.Partial(base) && Gain([]) == 0 && Extra([]) == 0
    {
    }

    /** The two cases of an offer; its margin is not negative. */
    lemma OfferIs(c: Bits)
      requires Valid() && FirstCover(c)
      ensures inst.Partial(Apply(c)) && |Apply(c)| == |base| && 0 <= g0 + Gain(c)
      ensures PositiveM3(inst, Apply(c)) > 0 ==> Offer(c) == Some(Candidate(Extra(c), Apply(c)))
      ensures PositiveM3(inst, Apply(c)) <= 0 ==>
        match Provider(Gain(c), |dominated|)
        case None => Offer(c) == None
        case Some(k) =>
          && dominated[k].row < |base| && 0 <= g0 + Gain(c) - dominated[k].loss
          && Offer(c) == Some(Candidate(Extra(c) + dominated[k].extra, Apply(c)[dominated[k].row := 3]))
    {
      ApplyKept(c);
    }

    lemma DominatedAt(k: nat)
      requires Valid() && k < |dominated|
      ensures dominated[k].row < |base| && inst.Has(dominated[k].row, 3)
    {
    }

    /** Dominated rows are distinct. */
    lemma DominatedDistinct(j: nat, k: nat)
      requires Valid() && j < |dominated| && k < |dominated| && dominated[j].row == dominated[k].row
      ensures j == k
    {
    }

    /** Upgrading in row order from k rows on until the choice covers. */
    ghost function SeedFrom(k: nat): seq<Candidate>
      requires Valid() && k <= |decisions|
      decreases |decisions| - k
    {
      if Covers(Trues(k)) then Keep([], Offer(Trues(k)))
      else if k == |decisions| then [] else SeedFrom(k + 1)
    }

    /** The history with which the recursive search starts. */
    ghost function SeedHistory(): seq<Candidate>
      requires Valid()
    {
      if required > 0 then SeedFrom(0) else []
    }

    lemma KeepTwice(offer: Option<Candidate>)
      ensures Keep(Keep([], offer), offer) == Keep([], offer)
    {
    }

    /** The seed of the search is the first cover it would reach, so it changes no candidate. */
    lemma {:induction false} SeedChangesNothing(u: nat, k: nat)
      requires Valid() && k <= u <= |decisions| && FirstCover(Trues(u))
      ensures Cover(Trues(k), Keep([], Offer(Trues(u)))) == Cover(Trues(k), [])
      decreases u - k
    {
      hide Plan.Valid, Gain, Offer, Keep;
      if k < u {
        SeedChangesNothing(u, k + 1);
        assert Trues(k) + [true] == Trues(k + 1);
        assert Trues(k) == Trues(u)[..k];
      } else {
        KeepTwice(Offer(Trues(u)));
      }
    }

    /** The shortest covering prefix. */
    lemma {:induction false} FirstPrefix(bits: Bits) returns (c: Bits)
      requires |bits| <= |decisions| && Covers(bits)
      ensures c <= bits && FirstCover(c)
    {
      if j :| 0 <= j < |bits| && Covers(bits[..j]) {
        c := FirstPrefix(bits[..j]);
      } else {
        c := bits;
      }
    }

    /** Rows left alone after a prefix change nothing. */
    lemma {:induction false} Padding(c: Bits, bits: Bits)
      requires Valid() && c <= bits && |bits| <= |decisions| && forall k :: |c| <= k < |bits| ==> !bits[k]
      ensures Apply(bits) == Apply(c) && Gain(bits) == Gain(c) && Extra(bits) == Extra(c)
      decreases |bits|
    {
      if |c| < |bits| {
        Padding(c, bits[..|bits| - 1]);
      } else {
        assert bits == c;
      }
    }

    // -------------------------------------------------------------- assignments and upgrades

    ghost function BitsOf(x: Assignment): Bits
      requires Valid() && |x| == |base|
    {
      seq(|decisions|, k requires 0 <= k < |decisions| => x[decisions[k].row] != 3)
    }

    /** A kept assignment runs its upgrades, plus method 3 in some dominated rows. */
    lemma KeptShape(x: Assignment, i: nat)
      requires Valid() && Kept(inst, x) && i < |x|
      ensures var y := Apply(BitsOf(x));
        |y| == |x| && (x[i] == y[i] || (Provides(inst, i) && x[i] == 3 && y[i] == Cheaper(inst, i)))
    {
      ApplyAt(BitsOf(x), i);
    }

    /** Compared with its upgrades alone, an assignment is dearer and has less margin. */
    lemma KeptSums(x: Assignment)
      requires Valid() && Kept(inst, x)
      ensures var y := Apply(BitsOf(x));
        && inst.Partial(y) && inst.Sum(inst.Linear(), x) <= inst.Sum(inst.Linear(), y)
        && inst.Sum(TOTAL, y) <= inst.Sum(TOTAL, x)
    {
      var y := Apply(BitsOf(x));
      ApplyKept(BitsOf(x));
      forall i | 0 <= i < |x|
        ensures x[i] == y[i] || (Provides(inst, i) && x[i] == 3 && y[i] == Cheaper(inst, i))
      {
        KeptShape(x, i);
      }
      CompareRows(x, y);
    }

    /** Row by row, x equals y or runs method 3 in a dominated row where y does not. */
    lemma CompareRows(x: Assignment, y: Assignment)
      requires Valid() && Kept(inst, x) && inst.Partial(y) && |x| == |y|
      requires forall i :: 0 <= i < |x| ==>
        x[i] == y[i] || (Provides(inst, i) && x[i] == 3 && y[i] == Cheaper(inst, i))
      ensures inst.Sum(inst.Linear(), x) <= inst.Sum(inst.Linear(), y) && inst.Sum(TOTAL, y) <= inst.Sum(TOTAL, x)
    {
      forall i | 0 <= i < |x|
        ensures inst.Term(inst.Linear(), i, x[i]) <= inst.Term(inst.Linear(), i, y[i])
        ensures inst.Term(TOTAL, i, y[i]) <= inst.Term(TOTAL, i, x[i])
      {
        if x[i] != y[i] {
          var k :| 0 <= k < |dominated| && dominated[k].row == i;
          DominatedTerms(dominated[k]);
        }
      }
      inst.SumMono(inst.Linear(), x, y);
      inst.SumMono(TOTAL, y, x);
    }

    /** The upgrades of a solution reach the required gain. */
    lemma SolutionsCover(x: Assignment)
      requires Valid() && KeptFeasible(inst, x)
      ensures Covers(BitsOf(x))
    {
      KeptSums(x);
      ApplySums(BitsOf(x));
      Extending([], BitsOf(x));
    }

    /** Frugality, in terms of the decisions. */
    lemma FrugalBits(x: Assignment)
      requires Valid() && Kept(inst, x)
      ensures Frugal(inst, x) <==> forall k :: 0 <= k < |decisions| && BitsOf(x)[k] ==> !Covers(BitsOf(x)[..k])
    {
      forall k | 0 <= k < |decisions|
        ensures UpgradedBefore(inst, x, decisions[k].row) == Apply(BitsOf(x)[..k])
        ensures inst.Partial(Apply(BitsOf(x)[..k]))
        ensures inst.Sum(inst.Linear(), Apply(BitsOf(x)[..k])) < 0 <==> !Covers(BitsOf(x)[..k])
      {
        UpgradedBeforeIs(x, k);
        ApplySums(BitsOf(x)[..k]);
        Extending([], BitsOf(x)[..k]);
      }
    }

    lemma UpgradedBeforeIs(x: Assignment, k: nat)
      requires Valid() && Kept(inst, x) && k < |decisions|
      ensures UpgradedBefore(inst, x, decisions[k].row) == Apply(BitsOf(x)[..k])
    {
      var bits := BitsOf(x)[..k];
      forall j | 0 <= j < |x|
        ensures UpgradedBefore(inst, x, decisions[k].row)[j] == Apply(bits)[j]
      {
        ApplyAt(bits, j);
        if Upgradable(inst, j) {
          var l :| 0 <= l < |decisions| && decisions[l].row == j;
        }
      }
    }

    // -------------------------------------------------------------- what offers are worth

    /** Every offer is a frugal solution at its stated cost. */
    lemma OfferIsSolution(c: Bits)
      requires Valid() && FirstCover(c) && Offer(c).Some?
      ensures var s := Offer(c).value;
        && KeptFeasible(inst, s.choice) && Frugal(inst, s.choice)
        && inst.Sum(TOTAL, s.choice) == inst.Sum(TOTAL, base) + s.extra
    {
      ApplyKept(c);
      ApplySums(c);
      var y, s := Apply(c), Offer(c).value;
      PositiveM3Means(inst, y);
      if PositiveM3(inst, y) == 0 {
        var d := dominated[Provider(Gain(c), |dominated|).value];
        ApplyAt(c, d.row);
        inst.SumUpdate(inst.Linear(), y, d.row, 3);
        inst.SumUpdate(TOTAL, y, d.row, 3);
        DominatedTerms(d);
        PositiveM3Means(inst, s.choice);
        assert s.choice[d.row] == 3;
      }
      OfferIsFrugal(c);
    }

    lemma OfferIsFrugal(c: Bits)
      requires Valid() && FirstCover(c) && Offer(c).Some? && Kept(inst, Offer(c).value.choice)
      ensures Frugal(inst, Offer(c).value.choice)
    {
      var x := Offer(c).value.choice;
      forall k | 0 <= k < |decisions|
        ensures BitsOf(x)[k] == (k < |c| && c[k])
      {
        ApplyAt(c, decisions[k].row);
      }
      forall k | 0 <= k < |c|
        ensures BitsOf(x)[..k] == c[..k]
      {
      }
      FrugalBits(x);
    }

    /** Some first cover offers at most the cost of a frugal solution. */
    lemma FrugalIsOffered(x: Assignment)
      requires Valid() && KeptFeasible(inst, x) && Frugal(inst, x)
      ensures exists c :: (FirstCover(c) && Offer(c).Some?
                           && inst.Sum(TOTAL, base) + Offer(c).value.extra <= inst.Sum(TOTAL, x))
    {
      var bits := BitsOf(x);
      SolutionsCover(x);
      var c := FirstPrefix(bits);
      FrugalBits(x);
      forall k | |c| <= k < |bits|
        ensures !bits[k]
      {
        Extending(c, bits[..k]);
      }
      Padding(c, bits);
      OfferAtMost(x, c);
    }

    /** The offer of x's own upgrades costs at most x. */
    lemma OfferAtMost(x: Assignment, c: Bits)
      requires Valid() && KeptFeasible(inst, x) && |c| <= |decisions| && Apply(c) == Apply(BitsOf(x))
      requires Gain(c) == Gain(BitsOf(x)) && Extra(c) == Extra(BitsOf(x))
      ensures Offer(c).Some? && inst.Sum(TOTAL, base) + Offer(c).value.extra <= inst.Sum(TOTAL, x)
    {
      var y := Apply(c);
      KeptSums(x);
      ApplySums(c);
      PositiveM3Means(inst, x);
      PositiveM3Means(inst, y);
      if PositiveM3(inst, y) == 0 {
        var i :| 0 <= i < |x| && x[i] == 3 && inst.Cost(i, 3) > 0;
        KeptShape(x, i);
        ProviderAtMost(x, c, i);
      }
    }

    lemma ProviderAtMost(x: Assignment, c: Bits, i: nat)
      requires Valid() && KeptFeasible(inst, x) && |c| <= |decisions| && Apply(c) == Apply(BitsOf(x))
      requires i < |x| && Provides(inst, i) && x[i] == 3 && inst.Cost(i, 3) > 0 && Apply(c)[i] == Cheaper(inst, i)
      ensures exists k :: (0 <= k < |dominated| && Qualifies(dominated[k], Gain(c))
                           && inst.Sum(TOTAL, base) + Extra(c) + dominated[k].extra <= inst.Sum(TOTAL, x))
    {
      var k :| 0 <= k < |dominated| && dominated[k].row == i;
      var y := Apply(c);
      ApplySums(c);
      DominatedTerms(dominated[k]);
      inst.SumUpdate(inst.Linear(), y, i, 3);
      inst.SumUpdate(TOTAL, y, i, 3);
      forall j | 0 <= j < |x|
        ensures x[j] == y[i := 3][j] || (Provides(inst, j) && x[j] == 3 && y[i := 3][j] == Cheaper(inst, j))
      {
        KeptShape(x, j);
      }
      CompareRows(x, y[i := 3]);
    }

    /** The exhaustive search over covers answers with a cheapest frugal solution. */
    lemma CoverAnswers()
      requires Valid()
      ensures var h := Cover([], []);
        CheapestFrugal(inst, if h == [] then None else Some(h[|h| - 1].choice))
      ensures var h := Cover([], []);
        h != [] ==> inst.Sum(TOTAL, h[|h| - 1].choice) == inst.Sum(TOTAL, base) + h[|h| - 1].extra
    {
      hide Plan.Cover, Plan.Offer, Frugal, Instance.Sum;
      var h := Cover([], []);
      CoverLeast([], []);
      if h != [] {
        var c :| FirstCover(c) && Offer(c) == Some(h[|h| - 1]);
        OfferIsSolution(c);
      }
      forall x | KeptFeasible(inst, x) && Frugal(inst, x)
        ensures h != [] && inst.Sum(TOTAL, h[|h| - 1].choice) <= inst.Sum(TOTAL, x)
      {
        FrugalIsOffered(x);
        var c :| FirstCover(c) && Offer(c).Some?
          && inst.Sum(TOTAL, base) + Offer(c).value.extra <= inst.Sum(TOTAL, x);
        assert Reaches(h, Offer(c));
      }
    }

    /** With positive method-3 prices, or no ratio to reach, every solution has a frugal one that costs no more. */
    lemma PositivePricesSuffice()
      requires Valid() && (PositivePrices(inst) || inst.threshold == 0)
      ensures FrugalSuffices(inst)
    {
      forall x | KeptFeasible(inst, x)
        ensures exists y :: KeptFeasible(inst, y) && Frugal(inst, y) && inst.Sum(TOTAL, y) <= inst.Sum(TOTAL, x)
      {
        if inst.threshold == 0 {
          var y := ZeroThreshold(inst, x);
        } else {
          var y := FrugalFor(x);
        }
      }
    }

    lemma FrugalFor(x: Assignment) returns (y: Assignment)
      requires Valid() && PositivePrices(inst) && KeptFeasible(inst, x)
      ensures KeptFeasible(inst, y) && Frugal(inst, y) && inst.Sum(TOTAL, y) <= inst.Sum(TOTAL, x)
    {
      hide Frugal, Instance.Sum, PositivePrices, DecisionOk, DominatedOk;
      var bits := BitsOf(x);
      SolutionsCover(x);
      var c := FirstPrefix(bits);
      y := Apply(c);
      ApplyKept(c);
      if PositiveM3(inst, y) > 0 {
        ApplySums(bits);
        KeptSums(x);
        Extending(c, bits);
        OfferIsSolution(c);
      } else {
        NothingLeft(c);
        FrugalBits(x);
        assert c == bits;
        y := x;
      }
    }

    /** With positive prices, method-3 cost runs out only when every row is upgraded. */
    lemma NothingLeft(c: Bits)
      requires Valid() && PositivePrices(inst) && |c| <= |decisions|
      requires inst.Partial(Apply(c)) && PositiveM3(inst, Apply(c)) == 0
      ensures |c| == |decisions|
    {
      var y := Apply(c);
      PositiveM3Means(inst, y);
      if |c| < |decisions| {
        ApplyAt(c, decisions[|c|].row);
        assert y[decisions[|c|].row] == 3;
        if i :| !Early(inst, i) && inst.Has(i, 3) && inst.Cost(i, 3) > 0 {
          ApplyAt(c, i);
        }
      }
    }
  }

  /** At threshold 0 a solution stays one when every row that may be upgraded runs method 3 instead. */
  lemma ZeroThreshold(inst: Instance, x: Assignment) returns (y: Assignment)
    requires inst.Valid() && inst.threshold == 0 && inst.Feasible(x)
    ensures KeptFeasible(inst, y) && Frugal(inst, y) && inst.Sum(TOTAL, y) <= inst.Sum(TOTAL, x)
  {
    y := seq(|x|, i requires 0 <= i < |x| => if x[i] == 3 || Upgradable(inst, i) then 3 else Cheaper(inst, i));
    forall i | 0 <= i < |x|
      ensures inst.Has(i, y[i]) && inst.Term(TOTAL, i, y[i]) <= inst.Term(TOTAL, i, x[i])
      ensures inst.Term(C3, i, x[i]) <= inst.Term(C3, i, y[i])
    {
      assert inst.Has(i, x[i]);
    }
    inst.SumMono(TOTAL, y, x);
    inst.SumMono(C3, x, y);
    inst.SumParts(y);
    inst.LinearParts(y);
    MulNonNeg(inst.scale, inst.Sum(C12, y));
  }

  function Trues(n: nat): Bits {
    seq(n, _ => true)
  }

  lemma NegateProduct(a: int, b: int)
    ensures -a * b == -(a * b)
  {
  }

  lemma AssociateProduct(a: int, b: int, c: int)
    ensures a * b * c == a * (b * c)
  {
  }

  lemma CommuteProduct(a: int, b: int)
    ensures a * b == b * a
  {
  }

  lemma FloorBelow(a: int, b: int, d: int)
    requires 0 < d && a <= b * d
    ensures a / d <= b
  {
    if a / d > b {
      MulMono(b + 1, a / d, d);
    }
  }

  /** One bound of the grid, on its numbers alone. */
  lemma OneBound(p: int, q: int, scale: int, residual: int, rise: int, extra: int, reduced: int)
    requires 0 <= p && 0 < q && 0 < scale && residual <= rise && reduced <= extra * q * scale - p * rise
    ensures 0 < q * scale && (p * residual + reduced) / (q * scale) <= extra
  {
    MulMono(residual, rise, p);
    MulStrict(0, q, scale);
    AssociateProduct(extra, q, scale);
    CommuteProduct(residual, p);
    CommuteProduct(rise, p);
    FloorBelow(p * residual + reduced, extra, q * scale);
  }

  lemma SplitReduced(e: int, e': int, g: int, g': int, m: Multiplier, scale: int)
    ensures (e + e') * m.q * scale - m.p * (g + g')
         == (e * m.q * scale - m.p * g) + (e' * m.q * scale - m.p * g')
  {
  }
}
