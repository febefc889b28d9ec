/**
 When the structured solver answers with a cheapest solution of all: the answer as a function of the
 instance, and the exact condition on a single row under which it is harmless next to any other rows.
 */
module CoverExactness {
  import opened Wrappers
  import opened NumberTheory
  import opened CostModel
  import opened CoverModels

  // ---------------------------------------------------------------- the answer

  ghost function PlanUpTo(inst: Instance, n: nat): (plan: Plan)
    requires n <= |inst.rows|
    ensures plan.inst == inst && plan.Sorted(n) && plan.g0 == plan.required == 0
  {
    if n == 0 then Plan(inst, [], [], [], 0, 0) else
      var before := PlanUpTo(inst, n - 1);
      before.AddRowSorted(n - 1);
      before.AddRow(n - 1)
  }

  lemma BaseComplete(inst: Instance, base: Assignment)
    requires inst.Valid() && |base| == |inst.rows| && forall i :: 0 <= i < |base| ==> base[i] == BaseMethod(inst, i)
    ensures inst.Complete(base)
    ensures forall x :: inst.Complete(x) ==> inst.Sum(TOTAL, base) <= inst.Sum(TOTAL, x)
  {
    forall i | 0 <= i < |base|
      ensures inst.Has(i, base[i]) && forall m :: inst.Has(i, m) ==> inst.Cost(i, base[i]) <= inst.Cost(i, m)
    {
      assert inst.Available(i);
    }
    forall x | inst.Complete(x)
      ensures inst.Sum(TOTAL, base) <= inst.Sum(TOTAL, x)
    {
      inst.SumMono(TOTAL, base, x);
    }
  }

  /** The plan of an instance. */
  ghost function PlanOf(inst: Instance): (plan: Plan)
    requires inst.Valid()
    ensures plan.inst == inst && plan.Valid()
  {
    var sorted := PlanUpTo(inst, |inst.rows|);
    BaseComplete(inst, sorted.base);
    var g0 := inst.Sum(inst.Linear(), sorted.base);
    var plan := sorted.(g0 := g0, required := if g0 < 0 then -g0 else 0);
    sorted.SameRows(plan);
    plan
  }

  /** The solution that the solver returns, under either strategy. */
  ghost function AnswerOf(inst: Instance): Option<Assignment>
    requires inst.Valid()
  {
    var plan := PlanOf(inst);
    var kept := plan.Cover([], []);
    if inst.Feasible(plan.base) then Some(plan.base)
    else if kept == [] then None
    else Some(kept[|kept| - 1].choice)
  }

  /** It is a cheapest frugal solution, and the base itself when that is feasible. */
  lemma AnswerIsCheapestFrugal(inst: Instance)
    requires inst.Valid()
    ensures CheapestFrugal(inst, AnswerOf(inst))
    ensures inst.Feasible(PlanOf(inst).base) ==> Cheapest(inst, AnswerOf(inst))
  {
    hide Instance.Sum, UpgradedBefore;
    var plan := PlanOf(inst);
    if inst.Feasible(plan.base) {
      BaseComplete(inst, plan.base);
      assert Kept(inst, plan.base);
    } else {
      plan.CoverAnswers();
    }
  }

  // ---------------------------------------------------------------- conditions on the whole instance

  /** When every solution has a frugal one that costs no more, a cheapest frugal one is cheapest. */
  lemma KeptWhenFrugalSuffices(inst: Instance, r: Option<Assignment>)
    requires CheapestFrugal(inst, r) && FrugalSuffices(inst)
    ensures CheapestKept(inst, r)
  {
    hide Frugal, Instance.Sum, Instance.Partial;
    forall x | KeptFeasible(inst, x)
      ensures r.Some?
      ensures inst.Sum(TOTAL, r.value) <= inst.Sum(TOTAL, x)
    {
      FrugalInstead(inst, x, r);
    }
  }

  lemma FrugalInstead(inst: Instance, x: Assignment, r: Option<Assignment>)
    requires CheapestFrugal(inst, r) && FrugalSuffices(inst) && KeptFeasible(inst, x)
    ensures r.Some? && KeptFeasible(inst, r.value) && inst.Sum(TOTAL, r.value) <= inst.Sum(TOTAL, x)
  {
    hide Frugal, Instance.Sum;
    var y :| KeptFeasible(inst, y) && Frugal(inst, y) && inst.Sum(TOTAL, y) <= inst.Sum(TOTAL, x);
  }

  /** When methods 1 and 2 never differ in price, or there is no ratio to reach, compressing the rows loses nothing. */
  lemma EqualPricesSuffice(inst: Instance, r: Option<Assignment>)
    requires inst.Valid() && (EqualPrices(inst) || inst.threshold == 0) && CheapestKept(inst, r)
    ensures Cheapest(inst, r)
  {
    forall x | inst.Feasible(x)
      ensures r.Some? && inst.Sum(TOTAL, r.value) <= inst.Sum(TOTAL, x)
    {
      if inst.threshold == 0 {
        var y := ZeroThreshold(inst, x);
      } else {
        var y := seq(|x|, i requires 0 <= i < |x| => if x[i] == 3 then 3 else Cheaper(inst, i));
        SamePrices(inst, TOTAL, x, y);
        SamePrices(inst, inst.Linear(), x, y);
        SamePrices(inst, C3, x, y);
        assert KeptFeasible(inst, y);
      }
    }
  }

  lemma SamePrices(inst: Instance, w: Weight, x: Assignment, y: Assignment)
    requires EqualPrices(inst) && inst.Partial(x) && |y| == |x|
    requires forall i :: 0 <= i < |x| ==> y[i] == if x[i] == 3 then 3 else Cheaper(inst, i)
    ensures inst.Partial(y) && inst.Sum(w, y) == inst.Sum(w, x)
  {
    assert forall i :: 0 <= i < |x| ==> inst.Has(i, y[i]) && inst.Term(w, i, y[i]) == inst.Term(w, i, x[i]);
    inst.SumMono(w, x, y);
    inst.SumMono(w, y, x);
  }

  /** The conditions under which the answer is cheapest among the compressed rows, and of all. */
  lemma AnswerIsCheapest(inst: Instance)
    requires inst.Valid()
    ensures PositivePrices(inst) || inst.threshold == 0 ==> CheapestKept(inst, AnswerOf(inst))
    ensures (PositivePrices(inst) && EqualPrices(inst)) || inst.threshold == 0 ==> Cheapest(inst, AnswerOf(inst))
  {
    hide PositivePrices, EqualPrices, CheapestFrugal, CheapestKept, Cheapest, FrugalSuffices, PlanOf, AnswerOf;
    AnswerIsCheapestFrugal(inst);
    if PositivePrices(inst) || inst.threshold == 0 {
      PlanOf(inst).PositivePricesSuffice();
      KeptWhenFrugalSuffices(inst, AnswerOf(inst));
      if EqualPrices(inst) || inst.threshold == 0 {
        EqualPricesSuffice(inst, AnswerOf(inst));
      }
    }
  }

  // ---------------------------------------------------------------- the condition on one row

  /** Methods 1 and 2 are both there, at different prices. */
  predicate PricesDiffer(row: Row) {
    row[0].Some? && row[1].Some? && row[0] != row[1]
  }

  /** Method 3 is free and cheaper than what else there is. */
  predicate FreeUpgrade(row: Row) {
    && row[2] == Some(0) && (row[0].Some? || row[1].Some?)
    && (row[0].Some? ==> row[0].value > 0) && (row[1].Some? ==> row[1].value > 0)
  }

  /** The row cannot cost a solution, whatever the other rows are. */
  predicate SafeRow(row: Row, threshold: int) {
    threshold == 0 || (!PricesDiffer(row) && !FreeUpgrade(row))
  }

  /** A row about which there is no doubt: one early method at most, and no free method 3. */
  predicate PlainRow(row: Row) {
    AnyMethod(row) && !(row[0].Some? && row[1].Some?) && row[2] != Some(0)
  }

  ghost predicate AllSafe(inst: Instance) {
    forall i :: 0 <= i < |inst.rows| ==> SafeRow(inst.rows[i], inst.threshold)
  }

  /** When all rows are safe the answer is a cheapest solution of all. */
  lemma SafeRowsSuffice(inst: Instance)
    requires inst.Valid()
    ensures AllSafe(inst) ==> Cheapest(inst, AnswerOf(inst))
  {
    if AllSafe(inst) && inst.threshold > 0 {
      forall i | Upgradable(inst, i)
        ensures inst.Cost(i, 3) > 0
      {
        assert SafeRow(inst.rows[i], inst.threshold);
      }
      assert EqualPrices(inst);
    }
    AnswerIsCheapest(inst);
  }

  /**
   The exact condition: next to any plain rows the answer is a cheapest solution of all if and only
   if the threshold is 0, or the row's methods 1 and 2 do not differ in price and it has no free
   method 3 that may be upgraded.
   */
  lemma RowIsSafe(row: Row, scale: int, threshold: int)
    requires 0 <= threshold < scale && AnyMethod(row)
    ensures SafeRow(row, threshold) <==>
      forall rest: seq<Row> :: (forall j :: 0 <= j < |rest| ==> PlainRow(rest[j])) ==>
        var inst := InContext(row, rest, scale, threshold); inst.Valid() && Cheapest(inst, AnswerOf(inst))
  {
    hide Cheapest, AnswerOf, SafeRow, PlainRow, Instance.Valid;
    if SafeRow(row, threshold) {
      forall rest: seq<Row> | forall j :: 0 <= j < |rest| ==> PlainRow(rest[j])
        ensures var inst := InContext(row, rest, scale, threshold); inst.Valid() && Cheapest(inst, AnswerOf(inst))
      {
        SafeInContext(row, rest, scale, threshold);
      }
    } else {
      var rest := UnsafeLoses(row, scale, threshold);
    }
  }

  lemma SafeInContext(row: Row, rest: seq<Row>, scale: int, threshold: int)
    requires 0 <= threshold < scale && AnyMethod(row) && SafeRow(row, threshold)
    requires forall j :: 0 <= j < |rest| ==> PlainRow(rest[j])
    ensures var inst := InContext(row, rest, scale, threshold); inst.Valid() && Cheapest(inst, AnswerOf(inst))
  {
    hide Cheapest, AnswerOf;
    var inst := InContext(row, rest, scale, threshold);
    ContextValid(row, rest, scale, threshold);
    forall i | 0 <= i < |inst.rows|
      ensures SafeRow(inst.rows[i], threshold)
    {
      assert i > 0 ==> PlainRow(rest[i - 1]) && inst.rows[i] == rest[i - 1];
    }
    SafeRowsSuffice(inst);
  }

  /** Two plain rows next to which an unsafe row costs the only solutions. */
  lemma UnsafeLoses(row: Row, scale: int, threshold: int) returns (rest: seq<Row>)
    requires 0 <= threshold < scale && AnyMethod(row) && !SafeRow(row, threshold)
    ensures forall j :: 0 <= j < |rest| ==> PlainRow(rest[j])
    ensures var inst := InContext(row, rest, scale, threshold); inst.Valid() && !Cheapest(inst, AnswerOf(inst))
  {
    hide AnswerOf, Frugal, Instance.Sum;
    rest := if PricesDiffer(row) then DearerContext(row, scale, threshold) else FreeContext(scale, threshold);
    var inst := InContext(row, rest, scale, threshold);
    ContextValid(row, rest, scale, threshold);
    if PricesDiffer(row) {
      DearerIsLost(row, scale, threshold);
    } else {
      FreeIsLost(row, scale, threshold);
    }
    AnswerIsCheapestFrugal(inst);
  }

  function LowerPrice(row: Row): nat
    requires PricesDiffer(row)
  {
    if row[0].value < row[1].value then row[0].value else row[1].value
  }

  /** Two rows that only the dearer of methods 1 and 2 lets reach the ratio. */
  function DearerContext(row: Row, scale: int, threshold: int): (rest: seq<Row>)
    requires PricesDiffer(row) && 0 < threshold < scale
    ensures forall j :: 0 <= j < |rest| ==> PlainRow(rest[j])
  {
    var a := LowerPrice(row) + 1;
    MulNonNeg(threshold - 1, a);
    MulStrict(0, scale - threshold, a);
    [[Some((threshold - 1) * a), None, None], [None, None, Some((scale - threshold) * a)]]
  }

  /** Two rows that only the upgrade of a free method 3 lets reach the ratio. */
  function FreeContext(scale: int, threshold: int): (rest: seq<Row>)
    requires 0 < threshold < scale
    ensures forall j :: 0 <= j < |rest| ==> PlainRow(rest[j])
  {
    [[Some(threshold - 1), None, None], [Some(0), None, Some(scale - threshold)]]
  }

  lemma SumThree(inst: Instance, w: Weight, x: Assignment)
    requires |inst.rows| == 3 && inst.Complete(x)
    ensures inst.Sum(w, x) == inst.Term(w, 0, x[0]) + inst.Term(w, 1, x[1]) + inst.Term(w, 2, x[2])
  {
    assert x[..2][..1] == x[..1] && x[..1][..0] == [];
    assert inst.Sum(w, x[..1]) == inst.Term(w, 0, x[0]);
    assert inst.Sum(w, x[..2]) == inst.Term(w, 0, x[0]) + inst.Term(w, 1, x[1]);
  }

  /** The margin of the context of differing prices, with price c in the row. */
  lemma DearerMargin(u: int, t: int, a: int, c: int)
    ensures u * c + u * ((t - 1) * a) + -t * (u * a) == u * (c - a)
    ensures -t * c + u * ((t - 1) * a) + -t * (u * a) == -t * c - u * a
  {
  }

  /** For every row whose prices differ and every positive threshold, compressing loses the only solution. */
  lemma DearerIsLost(row: Row, scale: int, threshold: int)
    requires PricesDiffer(row) && 0 < threshold < scale
    ensures var inst := InContext(row, DearerContext(row, scale, threshold), scale, threshold);
      CheapestKept(inst, None) && exists x :: inst.Feasible(x)
  {
    var inst := InContext(row, DearerContext(row, scale, threshold), scale, threshold);
    var a, u := LowerPrice(row) + 1, scale - threshold;
    assert inst.rows[0] == row && |inst.rows| == 3;
    var dearer := if row[0].value < row[1].value then 2 else 1;
    var s := [dearer, 1, 3];
    assert inst.Has(0, dearer) && inst.Has(1, 1) && inst.Has(2, 3);
    SumThree(inst, inst.Linear(), s);
    SumThree(inst, C3, s);
    DearerMargin(u, threshold, a, inst.Cost(0, dearer));
    MulNonNeg(u, inst.Cost(0, dearer) - a);
    MulStrict(0, u, a);
    assert inst.Feasible(s);
    forall x
      ensures !KeptFeasible(inst, x)
    {
      if Kept(inst, x) {
        NotFeasibleHere(row, scale, threshold, x);
      }
    }
  }

  /** In that context the cheaper method does not reach the ratio. */
  lemma NotFeasibleHere(row: Row, scale: int, threshold: int, x: Assignment)
    requires PricesDiffer(row) && 0 < threshold < scale
    requires Kept(InContext(row, DearerContext(row, scale, threshold), scale, threshold), x)
    ensures !InContext(row, DearerContext(row, scale, threshold), scale, threshold).Feasible(x)
  {
    var inst := InContext(row, DearerContext(row, scale, threshold), scale, threshold);
    var a, u := LowerPrice(row) + 1, scale - threshold;
    assert inst.rows[0] == row && |inst.rows| == 3;
    assert inst.Has(0, x[0]) && inst.Has(1, x[1]) && inst.Has(2, x[2]);
    assert x[1] == 1 && x[2] == 3;
    SumThree(inst, inst.Linear(), x);
    var c := inst.Cost(0, x[0]);
    DearerMargin(u, threshold, a, c);
    MulStrict(0, a, u);
    if x[0] == 3 {
      MulNonNeg(threshold, c);
    } else {
      MulStrict(c, a, u);
    }
  }

  /** For every row with a free method 3 that may be upgraded and every positive threshold, frugality does. */
  lemma FreeIsLost(row: Row, scale: int, threshold: int)
    requires FreeUpgrade(row) && 0 < threshold < scale
    ensures var inst := InContext(row, FreeContext(scale, threshold), scale, threshold);
      CheapestFrugal(inst, None) && exists x :: KeptFeasible(inst, x)
  {
    var inst := InContext(row, FreeContext(scale, threshold), scale, threshold);
    var u, t := scale - threshold, threshold;
    assert inst.rows[0] == row && |inst.rows| == 3;
    var m := Cheaper(inst, 0);
    var s := [m, 1, 3];
    assert inst.Has(0, m) && inst.Has(1, 1) && inst.Has(2, 3) && inst.Has(2, 1) && inst.Has(0, 3);
    SumThree(inst, inst.Linear(), s);
    SumThree(inst, C3, s);
    DearerMargin(u, t, 1, inst.Cost(0, m));
    MulNonNeg(u, inst.Cost(0, m) - 1);
    assert KeptFeasible(inst, s);
    forall x | KeptFeasible(inst, x)
      ensures !Frugal(inst, x)
    {
      NotFrugalHere(row, scale, threshold, x);
    }
  }

  /** In that context a solution must upgrade row 0, although the base reaches the ratio. */
  lemma NotFrugalHere(row: Row, scale: int, threshold: int, x: Assignment)
    requires FreeUpgrade(row) && 0 < threshold < scale
    requires KeptFeasible(InContext(row, FreeContext(scale, threshold), scale, threshold), x)
    ensures !Frugal(InContext(row, FreeContext(scale, threshold), scale, threshold), x)
  {
    var inst := InContext(row, FreeContext(scale, threshold), scale, threshold);
    var u, t := scale - threshold, threshold;
    assert inst.rows[0] == row && |inst.rows| == 3;
    assert inst.Has(0, x[0]) && inst.Has(1, x[1]) && inst.Has(2, x[2]) && inst.Has(0, 3) && inst.Has(2, 1);
    SumThree(inst, C3, x);
    SumThree(inst, inst.Linear(), x);
    DearerMargin(u, t, 1, 0);
    assert x[0] != 3;
    var base := UpgradedBefore(inst, x, 0);
    assert base == [3, 1, 1];
    SumThree(inst, inst.Linear(), base);
    MulNonNeg(u, t - 1);
  }
}
