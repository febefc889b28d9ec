/**
 When the oblivious rounds follow the plain repair: the exact condition on a single row under which
 they do so next to any other rows.
 */
module RepairExactness {
  import opened Wrappers
  import opened NumberTheory
  import opened CostModel
  import opened Repairs

  /** k rounds are the plain repair stopped after k moves, from everywhere. */
  ghost predicate Follows(inst: Instance) {
    forall x, k: nat :: inst.Complete(x) ==> Rounds(inst, x, k) == RepairedFor(inst, x, k)
  }

  /** The default number of rounds reaches the plain repair, from everywhere. */
  ghost predicate Agrees(inst: Instance) {
    forall x :: inst.Complete(x) ==> Rounds(inst, x, 3 * |x|) == Repaired(inst, x)
  }

  /** Method 3 is not free, or there is no ratio to reach and the other methods are free as well. */
  predicate SteadyRow(row: Row, threshold: int) {
    || row[2] != Some(0)
    || (threshold == 0 && (row[0].Some? ==> row[0] == Some(0)) && (row[1].Some? ==> row[1] == Some(0)))
  }

  predicate PaidRow(row: Row) {
    AnyMethod(row) && row[2] != Some(0)
  }

  lemma FollowsAgrees(inst: Instance)
    requires Follows(inst)
    ensures Agrees(inst)
  {
    forall x | inst.Complete(x)
      ensures Rounds(inst, x, 3 * |x|) == Repaired(inst, x)
    {
      RepairedForEnough(inst, x, 3 * |x|);
    }
  }

  // ---------------------------------------------------------------- steady rows suffice

  lemma SteadyRowsFollow(inst: Instance)
    requires inst.Valid() && forall i :: 0 <= i < |inst.rows| ==> SteadyRow(inst.rows[i], inst.threshold)
    ensures Follows(inst)
  {
    forall x, k: nat | inst.Complete(x)
      ensures Rounds(inst, x, k) == RepairedFor(inst, x, k)
    {
      if inst.threshold == 0 && !PositiveThirds(inst) {
        ZeroThresholdFollows(inst, x, k);
      } else {
        assert PositiveThirds(inst);
        RoundsRepair(inst, x, k);
      }
    }
  }

  /** At threshold 0 the margin is never negative, so method-3 cost is all that can be missing. */
  lemma ZeroMargin(inst: Instance, x: Assignment, k: nat)
    requires inst.Valid() && inst.threshold == 0 && inst.Complete(x)
    ensures ClimbFor(inst, x, k) == x
    ensures inst.Sum(C3, x) > 0 ==> Rounds(inst, x, k) == x
  {
    inst.SumParts(x);
    inst.LinearParts(x);
    MulNonNeg(inst.scale, inst.Sum(C12, x));
    if inst.Sum(C3, x) > 0 {
      RoundsStay(inst, x, k);
    }
  }

  lemma ZeroThresholdFollows(inst: Instance, x: Assignment, k: nat)
    requires inst.Valid() && inst.threshold == 0 && inst.Complete(x)
    requires forall i :: 0 <= i < |inst.rows| ==> SteadyRow(inst.rows[i], 0)
    ensures Rounds(inst, x, k) == RepairedFor(inst, x, k)
  {
    hide Instance.Sum, Best, Moves, ClimbFor, Instance.Feasible;
    inst.SumParts(x);
    ZeroMargin(inst, x, k);
    var third := ThirdUpTo(inst, x, |x|);
    if inst.Sum(C3, x) <= 0 && k > 0 {
      if third.None? {
        NoThirds(inst, x);
        RoundsRepair(inst, x, k);
      } else {
        var y := Moved(inst, x, third.value);
        ZeroRound(inst, x);
        ZeroMargin(inst, y, k - 1);
        if inst.Sum(C3, y) <= 0 {
          FreeThirdStays(inst, x);
          RoundsStay(inst, y, k - 1);
        }
      }
    }
  }

  lemma NoThirds(inst: Instance, x: Assignment)
    requires inst.Complete(x) && ThirdUpTo(inst, x, |x|).None?
    ensures PositiveThirds(inst)
  {
    forall i | inst.Has(i, 3)
      ensures false
    {
      ThirdIsLeast(inst, x, |x|, i);
    }
  }

  lemma ZeroRound(inst: Instance, x: Assignment)
    requires inst.Complete(x) && inst.Sum(C3, x) == 0 && ThirdUpTo(inst, x, |x|).Some?
    ensures Round(inst, x) == Moved(inst, x, ThirdUpTo(inst, x, |x|).value) == Start(inst, x)
  {
  }

  /** When bringing method 3 in adds no method-3 cost, the next round brings the same row in again. */
  lemma FreeThirdStays(inst: Instance, x: Assignment)
    requires inst.Valid() && inst.threshold == 0 && inst.Complete(x) && inst.Sum(C3, x) == 0
    requires forall i :: 0 <= i < |inst.rows| ==> SteadyRow(inst.rows[i], 0)
    requires ThirdUpTo(inst, x, |x|).Some? && inst.Sum(C3, Moved(inst, x, ThirdUpTo(inst, x, |x|).value)) <= 0
    ensures var y := Moved(inst, x, ThirdUpTo(inst, x, |x|).value); Round(inst, y) == y
  {
    hide Instance.Sum, ThirdUpTo, Best, Round;
    var id := ThirdUpTo(inst, x, |x|).value;
    var y, row := Moved(inst, x, id), RowOf(id);
    CostOfThird(inst, y, row);
    assert SteadyRow(inst.rows[row], 0);
    assert inst.Has(row, x[row]) && inst.Cost(row, 3) == 0 && inst.Cost(row, x[row]) == 0;
    SameThird(inst, x, row, |x|);
    SameThirdStays(inst, y);
  }

  /** Moving a row to a method 3 of the same price changes nothing for that scan. */
  lemma {:induction false} SameThird(inst: Instance, x: Assignment, row: nat, n: nat)
    requires inst.Complete(x) && n <= |x| && inst.Has(row, 3) && inst.Cost(row, 3) == inst.Cost(row, x[row])
    ensures inst.Complete(x[row := 3]) && ThirdUpTo(inst, x[row := 3], n) == ThirdUpTo(inst, x, n)
  {
    if n > 0 {
      SameThird(inst, x, row, n - 1);
      var prior := ThirdUpTo(inst, x, n - 1);
      if inst.Has(n - 1, 3) && prior.Some? {
        SameChange(inst, x, row, 3 * (n - 1) + 2);
        SameChange(inst, x, row, prior.value);
      }
    }
  }

  lemma SameChange(inst: Instance, x: Assignment, row: nat, id: nat)
    requires inst.Complete(x) && inst.Has(row, 3) && inst.Cost(row, 3) == inst.Cost(row, x[row]) && Offers(inst, id)
    ensures inst.Complete(x[row := 3]) && Change(inst, TOTAL, x[row := 3], id) == Change(inst, TOTAL, x, id)
  {
  }

  lemma SameThirdStays(inst: Instance, y: Assignment)
    requires inst.Complete(y) && inst.Sum(C3, y) <= 0 && ThirdUpTo(inst, y, |y|).Some?
    requires y[RowOf(ThirdUpTo(inst, y, |y|).value)] == 3
    ensures Round(inst, y) == y
  {
  }

  /** A row that runs method 3 contributes its cost to the method-3 cost. */
  lemma {:induction false} CostOfThird(inst: Instance, x: Assignment, i: nat)
    requires inst.Partial(x) && i < |x|
    ensures inst.Term(C3, i, x[i]) <= inst.Sum(C3, x)
  {
    var d := |x| - 1;
    inst.SumParts(x[..d]);
    if i < d {
      CostOfThird(inst, x[..d], i);
    }
  }

  // ---------------------------------------------------------------- and are needed

  /** A row next to which a free method 3 leads the rounds astray. */
  const BESIDE: Row := [Some(2), None, Some(1)]

  /** Two rows: every sum at once. */
  lemma PairSums(inst: Instance, m: int, m': int)
    requires |inst.rows| == 2 && inst.Has(0, m) && inst.Has(1, m')
    ensures inst.Complete([m, m'])
    ensures inst.Sum(C3, [m, m']) == inst.Term(C3, 0, m) + inst.Term(C3, 1, m')
    ensures inst.Sum(inst.Linear(), [m, m']) == inst.Term(inst.Linear(), 0, m) + inst.Term(inst.Linear(), 1, m')
  {
    inst.SumPair(C3, m, m');
    inst.SumPair(inst.Linear(), m, m');
  }

  /** With row 0 on its free method 3, method-3 cost comes from row 1. */
  lemma BringsBesideIn(row: Row, scale: int, threshold: int)
    requires row[2] == Some(0) && 0 <= threshold < scale
    ensures var inst := InContext(row, [BESIDE], scale, threshold);
      && inst.Complete([3, 1]) && inst.Sum(C3, [3, 1]) == 0 && inst.Sum(inst.Linear(), [3, 1]) >= 0
      && Round(inst, [3, 1]) == [3, 3]
  {
    var inst, x := InContext(row, [BESIDE], scale, threshold), [3, 1];
    assert inst.rows[0] == row && inst.rows[1] == BESIDE;
    PairSums(inst, 3, 1);
    assert ThirdUpTo(inst, x, 0) == None;
    assert ThirdUpTo(inst, x, 1) == Some(2);
    assert ThirdUpTo(inst, x, 2) == Some(5);
  }

  /** At a positive threshold, row 1 has the better move back, whatever row 0 offers. */
  lemma BesideMovesBack(plain: bool, row: Row, scale: int, threshold: int)
    requires row[2] == Some(0) && 0 < threshold < scale
    ensures var inst := InContext(row, [BESIDE], scale, threshold);
      inst.Complete([3, 3]) && Best(plain, inst, [3, 3]) == Some(3)
  {
    var inst, x := InContext(row, [BESIDE], scale, threshold), [3, 3];
    assert inst.rows[0] == row && inst.rows[1] == BESIDE;
    PairSums(inst, 3, 3);
    assert CountM3(x) == 2 by {
      assert x[..1] == [3] && [3][..0] == [];
      assert CountM3([3]) == CountM3([]) + 1;
      assert CountM3(x) == CountM3(x[..1]) + 1;
    }
    assert Admitted(plain, inst, x, 3);
    BestStep(plain, inst, x, 4);
    BestStep(plain, inst, x, 5);
    BestStep(plain, inst, x, 6);
    if BestUpTo(plain, inst, x, 3).Some? {
      BesideIsBetter(row, scale, threshold, BestUpTo(plain, inst, x, 3).value);
    }
  }

  /** Row 1's move back costs less per margin gained than any of row 0. */
  lemma BesideIsBetter(row: Row, scale: int, threshold: int, id: nat)
    requires row[2] == Some(0) && 0 < threshold < scale && id < 3
    requires var inst := InContext(row, [BESIDE], scale, threshold);
      inst.Complete([3, 3]) && Raises(inst, [3, 3], id) && Offers(inst, 3)
    ensures Better(InContext(row, [BESIDE], scale, threshold), [3, 3], 3, id)
  {
    var inst, x := InContext(row, [BESIDE], scale, threshold), [3, 3];
    assert inst.rows[0] == row && inst.rows[1] == BESIDE;
    var a, u := inst.Cost(0, MethodOf(id)), scale - threshold;
    assert Change(inst, TOTAL, x, id) == a && Change(inst, inst.Linear(), x, id) == u * a;
    assert Change(inst, TOTAL, x, 3) == 1 && Change(inst, inst.Linear(), x, 3) == u * 2 + threshold;
    assert a > 0;
    LessPerMargin(u, threshold, a);
  }

  lemma LessPerMargin(u: int, t: int, a: int)
    requires 0 < u && 0 < t && 0 < a
    ensures 1 * (u * a) < a * (u * 2 + t)
  {
    MulStrict(0, u, a);
    MulStrict(0, t, a);
  }

  /** At a positive threshold every free method 3 makes the rounds go back and forth. */
  lemma FreeOscillates(row: Row, scale: int, threshold: int)
    requires row[2] == Some(0) && 0 < threshold < scale
    ensures var inst := InContext(row, [BESIDE], scale, threshold);
      inst.Complete([3, 3]) && Rounds(inst, [3, 3], 6) == [3, 3] && Repaired(inst, [3, 3]) == [3, 1]
  {
    var inst, x, y := InContext(row, [BESIDE], scale, threshold), [3, 3], [3, 1];
    assert inst.rows[0] == row && inst.rows[1] == BESIDE;
    PairSums(inst, 3, 3);
    BringsBesideIn(row, scale, threshold);
    BesideMovesBack(false, row, scale, threshold);
    BesideMovesBack(true, row, scale, threshold);
    assert Moved(inst, x, 3) == y;
    assert Round(inst, x) == y;
    assert Climb(inst, y) == y;
    hide Round, Climb, Best;
    assert Rounds(inst, x, 6) == Rounds(inst, y, 5) == Rounds(inst, x, 4) == Rounds(inst, y, 3)
        == Rounds(inst, x, 2) == Rounds(inst, y, 1) == x;
  }

  /** At threshold 0 the plain repair stops at the free method 3 of a paid row, and the rounds go on. */
  lemma FreeStops(row: Row, scale: int, m: int)
    requires row[2] == Some(0) && 0 < scale && 1 <= m <= 2 && row[m - 1].Some? && row[m - 1].value > 0
    ensures var inst := InContext(row, [BESIDE], scale, 0);
      inst.Complete([m, 1]) && Rounds(inst, [m, 1], 6) == [3, 3] && Repaired(inst, [m, 1]) == [3, 1]
  {
    var inst, x, y, z := InContext(row, [BESIDE], scale, 0), [m, 1], [3, 1], [3, 3];
    assert inst.rows[0] == row && inst.rows[1] == BESIDE;
    PairSums(inst, m, 1);
    PairSums(inst, 3, 3);
    BringsBesideIn(row, scale, 0);
    assert ThirdUpTo(inst, x, 0) == None;
    assert ThirdUpTo(inst, x, 1) == Some(2);
    assert ThirdUpTo(inst, x, 2) == Some(2);
    assert Round(inst, x) == y && Start(inst, x) == y;
    assert Climb(inst, y) == y;
    inst.SumParts(z);
    ContextValid(row, [BESIDE], scale, 0);
    ZeroMargin(inst, z, 4);
    assert Rounds(inst, x, 6) == Rounds(inst, y, 5) == Rounds(inst, z, 4);
  }

  /**
   The exact condition: next to any rows without a free method 3 the rounds reach the plain repair if
   and only if the row's method 3 is not free, or the threshold is 0 and the row's other methods are
   free too; and then they follow it move by move.
   */
  lemma RowIsSteady(row: Row, scale: int, threshold: int)
    requires 0 <= threshold < scale && AnyMethod(row)
    ensures SteadyRow(row, threshold) <==>
      forall rest: seq<Row> :: (forall j :: 0 <= j < |rest| ==> PaidRow(rest[j])) ==>
        Agrees(InContext(row, rest, scale, threshold))
    ensures SteadyRow(row, threshold) ==>
      forall rest: seq<Row> :: (forall j :: 0 <= j < |rest| ==> PaidRow(rest[j])) ==>
        Follows(InContext(row, rest, scale, threshold))
  {
    hide Agrees, Follows, Rounds, Repaired;
    if SteadyRow(row, threshold) {
      forall rest: seq<Row> | forall j :: 0 <= j < |rest| ==> PaidRow(rest[j])
        ensures Follows(InContext(row, rest, scale, threshold)) && Agrees(InContext(row, rest, scale, threshold))
      {
        var inst := InContext(row, rest, scale, threshold);
        ContextValid(row, rest, scale, threshold);
        forall i | 0 <= i < |inst.rows|
          ensures SteadyRow(inst.rows[i], threshold)
        {
          assert i > 0 ==> PaidRow(rest[i - 1]) && inst.rows[i] == rest[i - 1];
        }
        SteadyRowsFollow(inst);
        FollowsAgrees(inst);
      }
    } else {
      UnsteadyDisagrees(row, scale, threshold);
      assert forall j :: 0 <= j < |[BESIDE]| ==> PaidRow([BESIDE][j]);
    }
  }

  lemma UnsteadyDisagrees(row: Row, scale: int, threshold: int)
    requires 0 <= threshold < scale && !SteadyRow(row, threshold)
    ensures !Agrees(InContext(row, [BESIDE], scale, threshold))
  {
    hide Rounds, Repaired;
    var inst := InContext(row, [BESIDE], scale, threshold);
    if threshold > 0 {
      FreeOscillates(row, scale, threshold);
      assert 3 * |[3, 3]| == 6;
    } else {
      var m := if row[0].Some? && row[0].value > 0 then 1 else 2;
      FreeStops(row, scale, m);
      assert 3 * |[m, 1]| == 6;
    }
  }
}
