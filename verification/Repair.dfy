/**
 The greedy repair of an infeasible assignment, in exact arithmetic: the plain loop, and the
 fixed-length sequence of rounds that the confidential optimizer runs instead. The rounds reach the
 result of the loop.

 A move is numbered by row and method, as in the source: 3 * row + (method - 1).
 */
module Repairs {
  import opened Wrappers
  import opened NumberTheory
  import opened CostModel

  function RowOf(id: nat): nat {
    id / 3
  }

  function MethodOf(id: nat): int {
    id % 3 + 1
  }

  predicate Offers(inst: Instance, id: nat) {
    inst.Has(RowOf(id), MethodOf(id))
  }

  function Moved(inst: Instance, x: Assignment, id: nat): (y: Assignment)
    requires inst.Complete(x) && Offers(inst, id)
    ensures inst.Complete(y)
  {
    x[RowOf(id) := MethodOf(id)]
  }

  /** What a move adds to the sum weighted by w. */
  function Change(inst: Instance, w: Weight, x: Assignment, id: nat): int
    requires inst.Complete(x) && Offers(inst, id)
  {
    inst.Term(w, RowOf(id), MethodOf(id)) - inst.Term(w, RowOf(id), x[RowOf(id)])
  }

  lemma ChangeIs(inst: Instance, w: Weight, x: Assignment, id: nat)
    requires inst.Complete(x) && Offers(inst, id)
    ensures inst.Sum(w, Moved(inst, x, id)) == inst.Sum(w, x) + Change(inst, w, x, id)
  {
    inst.SumUpdate(w, x, RowOf(id), MethodOf(id));
  }

  /** How many rows run method 3. */
  function CountM3(x: Assignment): nat {
    if x == [] then 0 else CountM3(x[..|x| - 1]) + if x[|x| - 1] == 3 then 1 else 0
  }

  lemma {:induction false} CountM3Update(x: Assignment, i: nat, m: int)
    requires i < |x|
    ensures CountM3(x[i := m]) == CountM3(x) - (if x[i] == 3 then 1 else 0) + (if m == 3 then 1 else 0)
  {
    var d := |x| - 1;
    if i < d {
      CountM3Update(x[..d], i, m);
      assert x[i := m][..d] == x[..d][i := m];
    } else {
      assert x[i := m][..d] == x[..d];
    }
  }

  /** Every method-3 cost is positive. */
  ghost predicate PositiveThirds(inst: Instance) {
    forall i :: inst.Has(i, 3) ==> inst.Cost(i, 3) > 0
  }

  lemma {:induction false} CountM3Means(inst: Instance, x: Assignment)
    requires inst.Partial(x)
    ensures inst.Sum(C3, x) > 0 ==> CountM3(x) > 0
    ensures PositiveThirds(inst) && CountM3(x) > 0 ==> inst.Sum(C3, x) > 0
  {
    if x != [] {
      CountM3Means(inst, x[..|x| - 1]);
      inst.SumParts(x[..|x| - 1]);
    }
  }

  // ---------------------------------------------------------------- which move is made

  /** The row, among the first n, where running method 3 adds the least cost; the first of equals. */
  function ThirdUpTo(inst: Instance, x: Assignment, n: nat): (r: Option<nat>)
    requires inst.Complete(x) && n <= |x|
    ensures r.Some? ==> r.value < 3 * n && Offers(inst, r.value) && MethodOf(r.value) == 3
  {
    if n == 0 then None else
      var best := ThirdUpTo(inst, x, n - 1);
      var id := 3 * (n - 1) + 2;
      if inst.Has(n - 1, 3) && (best.None? || Change(inst, TOTAL, x, id) < Change(inst, TOTAL, x, best.value))
      then Some(id) else best
  }

  /** The chosen row adds the least cost, and no earlier row adds as little. */
  lemma {:induction false} ThirdIsLeast(inst: Instance, x: Assignment, n: nat, i: nat)
    requires inst.Complete(x) && i < n <= |x| && inst.Has(i, 3)
    ensures var best := ThirdUpTo(inst, x, n);
      && Offers(inst, 3 * i + 2) && best.Some?
      && Change(inst, TOTAL, x, best.value) <= Change(inst, TOTAL, x, 3 * i + 2)
      && (3 * i + 2 < best.value ==> Change(inst, TOTAL, x, best.value) < Change(inst, TOTAL, x, 3 * i + 2))
  {
    hide Change;
    if i < n - 1 {
      ThirdIsLeast(inst, x, n - 1, i);
    }
  }

  predicate Raises(inst: Instance, x: Assignment, id: nat)
    requires inst.Complete(x)
  {
    Offers(inst, id) && Change(inst, inst.Linear(), x, id) > 0
  }

  /** A move of the plain loop raises the margin and does not give up the last method 3. */
  predicate PlainMove(inst: Instance, x: Assignment, id: nat)
    requires inst.Complete(x)
  {
    Raises(inst, x, id) && !(x[RowOf(id)] == 3 && MethodOf(id) != 3 && CountM3(x) == 1)
  }

  /** A move that the oblivious scan admits. */
  predicate ObliviousMove(inst: Instance, x: Assignment, id: nat)
    requires inst.Complete(x)
  {
    && Raises(inst, x, id)
    && (MethodOf(id) != 3 ==> CountM3(x) - (if x[RowOf(id)] == 3 then 1 else 0) > 0)
    && (MethodOf(id) == 3 ==> inst.Sum(C3, x) > 0)
  }

  predicate Admitted(plain: bool, inst: Instance, x: Assignment, id: nat)
    requires inst.Complete(x)
  {
    if plain then PlainMove(inst, x, id) else ObliviousMove(inst, x, id)
  }

  /** Exactly which moves are admitted, by what they do to the sums: the last method 3 is not given up. */
  lemma AdmittedExactly(inst: Instance, x: Assignment, i: nat, m: int)
    requires inst.Complete(x) && inst.Has(i, m)
    ensures var (id, y) := (3 * i + (m - 1), x[i := m]);
      && inst.Complete(y)
      && (PlainMove(inst, x, id) <==>
            && inst.Sum(inst.Linear(), x) < inst.Sum(inst.Linear(), y)
            && !(x[i] == 3 && m != 3 && CountM3(x) == 1))
      && (ObliviousMove(inst, x, id) <==>
            && inst.Sum(inst.Linear(), x) < inst.Sum(inst.Linear(), y)
            && (m != 3 ==> CountM3(y) > 0)
            && (m == 3 ==> inst.Sum(C3, x) > 0))
      && Change(inst, TOTAL, x, id) == inst.Sum(TOTAL, y) - inst.Sum(TOTAL, x)
      && Change(inst, inst.Linear(), x, id) == inst.Sum(inst.Linear(), y) - inst.Sum(inst.Linear(), x)
  {
    var id := 3 * i + (m - 1);
    assert RowOf(id) == i && MethodOf(id) == m;
    ChangeIs(inst, TOTAL, x, id);
    ChangeIs(inst, inst.Linear(), x, id);
    CountM3Update(x, i, m);
  }

  /** Less cost for the margin gained, cross-multiplied. */
  predicate Better(inst: Instance, x: Assignment, a: nat, b: nat)
    requires inst.Complete(x) && Offers(inst, a) && Offers(inst, b)
  {
    Change(inst, TOTAL, x, a) * Change(inst, inst.Linear(), x, b)
      < Change(inst, TOTAL, x, b) * Change(inst, inst.Linear(), x, a)
  }

  /** The best admitted move numbered below n; the first of equals. */
  function BestUpTo(plain: bool, inst: Instance, x: Assignment, n: nat): (r: Option<nat>)
    requires inst.Complete(x)
    ensures r.Some? ==> r.value < n && Admitted(plain, inst, x, r.value)
    ensures r.None? ==> forall id: nat :: id < n ==> !Admitted(plain, inst, x, id)
  {
    if n == 0 then None else
      var best := BestUpTo(plain, inst, x, n - 1);
      if Admitted(plain, inst, x, n - 1) && (best.None? || Better(inst, x, n - 1, best.value))
      then Some(n - 1) else best
  }

  function Best(plain: bool, inst: Instance, x: Assignment): (r: Option<nat>)
    requires inst.Complete(x)
    ensures r.Some? ==> Admitted(plain, inst, x, r.value)
    ensures r.None? ==> forall id: nat :: !Admitted(plain, inst, x, id)
  {
    assert forall id: nat :: Offers(inst, id) ==> id < 3 * |x|;
    BestUpTo(plain, inst, x, 3 * |x|)
  }

  /** One step of the scan. */
  lemma BestStep(plain: bool, inst: Instance, x: Assignment, n: nat)
    requires inst.Complete(x) && 0 < n
    ensures var prior, best := BestUpTo(plain, inst, x, n - 1), BestUpTo(plain, inst, x, n);
      if Admitted(plain, inst, x, n - 1) && (prior.None? || Better(inst, x, n - 1, prior.value))
      then best == Some(n - 1) else best == prior
  {
  }

  /** The chosen move is one of the least cost per margin gained. */
  lemma {:induction false} BestIsLeast(plain: bool, inst: Instance, x: Assignment, n: nat, id: nat)
    requires inst.Complete(x) && id < n && Admitted(plain, inst, x, id)
    ensures BestUpTo(plain, inst, x, n).Some? && !Better(inst, x, id, BestUpTo(plain, inst, x, n).value)
  {
    hide Better, Raises, Change, Offers, Admitted, BestUpTo, Instance.Complete;
    var prior, best := BestUpTo(plain, inst, x, n - 1), BestUpTo(plain, inst, x, n);
    AdmittedRaises(plain, inst, x);
    BestStep(plain, inst, x, n);
    if id == n - 1 {
      BetterAsymmetric(inst, x, id, id);
    } else {
      BestIsLeast(plain, inst, x, n - 1, id);
      if best != prior {
        BetterTransitive(inst, x, n - 1, prior.value, id);
        BetterAsymmetric(inst, x, n - 1, id);
      }
    }
  }

  /** It is the first of these. */
  lemma {:induction false} BestIsFirst(plain: bool, inst: Instance, x: Assignment, n: nat, id: nat)
    requires inst.Complete(x) && Admitted(plain, inst, x, id)
    requires BestUpTo(plain, inst, x, n).Some? && id < BestUpTo(plain, inst, x, n).value
    ensures Better(inst, x, BestUpTo(plain, inst, x, n).value, id)
  {
    hide Better, Raises, Change, Offers, Admitted, BestUpTo, Instance.Complete;
    var prior, best := BestUpTo(plain, inst, x, n - 1), BestUpTo(plain, inst, x, n);
    AdmittedRaises(plain, inst, x);
    BestStep(plain, inst, x, n);
    if best == prior {
      BestIsFirst(plain, inst, x, n - 1, id);
    } else {
      BestIsLeast(plain, inst, x, n - 1, id);
      BetterTransitive(inst, x, n - 1, prior.value, id);
    }
  }

  lemma AdmittedRaises(plain: bool, inst: Instance, x: Assignment)
    requires inst.Complete(x)
    ensures forall id: nat :: Admitted(plain, inst, x, id) ==> Offers(inst, id) && Raises(inst, x, id)
  {
  }

  lemma BetterAsymmetric(inst: Instance, x: Assignment, a: nat, b: nat)
    requires inst.Complete(x) && Offers(inst, a) && Offers(inst, b)
    ensures !(Better(inst, x, a, b) && Better(inst, x, b, a))
  {
  }

  /** Cheaper per margin than a move that is not worse than id. */
  lemma BetterTransitive(inst: Instance, x: Assignment, a: nat, b: nat, id: nat)
    requires inst.Complete(x) && Raises(inst, x, a) && Raises(inst, x, b) && Raises(inst, x, id)
    requires Better(inst, x, a, b) && !Better(inst, x, id, b)
    ensures Better(inst, x, a, id)
  {
    var l := inst.Linear();
    CrossTransitive(Change(inst, TOTAL, x, a), Change(inst, l, x, a), Change(inst, TOTAL, x, b), Change(inst, l, x, b),
                    Change(inst, TOTAL, x, id), Change(inst, l, x, id));
  }

  lemma CrossTransitive(p: int, q: int, r: int, s: int, t: int, u: int)
    requires 0 < q && 0 < s && 0 < u && p * s < r * q && r * u <= t * s
    ensures p * u < t * q
  {
    MulStrict(p * s, r * q, u);
    MulMono(r * u, t * s, q);
    assert p * s * u == p * u * s && r * q * u == r * u * q && t * s * q == t * q * s;
    if p * u >= t * q {
      MulMono(t * q, p * u, s);
    }
  }

  // ---------------------------------------------------------------- the plain loop

  /** How many methods of row i have a larger margin than method m. */
  function Above(inst: Instance, i: int, m: int): nat
    requires inst.Has(i, m)
  {
    (if inst.Has(i, 1) && inst.Term(inst.Linear(), i, 1) > inst.Term(inst.Linear(), i, m) then 1 else 0)
    + (if inst.Has(i, 2) && inst.Term(inst.Linear(), i, 2) > inst.Term(inst.Linear(), i, m) then 1 else 0)
    + (if inst.Has(i, 3) && inst.Term(inst.Linear(), i, 3) > inst.Term(inst.Linear(), i, m) then 1 else 0)
  }

  function Room(inst: Instance, x: Assignment): nat
    requires inst.Partial(x)
  {
    if x == [] then 0 else
      var d := |x| - 1;
      Room(inst, x[..d]) + Above(inst, d, x[d])
  }

  lemma {:induction false} RoomBound(inst: Instance, x: Assignment)
    requires inst.Partial(x)
    ensures Room(inst, x) <= 2 * |x|
  {
    if x != [] {
      RoomBound(inst, x[..|x| - 1]);
    }
  }

  lemma {:induction false} RoomUpdate(inst: Instance, x: Assignment, i: nat, m: int)
    requires inst.Partial(x) && i < |x| && inst.Has(i, m)
    ensures inst.Partial(x[i := m])
    ensures Room(inst, x[i := m]) == Room(inst, x) - Above(inst, i, x[i]) + Above(inst, i, m)
  {
    var d := |x| - 1;
    if i < d {
      RoomUpdate(inst, x[..d], i, m);
      assert x[i := m][..d] == x[..d][i := m];
    } else {
      assert x[i := m][..d] == x[..d];
    }
  }

  /** Every move that raises the margin uses up room. */
  lemma RoomFalls(inst: Instance, x: Assignment, id: nat)
    requires inst.Complete(x) && Raises(inst, x, id)
    ensures Room(inst, Moved(inst, x, id)) < Room(inst, x)
  {
    RoomUpdate(inst, x, RowOf(id), MethodOf(id));
  }

  /** The assignment at which the loop stops. */
  ghost function Climb(inst: Instance, x: Assignment): (y: Assignment)
    requires inst.Complete(x)
    ensures inst.Complete(y)
    decreases Room(inst, x)
  {
    if inst.Sum(inst.Linear(), x) >= 0 then x
    else match Best(true, inst, x)
      case None => x
      case Some(id) =>
        RoomFalls(inst, x, id);
        Climb(inst, Moved(inst, x, id))
  }

  /** How many moves the loop makes. */
  ghost function Moves(inst: Instance, x: Assignment): nat
    requires inst.Complete(x)
    decreases Room(inst, x)
  {
    if inst.Sum(inst.Linear(), x) >= 0 then 0
    else match Best(true, inst, x)
      case None => 0
      case Some(id) =>
        RoomFalls(inst, x, id);
        1 + Moves(inst, Moved(inst, x, id))
  }

  /** Where the loop starts: with some method-3 cost, if a row can supply it. */
  ghost function Start(inst: Instance, x: Assignment): (y: Assignment)
    requires inst.Complete(x)
    ensures inst.Complete(y)
  {
    match ThirdUpTo(inst, x, |x|)
    case Some(id) => if inst.Sum(C3, x) == 0 then Moved(inst, x, id) else x
    case None => x
  }

  /** The assignment that the plain repair leaves. */
  ghost function Repaired(inst: Instance, x: Assignment): (y: Assignment)
    requires inst.Complete(x)
    ensures inst.Complete(y)
  {
    if inst.Sum(C3, x) == 0 && ThirdUpTo(inst, x, |x|).None? then x else Climb(inst, Start(inst, x))
  }

  /** The plain repair, step by step: nothing at a non-negative margin, else the best move and on from there. */
  lemma RepairSteps(inst: Instance, x: Assignment)
    requires inst.Complete(x)
    ensures inst.Sum(inst.Linear(), x) >= 0 || Best(true, inst, x).None? ==> Climb(inst, x) == x
    ensures inst.Sum(inst.Linear(), x) < 0 && Best(true, inst, x).Some? ==>
      var id := Best(true, inst, x).value;
      inst.Complete(x[id / 3 := id % 3 + 1]) && Climb(inst, x) == Climb(inst, x[id / 3 := id % 3 + 1])
    ensures inst.Sum(C3, x) > 0 ==> Repaired(inst, x) == Climb(inst, x)
    ensures inst.Sum(C3, x) == 0 ==>
      match ThirdUpTo(inst, x, |x|)
      case None => Repaired(inst, x) == x
      case Some(id) => inst.Complete(x[id / 3 := 3]) && Repaired(inst, x) == Climb(inst, x[id / 3 := 3])
  {
    hide BestUpTo, ThirdUpTo, Instance.Sum;
    if inst.Sum(inst.Linear(), x) < 0 && Best(true, inst, x).Some? {
      var id := Best(true, inst, x).value;
      assert Moved(inst, x, id) == x[id / 3 := id % 3 + 1];
    }
    if ThirdUpTo(inst, x, |x|).Some? {
      var id := ThirdUpTo(inst, x, |x|).value;
      assert Moved(inst, x, id) == x[id / 3 := 3];
    }
  }

  /** Every move raises the margin, so the loop ends within two moves a row. */
  lemma {:induction false} MovesBound(inst: Instance, x: Assignment)
    requires inst.Complete(x)
    ensures Moves(inst, x) <= Room(inst, x) <= 2 * |x|
    decreases Room(inst, x)
  {
    RoomBound(inst, x);
    if inst.Sum(inst.Linear(), x) < 0 && Best(true, inst, x).Some? {
      var id := Best(true, inst, x).value;
      RoomFalls(inst, x, id);
      MovesBound(inst, Moved(inst, x, id));
    }
  }

  /** Where the loop stops: at a margin that is not negative, or where no move is left. */
  lemma {:induction false} ClimbEnds(inst: Instance, x: Assignment)
    requires inst.Complete(x)
    ensures var y := Climb(inst, x);
      && inst.Sum(inst.Linear(), x) <= inst.Sum(inst.Linear(), y)
      && (inst.Sum(inst.Linear(), y) < 0 ==> forall id: nat :: !Admitted(true, inst, y, id))
    decreases Room(inst, x)
  {
    if inst.Sum(inst.Linear(), x) < 0 && Best(true, inst, x).Some? {
      var id := Best(true, inst, x).value;
      RoomFalls(inst, x, id);
      ChangeIs(inst, inst.Linear(), x, id);
      ClimbEnds(inst, Moved(inst, x, id));
    }
  }

  // ---------------------------------------------------------------- the oblivious rounds

  /** The move of one round; number 0 when the scans found nothing. */
  ghost function RoundMove(inst: Instance, x: Assignment): nat
    requires inst.Complete(x)
  {
    var chosen := if inst.Sum(C3, x) > 0 then Best(false, inst, x) else ThirdUpTo(inst, x, |x|);
    if chosen.Some? then chosen.value else 0
  }

  ghost predicate RoundApplies(inst: Instance, x: Assignment)
    requires inst.Complete(x)
  {
    && !inst.Feasible(x)
    && (Best(false, inst, x).Some? || (inst.Sum(C3, x) <= 0 && ThirdUpTo(inst, x, |x|).Some?))
  }

  /** One round, on all inputs. */
  ghost function Round(inst: Instance, x: Assignment): (y: Assignment)
    requires inst.Complete(x)
    ensures inst.Complete(y)
  {
    if RoundApplies(inst, x) && Offers(inst, RoundMove(inst, x)) then Moved(inst, x, RoundMove(inst, x)) else x
  }

  /** What one round does: nothing to a feasible assignment, else the best admitted move, or bringing method 3 in. */
  lemma RoundExactly(inst: Instance, x: Assignment)
    requires inst.Complete(x)
    ensures inst.Feasible(x) ==> Round(inst, x) == x
    ensures !inst.Feasible(x) ==>
      match (if inst.Sum(C3, x) > 0 then Best(false, inst, x) else ThirdUpTo(inst, x, |x|))
      case None => Round(inst, x) == x
      case Some(id) => Round(inst, x) == x[id / 3 := id % 3 + 1]
  {
    hide BestUpTo, ThirdUpTo, Instance.Sum, CountM3, Change;
    if inst.Sum(C3, x) <= 0 && ThirdUpTo(inst, x, |x|).None? && Best(false, inst, x).Some? {
      NoThirdNoMove(inst, x);
    }
  }

  /** Without a row that can run method 3 no move is admitted while method 3 costs nothing. */
  lemma NoThirdNoMove(inst: Instance, x: Assignment)
    requires inst.Complete(x) && inst.Sum(C3, x) <= 0 && ThirdUpTo(inst, x, |x|).None?
    ensures Best(false, inst, x).None?
  {
    forall i | 0 <= i < |x|
      ensures x[i] != 3
    {
      if inst.Has(i, 3) {
        ThirdIsLeast(inst, x, |x|, i);
      }
    }
    NoThirds(x);
  }

  lemma {:induction false} NoThirds(x: Assignment)
    requires forall i :: 0 <= i < |x| ==> x[i] != 3
    ensures CountM3(x) == 0
  {
    if x != [] {
      NoThirds(x[..|x| - 1]);
    }
  }

  ghost function Rounds(inst: Instance, x: Assignment, k: nat): (y: Assignment)
    requires inst.Complete(x)
    ensures inst.Complete(y)
    decreases k
  {
    if k == 0 then x else Rounds(inst, Round(inst, x), k - 1)
  }

  lemma {:induction false} RoundsStay(inst: Instance, x: Assignment, k: nat)
    requires inst.Complete(x) && Round(inst, x) == x
    ensures Rounds(inst, x, k) == x
    decreases k
  {
    if k > 0 {
      RoundsStay(inst, x, k - 1);
    }
  }

  /** With method-3 cost in place the two scans admit the same moves; without it the oblivious one admits none. */
  lemma MovesAgree(inst: Instance, x: Assignment)
    requires inst.Complete(x) && PositiveThirds(inst)
    ensures inst.Sum(C3, x) > 0 ==> Best(true, inst, x) == Best(false, inst, x)
    ensures inst.Sum(C3, x) <= 0 ==> Best(false, inst, x) == None
  {
    CountM3Means(inst, x);
    if inst.Sum(C3, x) > 0 {
      forall id: nat
        ensures PlainMove(inst, x, id) <==> ObliviousMove(inst, x, id)
      {
      }
      ScansAgree(inst, x, 3 * |x|);
    }
  }

  lemma {:induction false} ScansAgree(inst: Instance, x: Assignment, n: nat)
    requires inst.Complete(x) && forall id: nat :: PlainMove(inst, x, id) <==> ObliviousMove(inst, x, id)
    ensures BestUpTo(true, inst, x, n) == BestUpTo(false, inst, x, n)
  {
    if n > 0 {
      ScansAgree(inst, x, n - 1);
    }
  }

  /** An admitted move leaves method-3 cost in place. */
  lemma ThirdsRemain(inst: Instance, x: Assignment, id: nat)
    requires inst.Complete(x) && PositiveThirds(inst) && ObliviousMove(inst, x, id)
    ensures inst.Sum(C3, Moved(inst, x, id)) > 0
  {
    CountM3Update(x, RowOf(id), MethodOf(id));
    CountM3Means(inst, x);
    CountM3Means(inst, Moved(inst, x, id));
  }

  /** With method-3 cost in place a round is one iteration of the loop. */
  lemma RoundIsIteration(inst: Instance, x: Assignment)
    requires inst.Complete(x) && PositiveThirds(inst) && inst.Sum(C3, x) > 0
    ensures var best := Best(true, inst, x);
      if inst.Sum(inst.Linear(), x) >= 0 || best.None? then Round(inst, x) == x
      else Round(inst, x) == Moved(inst, x, best.value) && inst.Sum(C3, Moved(inst, x, best.value)) > 0
  {
    MovesAgree(inst, x);
    hide Best;
    var best := Best(false, inst, x);
    if best.Some? {
      ThirdsRemain(inst, x, best.value);
    }
  }

  /** The loop, stopped after k moves. */
  ghost function ClimbFor(inst: Instance, x: Assignment, k: nat): (y: Assignment)
    requires inst.Complete(x)
    ensures inst.Complete(y)
    decreases k
  {
    if k == 0 || inst.Sum(inst.Linear(), x) >= 0 then x
    else match Best(true, inst, x)
      case None => x
      case Some(id) => ClimbFor(inst, Moved(inst, x, id), k - 1)
  }

  /** The plain repair, stopped after k moves; bringing method-3 cost in is the first of them. */
  ghost function RepairedFor(inst: Instance, x: Assignment, k: nat): (y: Assignment)
    requires inst.Complete(x)
    ensures inst.Complete(y)
  {
    if inst.Sum(C3, x) > 0 then ClimbFor(inst, x, k)
    else if k == 0 || ThirdUpTo(inst, x, |x|).None? then x
    else ClimbFor(inst, Start(inst, x), k - 1)
  }

  /** How many moves the plain repair makes. */
  ghost function RepairMoves(inst: Instance, x: Assignment): nat
    requires inst.Complete(x)
  {
    if inst.Sum(C3, x) > 0 then Moves(inst, x)
    else if ThirdUpTo(inst, x, |x|).None? then 0
    else 1 + Moves(inst, Start(inst, x))
  }

  lemma {:induction false} ClimbForEnough(inst: Instance, x: Assignment, k: nat)
    requires inst.Complete(x) && Moves(inst, x) <= k
    ensures ClimbFor(inst, x, k) == Climb(inst, x)
    decreases k
  {
    if inst.Sum(inst.Linear(), x) < 0 && Best(true, inst, x).Some? {
      ClimbForEnough(inst, Moved(inst, x, Best(true, inst, x).value), k - 1);
    }
  }

  /** Stopping after at least as many moves as it makes is not stopping it; three a row are enough. */
  lemma RepairedForEnough(inst: Instance, x: Assignment, k: nat)
    requires inst.Complete(x)
    ensures RepairMoves(inst, x) <= k ==> RepairedFor(inst, x, k) == Repaired(inst, x)
    ensures RepairMoves(inst, x) <= 3 * |x|
  {
    hide ThirdUpTo, Best, Climb, ClimbFor, Moves, Instance.Sum, Instance.Has;
    inst.SumParts(x);
    MovesBound(inst, x);
    MovesBound(inst, Start(inst, x));
    if RepairMoves(inst, x) <= k {
      if inst.Sum(C3, x) > 0 {
        ClimbForEnough(inst, x, k);
      } else if ThirdUpTo(inst, x, |x|).Some? {
        ClimbForEnough(inst, Start(inst, x), k - 1);
      }
    }
  }

  /** From method-3 cost on, k rounds are the loop stopped after k moves. */
  lemma {:induction false} RoundsClimb(inst: Instance, x: Assignment, k: nat)
    requires inst.Complete(x) && PositiveThirds(inst) && inst.Sum(C3, x) > 0
    ensures Rounds(inst, x, k) == ClimbFor(inst, x, k)
    decreases k
  {
    hide PositiveThirds, Instance.Sum, Best, Moved, Round;
    RoundIsIteration(inst, x);
    if inst.Sum(inst.Linear(), x) >= 0 || Best(true, inst, x).None? {
      RoundsStay(inst, x, k);
    } else if k > 0 {
      RoundsClimb(inst, Round(inst, x), k - 1);
    }
  }

  /** Without it a round is the move that brings method-3 cost in. */
  lemma RoundIsStart(inst: Instance, x: Assignment)
    requires inst.Complete(x) && PositiveThirds(inst) && inst.Sum(C3, x) <= 0
    ensures Round(inst, x) == Start(inst, x)
    ensures ThirdUpTo(inst, x, |x|).Some? ==> inst.Sum(C3, Start(inst, x)) > 0
  {
    hide Best, ThirdUpTo, ObliviousMove, PlainMove, Instance.Sum, CountM3;
    MovesAgree(inst, x);
    inst.SumParts(x);
    var third := ThirdUpTo(inst, x, |x|);
    if third.Some? {
      var y := Moved(inst, x, third.value);
      CountM3Update(x, RowOf(third.value), 1);
      CountM3Update(x, RowOf(third.value), 3);
      CountM3Means(inst, x);
      CountM3Means(inst, y);
    }
  }

  /**
   With positive method-3 costs, k rounds are the plain repair stopped after k moves, for every k; as
   many rounds as it makes moves, and always the default of three rounds a row, reach its result.
   */
  lemma RoundsRepair(inst: Instance, x: Assignment, k: nat)
    requires inst.Complete(x) && PositiveThirds(inst)
    ensures Rounds(inst, x, k) == RepairedFor(inst, x, k)
    ensures RepairMoves(inst, x) <= k ==> Rounds(inst, x, k) == Repaired(inst, x)
    ensures RepairMoves(inst, x) <= 3 * |x|
  {
    hide PositiveThirds, Instance.Sum, ThirdUpTo, Round, ClimbFor, RepairMoves, Repaired;
    RepairedForEnough(inst, x, k);
    if inst.Sum(C3, x) > 0 {
      RoundsClimb(inst, x, k);
    } else {
      RoundIsStart(inst, x);
      if ThirdUpTo(inst, x, |x|).None? {
        RoundsStay(inst, x, k);
      } else if k > 0 {
        RoundsClimb(inst, Round(inst, x), k - 1);
      }
    }
  }

  // ---------------------------------------------------------------- the plain repair, in place

  /** The order of two ratios is the order of their cross products. */
  lemma RatioOrder(p: int, q: int, r: int, s: int)
    requires 0 < q && 0 < s
    ensures p as real / q as real < r as real / s as real <==> p * s < r * q
  {
    var a, b := p as real / q as real, r as real / s as real;
    var qs := (q * s) as real;
    assert a * qs == (p * s) as real && b * qs == (r * q) as real by {
      assert a * q as real == p as real && b * s as real == r as real;
      assert qs == q as real * s as real;
    }
    if a < b {
      assert a * qs < b * qs;
    } else {
      assert b * qs <= a * qs;
    }
  }

  class Individual {
    var genes: seq<int>
    var total: int
    var c12: int
    var c3: int
    var linear: int
    var feasible: bool

    constructor (genes: seq<int>)
      ensures this.genes == genes
    {
      this.genes := genes;
      total, c12, c3, linear, feasible := 0, 0, 0, 0, false;
    }

    /** The cached aggregates are those of the genes. */
    ghost predicate Evaluated(inst: Instance)
      reads this
    {
      && inst.Complete(genes)
      && total == inst.Sum(TOTAL, genes) && c12 == inst.Sum(C12, genes) && c3 == inst.Sum(C3, genes)
      && linear == inst.Sum(inst.Linear(), genes) && feasible == inst.Feasible(genes)
    }

    method Evaluate(inst: Instance)
      requires inst.Complete(genes)
      modifies this`total, this`c12, this`c3, this`linear, this`feasible
      ensures Evaluated(inst)
    {
      total, c12, c3, linear := 0, 0, 0, 0;
      for i := 0 to |genes|
        invariant total == inst.Sum(TOTAL, genes[..i]) && linear == inst.Sum(inst.Linear(), genes[..i])
        invariant c12 == inst.Sum(C12, genes[..i]) && c3 == inst.Sum(C3, genes[..i])
      {
        assert genes[..i + 1][..i] == genes[..i];
        var c := inst.Cost(i, genes[i]);
        total := total + c;
        if genes[i] < 3 {
          c12 := c12 + c;
          linear := linear + (inst.scale - inst.threshold) * c;
        } else {
          c3 := c3 + c;
          linear := linear + -inst.threshold * c;
        }
      }
      assert genes[..|genes|] == genes;
      inst.SumParts(genes);
      feasible := linear >= 0 && c3 > 0 && total > 0;
    }

    /** The row where running method 3 adds the least. */
    method FindThird(inst: Instance) returns (best: Option<nat>)
      requires inst.Complete(genes)
      ensures best == ThirdUpTo(inst, genes, |genes|)
    {
      hide Instance.Has;
      best := None;
      var bestDelta := 0;
      for i := 0 to |genes|
        invariant best == ThirdUpTo(inst, genes, i)
        invariant best.Some? ==> bestDelta == Change(inst, TOTAL, genes, best.value)
      {
        if inst.Has(i, 3) {
          var delta := inst.Cost(i, 3) - inst.Cost(i, genes[i]);
          if best.None? || delta < bestDelta {
            best, bestDelta := Some(3 * i + 2), delta;
          }
        }
      }
    }

    method CountThirds() returns (count: nat)
      ensures count == CountM3(genes)
    {
      count := 0;
      for i := 0 to |genes|
        invariant count == CountM3(genes[..i])
      {
        assert genes[..i + 1][..i] == genes[..i];
        if genes[i] == 3 {
          count := count + 1;
        }
      }
      assert genes[..|genes|] == genes;
    }

    /** The move with the least cost per margin gained, by the scan over rows and methods. */
    method FindMove(inst: Instance) returns (best: Option<nat>)
      requires inst.Complete(genes)
      ensures best == Best(true, inst, genes)
    {
      hide Change, Admitted, Better, Ratio, Raises, Instance.Has;
      AdmittedRaises(true, inst, genes);
      var count := CountThirds();
      best := None;
      var bestRatio := 0.0;
      for i := 0 to |genes|
        invariant best == BestUpTo(true, inst, genes, 3 * i)
        invariant best.Some? ==> bestRatio == Ratio(inst, genes, best.value)
      {
        for m := 1 to 4
          invariant best == BestUpTo(true, inst, genes, 3 * i + (m - 1))
          invariant best.Some? ==> bestRatio == Ratio(inst, genes, best.value)
        {
          best, bestRatio := Weigh(inst, count, i, m, best, bestRatio);
        }
      }
    }

    /** One step of that scan. */
    method Weigh(inst: Instance, count: nat, i: nat, m: int, best: Option<nat>, bestRatio: real)
      returns (r: Option<nat>, ratio: real)
      requires inst.Complete(genes) && i < |genes| && 1 <= m <= 3 && count == CountM3(genes)
      requires best == BestUpTo(true, inst, genes, 3 * i + (m - 1))
      requires best.Some? ==> bestRatio == Ratio(inst, genes, best.value)
      ensures r == BestUpTo(true, inst, genes, 3 * i + m)
      ensures r.Some? ==> ratio == Ratio(inst, genes, r.value)
    {
      r, ratio := best, bestRatio;
      ghost var id := 3 * i + (m - 1);
      assert RowOf(id) == i && MethodOf(id) == m;
      var current := genes[i];
      if !inst.Has(i, m) || m == current || (current == 3 && m != 3 && count == 1) {
        return;
      }
      var deltaLinear := inst.Term(inst.Linear(), i, m) - inst.Term(inst.Linear(), i, current);
      if deltaLinear <= 0 {
        return;
      }
      var deltaCost := inst.Cost(i, m) - inst.Cost(i, current);
      var own := deltaCost as real / deltaLinear as real;
      assert own == Ratio(inst, genes, id);
      if best.Some? {
        RatioOrder(deltaCost, deltaLinear,
                   Change(inst, TOTAL, genes, best.value), Change(inst, inst.Linear(), genes, best.value));
      }
      if best.None? || own < bestRatio || (own == bestRatio && 3 * i + (m - 1) < best.value) {
        r, ratio := Some(3 * i + (m - 1)), own;
      }
    }

    /** repair: the genes become those of Repaired, with their aggregates. */
    method Repair(inst: Instance) returns (ok: bool)
      requires inst.Complete(genes)
      modifies this
      ensures genes == Repaired(inst, old(genes)) && Evaluated(inst) && ok == inst.Feasible(genes)
    {
      Evaluate(inst);
      inst.SumParts(genes);
      if c3 == 0 {
        var third := FindThird(inst);
        if third.None? {
          return false;
        }
        genes := Moved(inst, genes, third.value);
        Evaluate(inst);
      }
      while linear < 0
        invariant Evaluated(inst) && Climb(inst, genes) == Climb(inst, Start(inst, old(genes)))
        decreases Room(inst, genes)
      {
        var best := FindMove(inst);
        if best.None? {
          return false;
        }
        RoomFalls(inst, genes, best.value);
        genes := Moved(inst, genes, best.value);
        Evaluate(inst);
      }
      ok := feasible;
    }
  }

  /** A better move costs less per margin gained, as an exact ratio. */
  lemma BetterByRatio(inst: Instance, x: Assignment, a: nat, b: nat)
    requires inst.Complete(x) && Raises(inst, x, a) && Raises(inst, x, b)
    ensures Better(inst, x, a, b) <==>
      Change(inst, TOTAL, x, a) as real / Change(inst, inst.Linear(), x, a) as real
        < Change(inst, TOTAL, x, b) as real / Change(inst, inst.Linear(), x, b) as real
  {
    hide Change;
    RatioOrder(Change(inst, TOTAL, x, a), Change(inst, inst.Linear(), x, a),
               Change(inst, TOTAL, x, b), Change(inst, inst.Linear(), x, b));
  }

  function Ratio(inst: Instance, x: Assignment, id: nat): real
    requires inst.Complete(x) && Raises(inst, x, id)
  {
    Change(inst, TOTAL, x, id) as real / Change(inst, inst.Linear(), x, id) as real
  }
}
