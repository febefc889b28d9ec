/**
 How the genetic optimizers rank assignments: the plain order in exact arithmetic, the integers that
 the confidential optimizer compares instead, and the insertion network that keeps the best.
 */
module Rankings {
  import opened CostModel
  import PlainSearches

  // ---------------------------------------------------------------- the two orders

  /** The sum of the largest costs of all rows. */
  ghost function MaxTotal(inst: Instance): int
    requires inst.Valid()
  {
    PlainSearches.MaxPrefix(inst, |inst.rows|)
  }

  ghost function Penalty(inst: Instance, multiplier: int): int
    requires inst.Valid()
  {
    (MaxTotal(inst) + 1) * multiplier
  }

  /** The fitness of the plain optimizer: the cost, and penalties for what makes it infeasible. */
  ghost function PlainFitness(inst: Instance, multiplier: int, x: Assignment): real
    requires inst.Valid() && inst.Complete(x)
  {
    var linear := inst.Sum(inst.Linear(), x);
    var violation := if linear < 0 then -linear as real / inst.scale as real else 0.0;
    var missing := if inst.Sum(C3, x) == 0 then (MaxTotal(inst) + 1) as real else 0.0;
    inst.Sum(TOTAL, x) as real +
      if inst.Feasible(x) then 0.0 else Penalty(inst, multiplier) as real * (1.0 + violation + missing)
  }

  /** The plain optimizer's order of individuals. */
  ghost predicate PlainOrder(inst: Instance, multiplier: int, a: Assignment, b: Assignment)
    requires inst.Valid() && inst.Complete(a) && inst.Complete(b)
  {
    var (totalA, totalB) := (inst.Sum(TOTAL, a), inst.Sum(TOTAL, b));
    var (lhs, rhs) := (inst.Sum(inst.Linear(), a) * totalB, inst.Sum(inst.Linear(), b) * totalA);
    var (fitnessA, fitnessB) := (PlainFitness(inst, multiplier, a), PlainFitness(inst, multiplier, b));
    if inst.Feasible(a) != inst.Feasible(b) then inst.Feasible(a)
    else if inst.Feasible(a) && totalA != totalB then totalA < totalB
    else if inst.Feasible(a) && lhs != rhs then lhs < rhs
    else if !inst.Feasible(a) && fitnessA != fitnessB then fitnessA < fitnessB
    else LexLess(a, b)
  }

  /** The fitness on the common integer scale, as the confidential optimizer adds it up. */
  ghost function Fitness(inst: Instance, multiplier: int, x: Assignment): int
    requires inst.Valid() && inst.Complete(x)
  {
    var penalty, linear := Penalty(inst, multiplier), inst.Sum(inst.Linear(), x);
    (inst.Sum(TOTAL, x) * inst.scale + penalty * inst.scale)
      + (penalty * (if linear < 0 then -linear else 0)
         + penalty * ((MaxTotal(inst) + 1) * inst.scale) * (if inst.Sum(C3, x) > 0 then 0 else 1))
  }

  /** What is compared first, and second, within a class. */
  ghost function First(inst: Instance, multiplier: int, x: Assignment): int
    requires inst.Valid() && inst.Complete(x)
  {
    if inst.Feasible(x) then inst.Sum(TOTAL, x) else Fitness(inst, multiplier, x)
  }

  ghost function Second(inst: Instance, x: Assignment): int
    requires inst.Valid() && inst.Complete(x)
  {
    if inst.Feasible(x) then inst.Sum(inst.Linear(), x) else 0
  }

  /** The order that the confidential optimizer's comparisons compute. */
  ghost predicate Precedes(inst: Instance, multiplier: int, a: Assignment, b: Assignment)
    requires inst.Valid() && inst.Complete(a) && inst.Complete(b)
  {
    if inst.Feasible(a) != inst.Feasible(b) then inst.Feasible(a)
    else if First(inst, multiplier, a) != First(inst, multiplier, b) then
      First(inst, multiplier, a) < First(inst, multiplier, b)
    else if Second(inst, a) != Second(inst, b) then Second(inst, a) < Second(inst, b)
    else LexLess(a, b)
  }

  lemma FitnessScaled(inst: Instance, multiplier: int, x: Assignment)
    requires inst.Valid() && inst.Complete(x) && !inst.Feasible(x)
    ensures Fitness(inst, multiplier, x) as real == inst.scale as real * PlainFitness(inst, multiplier, x)
  {
    hide Instance.Sum, MaxTotal, Penalty;
    inst.SumParts(x);
    var s, p, m := inst.scale as real, Penalty(inst, multiplier) as real, (MaxTotal(inst) + 1) as real;
    var linear := inst.Sum(inst.Linear(), x);
    var v := if linear < 0 then -linear as real else 0.0;
    var missing := if inst.Sum(C3, x) == 0 then 1.0 else 0.0;
    assert PlainFitness(inst, multiplier, x)
        == inst.Sum(TOTAL, x) as real + p * (1.0 + v / s + m * missing);
    ScaledFitness(inst.Sum(TOTAL, x) as real, s, p, v, m, missing);
  }

  lemma ScaledFitness(t: real, s: real, p: real, v: real, m: real, missing: real)
    requires 0.0 < s
    ensures s * (t + p * (1.0 + v / s + m * missing)) == t * s + p * s + p * v + p * (m * s) * missing
  {
    assert s * (v / s) == v;
    assert s * (p * (1.0 + v / s + m * missing)) == p * (s + s * (v / s) + s * (m * missing));
  }

  /** The comparisons on integers are the plain order. */
  lemma OrdersAgree(inst: Instance, multiplier: int, a: Assignment, b: Assignment)
    requires inst.Valid() && inst.Complete(a) && inst.Complete(b)
    ensures PlainOrder(inst, multiplier, a, b) <==> Precedes(inst, multiplier, a, b)
  {
    hide PlainFitness, Fitness, Instance.Sum, LexLess;
    if inst.Feasible(a) && inst.Feasible(b) {
      PositiveTotal(inst, a);
      SameFactor(inst.Sum(inst.Linear(), a), inst.Sum(inst.Linear(), b), inst.Sum(TOTAL, a));
    } else if !inst.Feasible(a) && !inst.Feasible(b) {
      FitnessScaled(inst, multiplier, a);
      FitnessScaled(inst, multiplier, b);
      SameScale(PlainFitness(inst, multiplier, a), PlainFitness(inst, multiplier, b), inst.scale as real);
    }
  }

  lemma PositiveTotal(inst: Instance, a: Assignment)
    requires inst.Valid() && inst.Feasible(a)
    ensures 0 < inst.Sum(TOTAL, a)
  {
    inst.SumParts(a);
  }

  lemma SameFactor(a: int, b: int, t: int)
    requires 0 < t
    ensures a * t < b * t <==> a < b
    ensures a * t == b * t <==> a == b
  {
  }

  lemma SameScale(a: real, b: real, s: real)
    requires 0.0 < s
    ensures s * a < s * b <==> a < b
    ensures s * a == s * b <==> a == b
  {
  }

  // ---------------------------------------------------------------- a strict total order

  lemma {:induction false} LexTotal(a: Assignment, b: Assignment)
    requires |a| == |b| && a != b
    ensures LexLess(a, b) || LexLess(b, a)
  {
    var d := |a| - 1;
    if a[..d] == b[..d] {
      assert a == a[..d] + [a[d]] && b == b[..d] + [b[d]];
    } else {
      LexTotal(a[..d], b[..d]);
      LexExtends(a, b, d);
      LexExtends(b, a, d);
    }
  }

  lemma LexExtends(a: Assignment, b: Assignment, d: nat)
    requires d <= |a| && d <= |b|
    ensures LexLess(a[..d], b[..d]) ==> LexLess(a, b)
  {
    if LexLess(a[..d], b[..d]) {
      var i :| 0 <= i < d && a[..d][..i] == b[..d][..i] && a[..d][i] < b[..d][i];
      assert a[..i] == a[..d][..i] && b[..i] == b[..d][..i];
    }
  }

  lemma LexTransitive(a: Assignment, b: Assignment, c: Assignment)
    requires LexLess(a, b) && LexLess(b, c)
    ensures LexLess(a, c)
  {
    var i :| 0 <= i < |a| && i < |b| && a[..i] == b[..i] && a[i] < b[i];
    var j :| 0 <= j < |b| && j < |c| && b[..j] == c[..j] && b[j] < c[j];
    var m := if i < j then i else j;
    assert a[..m] == a[..i][..m] && b[..m] == b[..i][..m] && b[..m] == b[..j][..m] && c[..m] == c[..j][..m];
    if i < j {
      assert b[i] == b[..j][i] == c[..j][i] == c[i];
    } else if j < i {
      assert a[j] == a[..i][j] == b[..i][j] == b[j];
    }
    assert a[..m] == c[..m] && a[m] < c[m];
  }

  /** Precedes is a strict total order of the complete assignments. */
  lemma OrderIsTotal(inst: Instance, multiplier: int, a: Assignment, b: Assignment, c: Assignment)
    requires inst.Valid() && inst.Complete(a) && inst.Complete(b) && inst.Complete(c)
    ensures Precedes(inst, multiplier, a, b) ==> !Precedes(inst, multiplier, b, a)
    ensures a == b <==> !Precedes(inst, multiplier, a, b) && !Precedes(inst, multiplier, b, a)
    ensures Precedes(inst, multiplier, a, b) && Precedes(inst, multiplier, b, c) ==> Precedes(inst, multiplier, a, c)
  {
    hide First, Second, Instance.Feasible;
    if a != b {
      LexTotal(a, b);
    }
    if LexLess(a, b) {
      LexLessAsymmetric(a, b);
      if LexLess(b, c) {
        LexTransitive(a, b, c);
      }
    }
  }

  /** The answer of the exact solvers comes first. */
  lemma OptimalIsFirst(inst: Instance, multiplier: int, s: Assignment, t: Assignment)
    requires inst.Valid() && inst.Optimal(s) && inst.Complete(t) && t != s
    ensures Precedes(inst, multiplier, s, t)
  {
    hide Fitness, Instance.Sum, LexLess;
    if inst.Feasible(t) {
      inst.LinearParts(s);
      inst.LinearParts(t);
      SameFactor(inst.Sum(C12, s), inst.Sum(C12, t), inst.scale);
    }
  }

  // ---------------------------------------------------------------- the insertion network

  /** All of these are complete assignments. */
  ghost predicate AllComplete(inst: Instance, xs: seq<Assignment>) {
    forall i :: 0 <= i < |xs| ==> inst.Complete(xs[i])
  }

  /** One pass through the slots: what they hold then, and what is carried out. */
  ghost function Pass(inst: Instance, multiplier: int, slots: seq<Assignment>, x: Assignment)
    : (r: (seq<Assignment>, Assignment))
    requires inst.Valid() && AllComplete(inst, slots) && inst.Complete(x)
    ensures |r.0| == |slots| && AllComplete(inst, r.0) && inst.Complete(r.1)
  {
    if slots == [] then ([], x) else
      var d := |slots| - 1;
      var (before, carry) := Pass(inst, multiplier, slots[..d], x);
      if Precedes(inst, multiplier, carry, slots[d]) then (before + [carry], slots[d]) else (before + [slots[d]], carry)
  }

  /** The slots after all of xs, and everything that was carried out. */
  ghost function Elites(inst: Instance, multiplier: int, xs: seq<Assignment>, size: nat)
    : (r: (seq<Assignment>, seq<Assignment>))
    requires inst.Valid() && AllComplete(inst, xs)
    ensures AllComplete(inst, r.0) && AllComplete(inst, r.1)
  {
    if xs == [] then ([], []) else
      var d := |xs| - 1;
      var (slots, dropped) := Elites(inst, multiplier, xs[..d], size);
      var (after, carry) := Pass(inst, multiplier, slots, xs[d]);
      if |after| < size then (after + [carry], dropped) else (after, dropped + [carry])
  }

  /** a does not come after b. */
  ghost predicate AtMost(inst: Instance, multiplier: int, a: Assignment, b: Assignment)
    requires inst.Valid() && inst.Complete(a) && inst.Complete(b)
  {
    !Precedes(inst, multiplier, b, a)
  }

  lemma AtMostTransitive(inst: Instance, multiplier: int, a: Assignment, b: Assignment, c: Assignment)
    requires inst.Valid() && inst.Complete(a) && inst.Complete(b) && inst.Complete(c)
    requires AtMost(inst, multiplier, a, b) && AtMost(inst, multiplier, b, c)
    ensures AtMost(inst, multiplier, a, c)
  {
    hide Precedes;
    OrderIsTotal(inst, multiplier, a, b, c);
    OrderIsTotal(inst, multiplier, b, c, a);
    OrderIsTotal(inst, multiplier, c, b, a);
  }

  ghost predicate Ranked(inst: Instance, multiplier: int, xs: seq<Assignment>)
    requires inst.Valid() && AllComplete(inst, xs)
  {
    forall i, j :: 0 <= i < j < |xs| ==> AtMost(inst, multiplier, xs[i], xs[j])
  }

  /** None of these comes after x. */
  ghost predicate AllAtMost(inst: Instance, multiplier: int, xs: seq<Assignment>, x: Assignment)
    requires inst.Valid() && AllComplete(inst, xs) && inst.Complete(x)
  {
    forall i :: 0 <= i < |xs| ==> AtMost(inst, multiplier, xs[i], x)
  }

  /** A pass keeps the slots ranked, moves none of them up, and carries out nothing that belongs into them. */
  lemma {:induction false} PassRanks(inst: Instance, multiplier: int, slots: seq<Assignment>, x: Assignment)
    requires inst.Valid() && AllComplete(inst, slots) && inst.Complete(x) && Ranked(inst, multiplier, slots)
    ensures var (after, carry) := Pass(inst, multiplier, slots, x);
      && Ranked(inst, multiplier, after) && AllAtMost(inst, multiplier, after, carry)
      && (forall i :: 0 <= i < |slots| ==> AtMost(inst, multiplier, after[i], slots[i]))
  {
    if slots == [] {
    } else {
      var d := |slots| - 1;
      PassRanks(inst, multiplier, slots[..d], x);
      var (before, carry) := Pass(inst, multiplier, slots[..d], x);
      hide Precedes, AtMost, Instance.Complete;
      PassStep(inst, multiplier, slots, before, carry);
    }
  }

  /** A pass loses nobody. */
  lemma {:induction false} PassKeeps(inst: Instance, multiplier: int, slots: seq<Assignment>, x: Assignment)
    requires inst.Valid() && AllComplete(inst, slots) && inst.Complete(x)
    ensures var (after, carry) := Pass(inst, multiplier, slots, x);
      multiset(after) + multiset{carry} == multiset(slots) + multiset{x}
  {
    hide Precedes, Instance.Complete;
    if slots == [] {
    } else {
      var d := |slots| - 1;
      PassKeeps(inst, multiplier, slots[..d], x);
      var (before, carry) := Pass(inst, multiplier, slots[..d], x);
      hide Pass;
      assert slots == slots[..d] + [slots[d]];
      SameMembers(before, carry, slots[..d], x, slots[d]);
    }
  }

  lemma SameMembers(before: seq<Assignment>, carry: Assignment, slots: seq<Assignment>, x: Assignment, last: Assignment)
    requires multiset(before) + multiset{carry} == multiset(slots) + multiset{x}
    ensures multiset(before + [carry]) + multiset{last} == multiset(slots + [last]) + multiset{x}
    ensures multiset(before + [last]) + multiset{carry} == multiset(slots + [last]) + multiset{x}
  {
  }

  /** The last slot of a pass. */
  lemma PassStep(inst: Instance, multiplier: int, slots: seq<Assignment>, before: seq<Assignment>, carry: Assignment)
    requires inst.Valid() && AllComplete(inst, slots) && Ranked(inst, multiplier, slots) && |before| == |slots| - 1
    requires AllComplete(inst, before) && inst.Complete(carry)
    requires Ranked(inst, multiplier, before) && AllAtMost(inst, multiplier, before, carry)
    requires forall i :: 0 <= i < |before| ==> AtMost(inst, multiplier, before[i], slots[i])
    ensures var last := slots[|before|];
      var (after, out) := if Precedes(inst, multiplier, carry, last) then (before + [carry], last)
                          else (before + [last], carry);
      && AllComplete(inst, after) && Ranked(inst, multiplier, after) && AllAtMost(inst, multiplier, after, out)
      && (forall i :: 0 <= i < |slots| ==> AtMost(inst, multiplier, after[i], slots[i]))
  {
    hide Precedes, Instance.Complete;
    var last := slots[|before|];
    OrderIsTotal(inst, multiplier, carry, last, last);
    OrderIsTotal(inst, multiplier, last, last, last);
    forall i | 0 <= i < |before|
      ensures AtMost(inst, multiplier, before[i], last)
    {
      AtMostTransitive(inst, multiplier, before[i], slots[i], last);
    }
  }

  /** The network loses nobody, and leaves nobody out before the slots are full. */
  lemma {:induction false} ElitesKeep(inst: Instance, multiplier: int, xs: seq<Assignment>, size: nat)
    requires inst.Valid() && AllComplete(inst, xs)
    ensures var (slots, dropped) := Elites(inst, multiplier, xs, size);
      && |slots| == (if |xs| < size then |xs| else size) && |slots| + |dropped| == |xs|
      && multiset(slots) + multiset(dropped) == multiset(xs)
  {
    hide Precedes, Instance.Complete, Pass;
    if xs == [] {
    } else {
      var d := |xs| - 1;
      ElitesKeep(inst, multiplier, xs[..d], size);
      var (slots, dropped) := Elites(inst, multiplier, xs[..d], size);
      PassKeeps(inst, multiplier, slots, xs[d]);
      var (after, carry) := Pass(inst, multiplier, slots, xs[d]);
      assert xs == xs[..d] + [xs[d]];
      OneMore(slots, dropped, after, carry, xs[..d], xs[d]);
    }
  }

  lemma OneMore(slots: seq<Assignment>, dropped: seq<Assignment>, after: seq<Assignment>, carry: Assignment,
      xs: seq<Assignment>, x: Assignment)
    requires multiset(slots) + multiset(dropped) == multiset(xs)
    requires multiset(after) + multiset{carry} == multiset(slots) + multiset{x}
    ensures multiset(after + [carry]) + multiset(dropped) == multiset(xs + [x])
    ensures multiset(after) + multiset(dropped + [carry]) == multiset(xs + [x])
  {
    assert multiset(after + [carry]) == multiset(after) + multiset{carry};
    assert multiset(dropped + [carry]) == multiset(dropped) + multiset{carry};
    assert multiset(xs + [x]) == multiset(xs) + multiset{x};
  }

  /** The slots are ranked, and nothing that is left out comes before any of them. */
  ghost predicate KeptBest(inst: Instance, multiplier: int, slots: seq<Assignment>, dropped: seq<Assignment>)
    requires inst.Valid() && AllComplete(inst, slots) && AllComplete(inst, dropped)
  {
    Ranked(inst, multiplier, slots) && forall i :: 0 <= i < |dropped| ==> AllAtMost(inst, multiplier, slots, dropped[i])
  }

  lemma KeptBestStep(inst: Instance, multiplier: int, slots: seq<Assignment>, dropped: seq<Assignment>, x: Assignment)
    requires inst.Valid() && AllComplete(inst, slots) && AllComplete(inst, dropped) && inst.Complete(x)
    requires KeptBest(inst, multiplier, slots, dropped)
    ensures var (after, carry) := Pass(inst, multiplier, slots, x);
      && KeptBest(inst, multiplier, after, dropped + [carry])
      && (dropped == [] ==> KeptBest(inst, multiplier, after + [carry], []))
  {
    hide Precedes, AtMost, Pass, Instance.Complete, Ranked, AllAtMost;
    var (after, carry) := Pass(inst, multiplier, slots, x);
    PassRanks(inst, multiplier, slots, x);
    Appended(inst, multiplier, after, carry);
    forall i | 0 <= i < |dropped|
      ensures AllAtMost(inst, multiplier, after, dropped[i])
    {
      StaysAbove(inst, multiplier, slots, after, dropped[i]);
    }
  }

  lemma {:induction false} ElitesRank(inst: Instance, multiplier: int, xs: seq<Assignment>, size: nat)
    requires inst.Valid() && AllComplete(inst, xs)
    ensures KeptBest(inst, multiplier, Elites(inst, multiplier, xs, size).0, Elites(inst, multiplier, xs, size).1)
  {
    hide Precedes, AtMost, Pass, Instance.Complete, Ranked, AllAtMost;
    if xs == [] {
      NothingRanked(inst, multiplier);
    } else {
      var d := |xs| - 1;
      ElitesRank(inst, multiplier, xs[..d], size);
      ElitesKeep(inst, multiplier, xs[..d], size);
      var (slots, dropped) := Elites(inst, multiplier, xs[..d], size);
      hide KeptBest;
      KeptBestStep(inst, multiplier, slots, dropped, xs[d]);
    }
  }

  lemma NothingRanked(inst: Instance, multiplier: int)
    requires inst.Valid()
    ensures Ranked(inst, multiplier, [])
  {
  }

  /**
   The network keeps the best: as many as there is room for, ranked, and nothing that is left out
   comes before any of them.
   */
  lemma ElitesAreBest(inst: Instance, multiplier: int, xs: seq<Assignment>, size: nat)
    requires inst.Valid() && AllComplete(inst, xs)
    ensures var (slots, dropped) := Elites(inst, multiplier, xs, size);
      && |slots| == (if |xs| < size then |xs| else size)
      && multiset(slots) + multiset(dropped) == multiset(xs)
      && Ranked(inst, multiplier, slots)
      && forall i :: 0 <= i < |dropped| ==> AllAtMost(inst, multiplier, slots, dropped[i])
  {
    hide Precedes, AtMost, Elites, Instance.Complete, Ranked, AllAtMost;
    ElitesKeep(inst, multiplier, xs, size);
    ElitesRank(inst, multiplier, xs, size);
  }

  lemma Appended(inst: Instance, multiplier: int, xs: seq<Assignment>, x: Assignment)
    requires inst.Valid() && AllComplete(inst, xs) && inst.Complete(x)
    requires Ranked(inst, multiplier, xs) && AllAtMost(inst, multiplier, xs, x)
    ensures AllComplete(inst, xs + [x]) && Ranked(inst, multiplier, xs + [x])
  {
    hide AtMost, Instance.Complete;
  }

  lemma StaysAbove(inst: Instance, multiplier: int, slots: seq<Assignment>, after: seq<Assignment>, y: Assignment)
    requires inst.Valid() && AllComplete(inst, slots) && AllComplete(inst, after) && |slots| == |after| && inst.Complete(y)
    requires AllAtMost(inst, multiplier, slots, y)
    requires forall i :: 0 <= i < |slots| ==> AtMost(inst, multiplier, after[i], slots[i])
    ensures AllAtMost(inst, multiplier, after, y)
  {
    forall i | 0 <= i < |after|
      ensures AtMost(inst, multiplier, after[i], y)
    {
      AtMostTransitive(inst, multiplier, after[i], slots[i], y);
    }
  }

  /** The exact solvers' answer, once it is in a population, stays its first elite. */
  lemma OptimumIsKept(inst: Instance, multiplier: int, xs: seq<Assignment>, size: nat, s: Assignment)
    requires inst.Valid() && AllComplete(inst, xs) && 0 < size && inst.Optimal(s) && s in xs
    ensures Elites(inst, multiplier, xs, size).0 != [] && Elites(inst, multiplier, xs, size).0[0] == s
  {
    ElitesAreBest(inst, multiplier, xs, size);
    FirstIsAtMost(inst, multiplier, xs, size, s);
    var first := Elites(inst, multiplier, xs, size).0[0];
    if first != s {
      OptimalIsFirst(inst, multiplier, s, first);
      assert false;
    }
  }

  /** No individual of the population comes before the first elite. */
  lemma FirstIsAtMost(inst: Instance, multiplier: int, xs: seq<Assignment>, size: nat, s: Assignment)
    requires inst.Valid() && AllComplete(inst, xs) && 0 < size && s in xs
    ensures inst.Complete(s)
    ensures Elites(inst, multiplier, xs, size).0 != []
    ensures AtMost(inst, multiplier, Elites(inst, multiplier, xs, size).0[0], s)
  {
    ElitesAreBest(inst, multiplier, xs, size);
    var (slots, dropped) := Elites(inst, multiplier, xs, size);
    assert s in multiset(xs) && s in multiset(slots) + multiset(dropped);
    OrderIsTotal(inst, multiplier, s, s, s);
    hide Elites, Precedes;
    if s in slots {
      var i :| 0 <= i < |slots| && slots[i] == s;
      assert i == 0 || AtMost(inst, multiplier, slots[0], slots[i]);
    } else {
      var i :| 0 <= i < |dropped| && dropped[i] == s;
      assert AllAtMost(inst, multiplier, slots, dropped[i]);
    }
  }

  // ---------------------------------------------------------------- the best seen so far

  /** The running best: a later individual replaces it when it comes before it. */
  ghost function Champion(inst: Instance, multiplier: int, xs: seq<Assignment>): (r: Assignment)
    requires inst.Valid() && AllComplete(inst, xs) && xs != []
    ensures inst.Complete(r)
  {
    var last := xs[|xs| - 1];
    if |xs| == 1 then last else
      var best := Champion(inst, multiplier, xs[..|xs| - 1]);
      if Precedes(inst, multiplier, last, best) then last else best
  }

  /** It has been seen, and nothing that has been seen comes before it. */
  lemma {:induction false} ChampionIsLeast(inst: Instance, multiplier: int, xs: seq<Assignment>)
    requires inst.Valid() && AllComplete(inst, xs) && xs != []
    ensures Champion(inst, multiplier, xs) in xs
    ensures forall i :: 0 <= i < |xs| ==> AtMost(inst, multiplier, Champion(inst, multiplier, xs), xs[i])
  {
    hide Instance.Complete, Precedes;
    var d := |xs| - 1;
    OrderIsTotal(inst, multiplier, xs[d], xs[d], xs[d]);
    if d > 0 {
      ChampionIsLeast(inst, multiplier, xs[..d]);
      var best := Champion(inst, multiplier, xs[..d]);
      OrderIsTotal(inst, multiplier, xs[d], best, best);
      forall i | 0 <= i < d
        ensures AtMost(inst, multiplier, Champion(inst, multiplier, xs), xs[i])
      {
        assert AtMost(inst, multiplier, best, xs[..d][i]);
        if Precedes(inst, multiplier, xs[d], best) {
          AtMostTransitive(inst, multiplier, xs[d], best, xs[i]);
        }
      }
    }
  }

  /** Once the exact solvers' answer has been seen, it is the best; any other best is worse than it. */
  lemma ChampionIsOptimum(inst: Instance, multiplier: int, xs: seq<Assignment>, s: Assignment)
    requires inst.Valid() && AllComplete(inst, xs) && xs != [] && inst.Optimal(s)
    ensures Champion(inst, multiplier, xs) == s <==> s in xs
    ensures s !in xs ==> Precedes(inst, multiplier, s, Champion(inst, multiplier, xs))
  {
    hide Precedes;
    var best := Champion(inst, multiplier, xs);
    ChampionIsLeast(inst, multiplier, xs);
    if s in xs {
      var i :| 0 <= i < |xs| && xs[i] == s;
      assert AtMost(inst, multiplier, best, xs[i]);
    }
    if best != s {
      OptimalIsFirst(inst, multiplier, s, best);
    }
  }
}
