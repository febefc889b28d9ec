/**
 The optimisation problem that all the solvers share, the exhaustive search they refine, and the
 proof that this search finds the one optimal assignment.

 Every aggregate of an assignment (total cost, C12, C3, linear ratio margin, Lagrangian score) is a
 weighted sum of the chosen costs, with one coefficient for methods 1 and 2 and one for method 3.
 */
module CostModel {
  import opened Wrappers
  import opened NumberTheory

  /** The costs of one row's methods 1, 2 and 3, where available. */
  type Row = r: seq<Option<nat>> | |r| == 3 witness [None, None, None]

  /** Chosen methods, numbered from 1, for a prefix of the rows. */
  type Assignment = seq<int>

  datatype Weight = Weight(a12: int, a3: int)

  const TOTAL := Weight(1, 1)
  const C12 := Weight(1, 0)
  const C3 := Weight(0, 1)

  /** How a node's cost bound is computed. */
  datatype BoundMode = CurrentSuffix | Lagrangian(q: int, mus: seq<int>) {
    predicate Valid() {
      Lagrangian? ==> 0 < q && forall k :: 0 <= k < |mus| ==> 0 <= mus[k]
    }

    /** The factor that bounds carry over plain costs. */
    function Scale(): int {
      if CurrentSuffix? then 1 else q
    }
  }

  ghost predicate LexLess(a: Assignment, b: Assignment) {
    exists i :: 0 <= i < |a| && i < |b| && a[..i] == b[..i] && a[i] < b[i]
  }

  datatype Instance = Instance(rows: seq<Row>, scale: int, threshold: int) {

    predicate Has(i: int, m: int) {
      0 <= i < |rows| && 1 <= m <= 3 && rows[i][m - 1].Some?
    }

    predicate Available(i: int)
      requires 0 <= i < |rows|
    {
      Has(i, 1) || Has(i, 2) || Has(i, 3)
    }

    predicate Valid() {
      0 <= threshold < scale && forall i :: 0 <= i < |rows| ==> Available(i)
    }

    predicate Partial(s: Assignment) {
      |s| <= |rows| && forall i :: 0 <= i < |s| ==> Has(i, s[i])
    }

    predicate Complete(s: Assignment) {
      |s| == |rows| && Partial(s)
    }

    function Cost(i: int, m: int): nat
      requires Has(i, m)
    {
      rows[i][m - 1].value
    }

    /** What choosing method m for row i adds to the sum weighted by w. */
    function Term(w: Weight, i: int, m: int): int
      requires Has(i, m)
    {
      (if m < 3 then w.a12 else w.a3) * Cost(i, m)
    }

    function Sum(w: Weight, s: Assignment): int
      requires Partial(s)
    {
      if s == [] then 0 else
        var d := |s| - 1;
        Sum(w, s[..d]) + Term(w, d, s[d])
    }

    /** The ratio constraint, linearised: C12 / (C12 + C3) >= threshold / scale. */
    function Linear(): Weight {
      Weight(scale - threshold, -threshold)
    }

    /** Q * cost - mu * linear. */
    function Score(q: int, mu: int): Weight {
      Weight(q - mu * (scale - threshold), q + mu * threshold)
    }

    function Weights(mode: BoundMode): seq<Weight> {
      match mode
      case CurrentSuffix => [TOTAL]
      case Lagrangian(q, mus) => seq(|mus|, k requires 0 <= k < |mus| => Score(q, mus[k]))
    }

    // -------------------------------------------------------------- specification

    predicate Feasible(s: Assignment) {
      Complete(s) && Sum(Linear(), s) >= 0 && Sum(C3, s) > 0
    }

    /** A strictly better objective: cheaper, or as cheap with less C12. */
    predicate Beats(s: Assignment, t: Assignment)
      requires Partial(s) && Partial(t)
    {
      Sum(TOTAL, s) < Sum(TOTAL, t) || (Sum(TOTAL, s) == Sum(TOTAL, t) && Sum(C12, s) < Sum(C12, t))
    }

    /** Feasible, unbeaten, and lexicographically first among the assignments that tie with it. */
    ghost predicate Optimal(s: Assignment) {
      && Feasible(s)
      && forall t :: Feasible(t) ==> !Beats(t, s) && (Beats(s, t) || s == t || LexLess(s, t))
    }

    /** r is the right answer to this instance. */
    ghost predicate Solves(r: Option<Assignment>) {
      match r
      case None => forall t :: !Feasible(t)
      case Some(s) => Optimal(s)
    }

    /** There is only one right answer. */
    lemma SolvesUnique(a: Option<Assignment>, b: Option<Assignment>)
      requires Solves(a) && Solves(b)
      ensures a == b
    {
      if a.Some? && b.Some? && a != b {
        LexLessAsymmetric(a.value, b.value);
      }
    }

    // -------------------------------------------------------------- exhaustive search

    /** The candidate test at a complete assignment. */
    predicate Accepts(incumbent: Option<Assignment>, s: Assignment)
      requires incumbent.Some? ==> Complete(incumbent.value)
    {
      Feasible(s) && (incumbent.None? || Beats(s, incumbent.value))
    }

    predicate IncumbentOk(incumbent: Option<Assignment>) {
      incumbent.Some? ==> Feasible(incumbent.value)
    }

    /** The incumbent after visiting every completion of p in method order, without pruning. */
    function Search(p: Assignment, incumbent: Option<Assignment>): (r: Option<Assignment>)
      requires Partial(p) && IncumbentOk(incumbent)
      ensures IncumbentOk(r) && (r.None? ==> incumbent.None?)
      decreases |rows| - |p|, 4
    {
      if |p| == |rows| then
        if Accepts(incumbent, p) then Some(p) else incumbent
      else SearchBranches(p, 1, incumbent)
    }

    /** The same over the children of p from method m on. */
    function SearchBranches(p: Assignment, m: int, incumbent: Option<Assignment>): (r: Option<Assignment>)
      requires Partial(p) && |p| < |rows| && 1 <= m <= 4 && IncumbentOk(incumbent)
      ensures IncumbentOk(r) && (r.None? ==> incumbent.None?)
      decreases |rows| - |p|, 4 - m
    {
      if m == 4 then incumbent
      else SearchBranches(p, m + 1, if Has(|p|, m) then Search(p + [m], incumbent) else incumbent)
    }

    /** The assignments accepted on the way, in order. */
    function Accepted(p: Assignment, incumbent: Option<Assignment>): seq<Assignment>
      requires Partial(p) && IncumbentOk(incumbent)
      decreases |rows| - |p|, 4
    {
      if |p| == |rows| then
        if Accepts(incumbent, p) then [p] else []
      else AcceptedBranches(p, 1, incumbent)
    }

    function AcceptedBranches(p: Assignment, m: int, incumbent: Option<Assignment>): seq<Assignment>
      requires Partial(p) && |p| < |rows| && 1 <= m <= 4 && IncumbentOk(incumbent)
      decreases |rows| - |p|, 4 - m
    {
      if m == 4 then []
      else if Has(|p|, m) then
        Accepted(p + [m], incumbent) + AcceptedBranches(p, m + 1, Search(p + [m], incumbent))
      else AcceptedBranches(p, m + 1, incumbent)
    }

    // -------------------------------------------------------------- pruned search trees

    function MinUpTo(w: Weight, i: int, j: nat): Option<int>
      requires 0 <= i < |rows| && j <= 3
    {
      if j == 0 then None else
        var lower := MinUpTo(w, i, j - 1);
        if !Has(i, j) then lower
        else if lower.Some? && lower.value < Term(w, i, j) then lower
        else Some(Term(w, i, j))
    }

    function MaxUpTo(w: Weight, i: int, j: nat): Option<int>
      requires 0 <= i < |rows| && j <= 3
    {
      if j == 0 then None else
        var upper := MaxUpTo(w, i, j - 1);
        if !Has(i, j) then upper
        else if upper.Some? && upper.value > Term(w, i, j) then upper
        else Some(Term(w, i, j))
    }

    lemma RowBounds(w: Weight, i: int)
      requires 0 <= i < |rows| && Available(i)
      ensures MinUpTo(w, i, 3).Some? && MaxUpTo(w, i, 3).Some?
      ensures forall m :: Has(i, m) ==> MinUpTo(w, i, 3).value <= Term(w, i, m) <= MaxUpTo(w, i, 3).value
      ensures exists m :: Has(i, m) && MinUpTo(w, i, 3).value == Term(w, i, m)
      ensures exists m :: Has(i, m) && MaxUpTo(w, i, 3).value == Term(w, i, m)
    {
      assert MinUpTo(w, i, 1) == if Has(i, 1) then Some(Term(w, i, 1)) else None;
      assert MaxUpTo(w, i, 1) == if Has(i, 1) then Some(Term(w, i, 1)) else None;
    }

    /** The least weight that rows d, d+1, ... can add. */
    function MinSuffix(w: Weight, d: int): int
      requires Valid() && 0 <= d <= |rows|
      decreases |rows| - d
    {
      if d == |rows| then 0 else
        RowBounds(w, d);
        MinUpTo(w, d, 3).value + MinSuffix(w, d + 1)
    }

    function MaxSuffix(w: Weight, d: int): int
      requires Valid() && 0 <= d <= |rows|
      decreases |rows| - d
    {
      if d == |rows| then 0 else
        RowBounds(w, d);
        MaxUpTo(w, d, 3).value + MaxSuffix(w, d + 1)
    }

    /** The lower bounds on the scaled cost of every completion of p. */
    function LowerBound(w: Weight, p: Assignment): int
      requires Valid() && Partial(p)
    {
      Sum(w, p) + MinSuffix(w, |p|)
    }

    function LinearUpper(p: Assignment): int
      requires Valid() && Partial(p)
    {
      Sum(Linear(), p) + MaxSuffix(Linear(), |p|)
    }

    predicate BoundExceeds(ws: seq<Weight>, p: Assignment, limit: int)
      requires Valid() && Partial(p)
    {
      exists k :: 0 <= k < |ws| && LowerBound(ws[k], p) > limit
    }

    predicate Prunes(mode: BoundMode, p: Assignment, incumbent: Option<Assignment>)
      requires Valid() && Partial(p) && IncumbentOk(incumbent)
    {
      || LinearUpper(p) < 0
      || (incumbent.Some? && BoundExceeds(Weights(mode), p, Sum(TOTAL, incumbent.value) * mode.Scale()))
    }

    /** The nodes that the pruned search visits, in order. */
    function Visits(mode: BoundMode, p: Assignment, incumbent: Option<Assignment>): seq<Assignment>
      requires Valid() && Partial(p) && IncumbentOk(incumbent)
      decreases |rows| - |p|, 4
    {
      if |p| == |rows| || Prunes(mode, p, incumbent) then [p]
      else [p] + VisitBranches(mode, p, 1, incumbent)
    }

    function VisitBranches(mode: BoundMode, p: Assignment, m: int, incumbent: Option<Assignment>): seq<Assignment>
      requires Valid() && Partial(p) && |p| < |rows| && 1 <= m <= 4 && IncumbentOk(incumbent)
      decreases |rows| - |p|, 4 - m
    {
      if m == 4 then []
      else if Has(|p|, m) then
        Visits(mode, p + [m], incumbent) + VisitBranches(mode, p, m + 1, Search(p + [m], incumbent))
      else VisitBranches(mode, p, m + 1, incumbent)
    }

    // -------------------------------------------------------------- facts about sums

    lemma SumAppend(w: Weight, p: Assignment, m: int)
      requires Partial(p) && Has(|p|, m)
      ensures Partial(p + [m]) && Sum(w, p + [m]) == Sum(w, p) + Term(w, |p|, m)
    {
      assert (p + [m])[..|p|] == p;
    }

    /** Sums are linear in the weight. */
    lemma {:induction false} SumScore(q: int, mu: int, s: Assignment)
      requires Partial(s)
      ensures Sum(Score(q, mu), s) == q * Sum(TOTAL, s) - mu * Sum(Linear(), s)
    {
      if s == [] {
      } else {
        var d := |s| - 1;
        SumScore(q, mu, s[..d]);
        ScoreTerm(q, mu, Cost(d, s[d]), if s[d] < 3 then scale - threshold else -threshold);
        assert Score(q, mu).a3 == q - mu * -threshold;
        ScoreSplit(q, mu, Sum(TOTAL, s[..d]), Term(TOTAL, d, s[d]), Sum(Linear(), s[..d]), Term(Linear(), d, s[d]));
      }
    }

    lemma ScoreTerm(q: int, mu: int, c: int, a: int)
      ensures (q - mu * a) * c == q * c - mu * (a * c)
    {
    }

    lemma ScoreSplit(q: int, mu: int, a: int, b: int, c: int, d: int)
      ensures q * (a + b) - mu * (c + d) == (q * a - mu * c) + (q * b - mu * d)
    {
    }

    lemma {:induction false} SumParts(s: Assignment)
      requires Partial(s)
      ensures Sum(TOTAL, s) == Sum(C12, s) + Sum(C3, s) && 0 <= Sum(C12, s) && 0 <= Sum(C3, s)
    {
      if s == [] {
      } else {
        SumParts(s[..|s| - 1]);
      }
    }

    lemma {:induction false} LinearParts(s: Assignment)
      requires Partial(s)
      ensures Sum(Linear(), s) == scale * Sum(C12, s) - threshold * Sum(TOTAL, s)
    {
      hide Term, Has;
      if s == [] {
      } else {
        var d := |s| - 1;
        LinearParts(s[..d]);
        TermParts(d, s[d]);
        ScoreSplit(scale, threshold, Sum(C12, s[..d]), Term(C12, d, s[d]), Sum(TOTAL, s[..d]), Term(TOTAL, d, s[d]));
      }
    }

    lemma TermParts(i: int, m: int)
      requires Has(i, m)
      ensures Term(Linear(), i, m) == scale * Term(C12, i, m) - threshold * Term(TOTAL, i, m)
    {
      var c := Cost(i, m);
      if m < 3 {
        assert (scale - threshold) * c == scale * c - threshold * c;
      } else {
        assert -threshold * c == -(threshold * c);
      }
    }

    /** Every completion of s[..d] lies between the prefix sum plus the suffix bounds. */
    lemma {:induction false} SuffixBounds(w: Weight, s: Assignment, d: int)
      requires Valid() && Complete(s) && 0 <= d <= |s|
      ensures Sum(w, s[..d]) + MinSuffix(w, d) <= Sum(w, s) <= Sum(w, s[..d]) + MaxSuffix(w, d)
      decreases |s| - d
    {
      if d == |s| {
        assert s[..d] == s;
      } else {
        SuffixBounds(w, s, d + 1);
        assert s[..d + 1] == s[..d] + [s[d]];
        SumAppend(w, s[..d], s[d]);
        RowBounds(w, d);
      }
    }

    /** Changing one row's method changes a sum by the difference of the terms. */
    lemma {:induction false} SumUpdate(w: Weight, s: Assignment, i: nat, m: int)
      requires Partial(s) && i < |s| && Has(i, m)
      ensures Partial(s[i := m])
      ensures Sum(w, s[i := m]) == Sum(w, s) - Term(w, i, s[i]) + Term(w, i, m)
    {
      var d := |s| - 1;
      if i < d {
        SumUpdate(w, s[..d], i, m);
        assert s[i := m][..d] == s[..d][i := m];
      } else {
        assert s[i := m][..d] == s[..d];
      }
    }

    /** A sum over two rows. */
    lemma SumPair(w: Weight, m: int, m': int)
      requires |rows| == 2 && Has(0, m) && Has(1, m')
      ensures Complete([m, m']) && Sum(w, [m, m']) == Term(w, 0, m) + Term(w, 1, m')
    {
      assert [m, m'][..1] == [m];
      assert Sum(w, [m]) == Term(w, 0, m);
    }

    /** Row by row smaller terms give a smaller sum. */
    lemma {:induction false} SumMono(w: Weight, s: Assignment, t: Assignment)
      requires Partial(s) && Partial(t) && |s| == |t|
      requires forall i :: 0 <= i < |s| ==> Term(w, i, s[i]) <= Term(w, i, t[i])
      ensures Sum(w, s) <= Sum(w, t)
    {
      if s != [] {
        var d := |s| - 1;
        assert forall i :: 0 <= i < d ==> s[..d][i] == s[i] && t[..d][i] == t[i];
        SumMono(w, s[..d], t[..d]);
      }
    }

    // -------------------------------------------------------------- pruning loses nothing

    /** When no completion would be accepted, searching changes nothing. */
    lemma {:induction false} NothingAccepted(p: Assignment, incumbent: Option<Assignment>)
      requires Partial(p) && IncumbentOk(incumbent)
      requires forall s :: Complete(s) && p <= s ==> !Accepts(incumbent, s)
      ensures Search(p, incumbent) == incumbent && Accepted(p, incumbent) == []
      decreases |rows| - |p|, 4
    {
      if |p| < |rows| {
        NothingAcceptedBranches(p, 1, incumbent);
      }
    }

    lemma {:induction false} NothingAcceptedBranches(p: Assignment, m: int, incumbent: Option<Assignment>)
      requires Partial(p) && |p| < |rows| && 1 <= m <= 4 && IncumbentOk(incumbent)
      requires forall s :: Complete(s) && p <= s ==> !Accepts(incumbent, s)
      ensures SearchBranches(p, m, incumbent) == incumbent && AcceptedBranches(p, m, incumbent) == []
      decreases |rows| - |p|, 4 - m
    {
      if m < 4 {
        if Has(|p|, m) {
          forall s | Complete(s) && p + [m] <= s
            ensures !Accepts(incumbent, s)
          {
            assert p <= s;
          }
          NothingAccepted(p + [m], incumbent);
        }
        NothingAcceptedBranches(p, m + 1, incumbent);
      }
    }

    /** A pruned node has no completion that would be accepted, in either bound mode. */
    lemma PruningIsSafe(mode: BoundMode, p: Assignment, incumbent: Option<Assignment>)
      requires Valid() && mode.Valid() && Partial(p) && IncumbentOk(incumbent)
      requires Prunes(mode, p, incumbent)
      ensures Search(p, incumbent) == incumbent && Accepted(p, incumbent) == []
    {
      hide Search, Accepted, Sum, MinSuffix, MaxSuffix;
      forall s | Complete(s) && p <= s
        ensures !Accepts(incumbent, s)
      {
        assert s[..|p|] == p;
        SuffixBounds(Linear(), s, |p|);
        if LinearUpper(p) >= 0 && Feasible(s) {
          var ws := Weights(mode);
          var k :| 0 <= k < |ws| && LowerBound(ws[k], p) > Sum(TOTAL, incumbent.value) * mode.Scale();
          SuffixBounds(ws[k], s, |p|);
          if mode.Lagrangian? {
            SumScore(mode.q, mode.mus[k], s);
            MulNonNeg(mode.mus[k], Sum(Linear(), s));
            assert mode.q * Sum(TOTAL, s) > Sum(TOTAL, incumbent.value) * mode.q;
            if Sum(TOTAL, s) <= Sum(TOTAL, incumbent.value) {
              MulMono(Sum(TOTAL, s), Sum(TOTAL, incumbent.value), mode.q);
            }
          }
        }
      }
      NothingAccepted(p, incumbent);
    }

    // -------------------------------------------------------------- the exhaustive search is optimal

    /** What searching below a set of assignments does to the incumbent. */
    ghost predicate Improves(incumbent: Option<Assignment>, r: Option<Assignment>, region: Assignment -> bool)
      requires IncumbentOk(incumbent)
    {
      && IncumbentOk(r)
      && (r == incumbent ==> forall s :: Feasible(s) && region(s) ==> incumbent.Some? && !Beats(s, incumbent.value))
      && (r != incumbent ==>
            && r.Some? && region(r.value)
            && (incumbent.Some? ==> Beats(r.value, incumbent.value))
            && forall s :: Feasible(s) && region(s) ==>
                 !Beats(s, r.value) && (Beats(r.value, s) || r.value == s || LexLess(r.value, s)))
    }

    ghost function Below(p: Assignment): Assignment -> bool {
      s => p <= s
    }

    ghost function BelowFrom(p: Assignment, m: int): Assignment -> bool {
      s => p < s && s[|p|] >= m
    }

    lemma {:induction false} SearchImproves(p: Assignment, incumbent: Option<Assignment>)
      requires Partial(p) && IncumbentOk(incumbent)
      ensures Improves(incumbent, Search(p, incumbent), Below(p))
      decreases |rows| - |p|, 4
    {
      if |p| == |rows| {
        assert forall s :: Complete(s) && p <= s ==> s == p;
      } else {
        SearchBranchesImprove(p, 1, incumbent);
        assert forall s :: Complete(s) && p <= s ==> p < s && s[|p|] >= 1;
      }
    }

    lemma {:induction false} SearchBranchesImprove(p: Assignment, m: int, incumbent: Option<Assignment>)
      requires Partial(p) && |p| < |rows| && 1 <= m <= 4 && IncumbentOk(incumbent)
      ensures Improves(incumbent, SearchBranches(p, m, incumbent), BelowFrom(p, m))
      decreases |rows| - |p|, 4 - m
    {
      if m == 4 {
        assert forall s :: Complete(s) && p < s ==> Has(|p|, s[|p|]);
      } else {
        var next := if Has(|p|, m) then Search(p + [m], incumbent) else incumbent;
        if Has(|p|, m) {
          SearchImproves(p + [m], incumbent);
        }
        SearchBranchesImprove(p, m + 1, next);
        ChildrenCompose(p, m, incumbent, next, SearchBranches(p, m + 1, next));
      }
    }

    /** Searching child m and then the later children is searching the children from m on. */
    lemma ChildrenCompose(p: Assignment, m: int, incumbent: Option<Assignment>, next: Option<Assignment>,
        r: Option<Assignment>)
      requires Partial(p) && |p| < |rows| && 1 <= m <= 3 && IncumbentOk(incumbent)
      requires if Has(|p|, m) then Improves(incumbent, next, Below(p + [m])) else next == incumbent
      requires IncumbentOk(next) && Improves(next, r, BelowFrom(p, m + 1))
      ensures Improves(incumbent, r, BelowFrom(p, m))
    {
      var first, rest, all := Below(p + [m]), BelowFrom(p, m + 1), BelowFrom(p, m);
      forall s | Complete(s) && all(s)
        ensures (Has(|p|, m) && first(s)) || rest(s)
      {
        assert Has(|p|, s[|p|]);
      }
      forall s, t | first(s) && rest(t)
        ensures LexLess(s, t)
      {
        assert s[..|p|] == t[..|p|] && s[|p|] == m < t[|p|];
      }
      assert forall s :: first(s) || rest(s) ==> all(s);
    }

    /** The exhaustive search answers the instance. */
    lemma SearchSolves()
      ensures Solves(Search([], None))
    {
      SearchImproves([], None);
      assert forall s: Assignment :: Below([])(s);
    }

    // -------------------------------------------------------------- comparing the search trees

    /**
     A grid that contains 0 prunes wherever the suffix bound does, and the grid {0} prunes nowhere
     else.
     */
    lemma ZeroMultiplier(q: int, mus: seq<int>, k: int, p: Assignment, incumbent: Option<Assignment>)
      requires Valid() && 0 < q && Partial(p) && IncumbentOk(incumbent)
      requires 0 <= k < |mus| && mus[k] == 0
      ensures Prunes(CurrentSuffix, p, incumbent) ==> Prunes(Lagrangian(q, mus), p, incumbent)
      ensures |mus| == 1 ==> (Prunes(CurrentSuffix, p, incumbent) <==> Prunes(Lagrangian(q, mus), p, incumbent))
    {
      var mode := Lagrangian(q, mus);
      assert Weights(mode)[k] == Weight(q, q);
      SumScore(q, 0, p);
      ScaledSuffix(q, |p|);
      ScoreSplit(q, 0, Sum(TOTAL, p), MinSuffix(TOTAL, |p|), 0, 0);
      if incumbent.Some? {
        var t := Sum(TOTAL, incumbent.value);
        ScaleOrder(LowerBound(TOTAL, p), t, q);
        assert BoundExceeds(Weights(CurrentSuffix), p, t) <==> LowerBound(TOTAL, p) > t by {
          assert Weights(CurrentSuffix)[0] == TOTAL;
        }
      }
    }

    lemma ScaleOrder(a: int, b: int, q: int)
      requires 0 < q
      ensures q * a > b * q <==> a > b
    {
      if a > b {
        MulStrict(b, a, q);
      } else {
        MulMono(a, b, q);
      }
    }

    lemma {:induction false} ScaledSuffix(q: int, d: int)
      requires Valid() && 0 < q && 0 <= d <= |rows|
      ensures MinSuffix(Weight(q, q), d) == q * MinSuffix(TOTAL, d)
      decreases |rows| - d
    {
      if d < |rows| {
        ScaledSuffix(q, d + 1);
        ScaledRow(q, d);
        ScoreSplit(q, 0, MinUpTo(TOTAL, d, 3).value, MinSuffix(TOTAL, d + 1), 0, 0);
      }
    }

    lemma ScaledRow(q: int, d: int)
      requires 0 < q && 0 <= d < |rows| && Available(d)
      ensures MinUpTo(TOTAL, d, 3).Some? && MinUpTo(Weight(q, q), d, 3).Some?
      ensures MinUpTo(Weight(q, q), d, 3).value == q * MinUpTo(TOTAL, d, 3).value
    {
      RowBounds(TOTAL, d);
      RowBounds(Weight(q, q), d);
      var i :| Has(d, i) && MinUpTo(TOTAL, d, 3).value == Term(TOTAL, d, i);
      var j :| Has(d, j) && MinUpTo(Weight(q, q), d, 3).value == Term(Weight(q, q), d, j);
      UniformTerm(1, d, i);
      UniformTerm(1, d, j);
      UniformTerm(q, d, i);
      UniformTerm(q, d, j);
      var low := Cost(d, i);
      MulMono(low, Cost(d, j), q);
    }

    lemma UniformTerm(x: int, d: int, m: int)
      requires Has(d, m)
      ensures Term(Weight(x, x), d, m) == Cost(d, m) * x
    {
    }

    /** Lagrangian pruning visits no node that the suffix bound would not visit. */
    lemma {:induction false} VisitsShrink(q: int, mus: seq<int>, k: int, p: Assignment, incumbent: Option<Assignment>)
      requires Valid() && 0 < q && Partial(p) && IncumbentOk(incumbent)
      requires 0 <= k < |mus| && mus[k] == 0
      ensures |Visits(Lagrangian(q, mus), p, incumbent)| <= |Visits(CurrentSuffix, p, incumbent)|
      ensures forall node :: node in Visits(Lagrangian(q, mus), p, incumbent) ==> node in Visits(CurrentSuffix, p, incumbent)
      ensures |mus| == 1 ==> Visits(Lagrangian(q, mus), p, incumbent) == Visits(CurrentSuffix, p, incumbent)
      decreases |rows| - |p|, 4
    {
      ZeroMultiplier(q, mus, k, p, incumbent);
      if |p| < |rows| {
        VisitBranchesShrink(q, mus, k, p, 1, incumbent);
      }
    }

    lemma {:induction false} VisitBranchesShrink(q: int, mus: seq<int>, k: int, p: Assignment, m: int,
        incumbent: Option<Assignment>)
      requires Valid() && 0 < q && Partial(p) && |p| < |rows| && 1 <= m <= 4 && IncumbentOk(incumbent)
      requires 0 <= k < |mus| && mus[k] == 0
      ensures |VisitBranches(Lagrangian(q, mus), p, m, incumbent)| <= |VisitBranches(CurrentSuffix, p, m, incumbent)|
      ensures forall node :: node in VisitBranches(Lagrangian(q, mus), p, m, incumbent) ==>
        node in VisitBranches(CurrentSuffix, p, m, incumbent)
      ensures |mus| == 1 ==>
        VisitBranches(Lagrangian(q, mus), p, m, incumbent) == VisitBranches(CurrentSuffix, p, m, incumbent)
      decreases |rows| - |p|, 4 - m
    {
      if m < 4 {
        if Has(|p|, m) {
          VisitsShrink(q, mus, k, p + [m], incumbent);
          VisitBranchesShrink(q, mus, k, p, m + 1, Search(p + [m], incumbent));
        } else {
          VisitBranchesShrink(q, mus, k, p, m + 1, incumbent);
        }
      }
    }
  }

  // ---------------------------------------------------------------- one row among others

  predicate AnyMethod(row: Row) {
    row[0].Some? || row[1].Some? || row[2].Some?
  }

  function InContext(row: Row, rest: seq<Row>, scale: int, threshold: int): Instance {
    Instance([row] + rest, scale, threshold)
  }

  lemma ContextValid(row: Row, rest: seq<Row>, scale: int, threshold: int)
    requires 0 <= threshold < scale && AnyMethod(row) && forall j :: 0 <= j < |rest| ==> AnyMethod(rest[j])
    ensures InContext(row, rest, scale, threshold).Valid()
  {
    var inst := InContext(row, rest, scale, threshold);
    forall i | 0 <= i < |inst.rows|
      ensures inst.Available(i)
    {
      assert AnyMethod(inst.rows[i]);
    }
  }

  // ---------------------------------------------------------------- lexicographic order

  lemma LexLessAsymmetric(a: Assignment, b: Assignment)
    requires LexLess(a, b)
    ensures !LexLess(b, a)
  {
    if LexLess(b, a) {
      var i :| 0 <= i < |a| && i < |b| && a[..i] == b[..i] && a[i] < b[i];
      var j :| 0 <= j < |a| && j < |b| && b[..j] == a[..j] && b[j] < a[j];
      if i < j {
        CommonPrefix(a, b, i, j);
      } else if j < i {
        CommonPrefix(a, b, j, i);
      }
    }
  }

  lemma CommonPrefix(a: Assignment, b: Assignment, i: int, j: int)
    requires 0 <= i < j <= |a| && j <= |b| && a[..j] == b[..j]
    ensures a[i] == b[i]
  {
    assert a[..j][i] == b[..j][i];
  }
}
