/**
 The structured exact solver: the search over covers with its suffix tables, bounds and seed, and the
 driver that compresses the rows, takes the cheapest assignment when it is feasible, and validates
 the answer.
 */
module StructuredSearches {
  import opened Wrappers
  import opened NumberTheory
  import opened CostModel
  import opened CoverModels
  import opened CoverExactness

  const SCALE := 1_000_000

  datatype Error = BadThreshold | RowWithoutMethod | InternalValidation

  datatype Status = CheapestGlobalOptimum | OptimalVerified | NodeLimit | Infeasible

  datatype Answer = Answer(status: Status, solution: Option<Assignment>, objective: int, nodesVisited: nat)

  // ---------------------------------------------------------------- integer division

  /** Division that truncates toward zero, and its remainder. */
  function Truncated(n: int, d: int): int
    requires 0 < d
  {
    if n >= 0 then n / d else -(-n / d)
  }

  function Remainder(n: int, d: int): int
    requires 0 < d
  {
    n - Truncated(n, d) * d
  }

  /** floor_div: the truncated quotient, corrected for negative remainders, is the floor. */
  method FloorDiv(n: int, d: int) returns (q: int)
    requires 0 < d
    ensures q == n / d
  {
    q := Truncated(n, d);
    if Remainder(n, d) < 0 {
      q := q - 1;
    }
    FloorIs(n, d, q) by {
      RemainderSmall(n, d);
      var t := Truncated(n, d);
      assert (t - 1) * d == t * d - d && (t + 1) * d == t * d + d;
    }
  }

  lemma RemainderSmall(n: int, d: int)
    requires 0 < d
    ensures -d < Remainder(n, d) < d
  {
    if n < 0 {
      var m := -n;
      assert m == m / d * d + m % d;
      NegateProduct(m / d, d);
    }
  }

  lemma FloorIs(n: int, d: int, q: int)
    requires 0 < d && q * d <= n < (q + 1) * d
    ensures q == n / d
  {
    var e := n / d;
    if q < e {
      MulMono(q + 1, e, d);
    } else if e < q {
      MulMono(e + 1, q, d);
    }
  }

  // ---------------------------------------------------------------- the search

  class Search {
    const plan: Plan
    const maxNodes: nat
    const lagrangian: bool

    var suffixGain: seq<int>
    var suffixLagrangian: seq<seq<int>>
    var current: seq<int>
    var found: bool
    var bestExtra: int
    var best: seq<int>
    var nodesVisited: nat
    var limitReached: bool

    /** The candidates kept and the nodes visited, in order. */
    ghost var history: seq<Candidate>
    ghost var visited: seq<Bits>

    ghost predicate TablesOk()
      reads this`suffixGain, this`suffixLagrangian
    {
      && |suffixGain| == |plan.decisions| + 1
      && (forall k :: 0 <= k <= |plan.decisions| ==> suffixGain[k] == plan.SuffixGain(k))
      && (lagrangian ==>
            && |suffixLagrangian| == |GRID|
            && forall n :: 0 <= n < |GRID| ==>
                 && |suffixLagrangian[n]| == |plan.decisions| + 1
                 && forall k :: 0 <= k <= |plan.decisions| ==>
                      suffixLagrangian[n][k] == plan.SuffixReduced(GRID[n], k))
    }

    ghost predicate BestOk()
      requires plan.Valid()
      reads this`found, this`bestExtra, this`best, this`history
    {
      && plan.HistoryOk(history)
      && (found <==> history != [])
      && (found ==> history[|history| - 1] == Candidate(bestExtra, best))
    }

    ghost predicate Valid()
      reads this
    {
      && plan.Valid() && TablesOk() && BestOk() && nodesVisited == |visited|
      && (maxNodes != 0 ==> nodesVisited <= maxNodes)
      && (limitReached ==> maxNodes == nodesVisited != 0)
    }

    constructor (plan: Plan, maxNodes: nat, lagrangian: bool)
      requires plan.Valid()
      ensures Valid() && this.plan == plan && this.maxNodes == maxNodes && this.lagrangian == lagrangian
      ensures current == plan.base && history == [] && visited == [] && !limitReached
    {
      this.plan, this.maxNodes, this.lagrangian := plan, maxNodes, lagrangian;
      current := plan.base;
      found, bestExtra, best, nodesVisited, limitReached := false, 0, [], 0, false;
      history, visited := [], [];
      var gains := SuffixGains(plan);
      var tables := SuffixTables(plan, lagrangian);
      suffixGain, suffixLagrangian := gains, tables;
    }

    /** The loss of a dominated row. */
    method DominatedLoss(k: nat) returns (loss: int)
      requires plan.Valid() && k < |plan.dominated|
      ensures loss == plan.dominated[k].loss
    {
      hide Plan.Valid;
      var row := plan.dominated[k].row;
      for j := 0 to |plan.dominated|
        invariant j <= k
      {
        if plan.dominated[j].row == row {
          plan.DominatedDistinct(j, k);
          return plan.dominated[j].loss;
        }
      }
      assert false;
      loss := 0;
    }

    /** The cheapest dominated row that can supply method-3 cost. */
    method FindProvider(gain: int) returns (provider: Option<nat>)
      requires plan.Valid()
      ensures provider == plan.Provider(gain, |plan.dominated|)
    {
      hide Plan.Valid;
      provider := None;
      for k := 0 to |plan.dominated|
        invariant provider == plan.Provider(gain, k)
      {
        var d := plan.dominated[k];
        plan.DominatedAt(k);
        if plan.inst.Cost(d.row, 3) <= 0 {
          continue;
        }
        if plan.g0 + gain - d.loss < 0 {
          continue;
        }
        if provider.None? || d.extra < plan.dominated[provider.value].extra {
          provider := Some(k);
        }
      }
    }

    /** The solution that a cover yields: itself, or with the cheapest provider. */
    method Complete(gain: int, extra: int, rhs: bool, ghost bits: Bits) returns (offer: Option<Candidate>)
      requires plan.Valid() && plan.FirstCover(bits) && current == plan.Apply(bits)
      requires gain == plan.Gain(bits) && extra == plan.Extra(bits)
      requires plan.inst.Partial(current) && (rhs <==> PositiveM3(plan.inst, current) > 0)
      ensures offer == plan.Offer(bits)
    {
      plan.OfferIs(bits);
      hide Plan.Valid, Plan.Offer, Plan.Apply, Plan.Gain, Plan.Extra, Plan.Provider, PositiveM3;
      var candidate, candidateExtra, candidateGain := current, extra, gain;
      if !rhs {
        var provider := FindProvider(gain);
        if provider.None? {
          return None;
        }
        var d := plan.dominated[provider.value];
        candidate := candidate[d.row := 3];
        candidateExtra := candidateExtra + d.extra;
        var loss := DominatedLoss(provider.value);
        candidateGain := candidateGain - loss;
      }
      if plan.g0 + candidateGain < 0 {
        return None;
      }
      offer := Some(Candidate(candidateExtra, candidate));
    }

    /** A cover, completed to a solution, replaces the incumbent when it is cheaper. */
    method Submit(gain: int, extra: int, rhs: bool, ghost bits: Bits)
      requires Valid() && plan.FirstCover(bits) && current == plan.Apply(bits)
      requires gain == plan.Gain(bits) && extra == plan.Extra(bits)
      requires plan.inst.Partial(current) && (rhs <==> PositiveM3(plan.inst, current) > 0)
      modifies this`found, this`bestExtra, this`best, this`history
      ensures Valid() && history == plan.Keep(old(history), plan.Offer(bits))
    {
      hide Plan.Valid, TablesOk, Plan.Offer, Plan.Apply, Plan.Gain, Plan.Extra, PositiveM3;
      var offer := Complete(gain, extra, rhs, bits);
      if offer.Some? && (!found || offer.value.extra < bestExtra) {
        found, bestExtra, best := true, offer.value.extra, offer.value.choice;
        history := history + [offer.value];
      }
    }

    /** The largest floored bound over the multiplier grid. */
    method LagrangianLowerBound(depth: nat, residual: int) returns (bound: int)
      requires plan.Valid() && TablesOk() && lagrangian && depth <= |plan.decisions|
      ensures bound == if residual <= 0 then 0 else plan.Bound(depth, residual, |GRID|)
    {
      if residual <= 0 {
        return 0;
      }
      bound := 0;
      for n := 0 to |GRID|
        invariant bound == plan.Bound(depth, residual, n)
      {
        GridPositive(n);
        var m := GRID[n];
        MulStrict(0, m.q, plan.inst.scale);
        var quotient := FloorDiv(m.p * residual + suffixLagrangian[n][depth], m.q * plan.inst.scale);
        bound := MaxOf(bound, quotient);
      }
    }

    /** The cuts of one node, in the order of the source. */
    method IsCut(depth: nat, gain: int, cost: int, ghost bits: Bits) returns (cut: bool)
      requires Valid() && |bits| == depth <= |plan.decisions|
      requires gain == plan.Gain(bits) && cost == plan.Extra(bits) && gain < plan.required
      ensures cut == plan.Cut(lagrangian, bits, history)
    {
      if gain + suffixGain[depth] < plan.required {
        return true;
      }
      if found && cost >= bestExtra {
        return true;
      }
      cut := false;
      if found && lagrangian {
        var lower := LagrangianLowerBound(depth, plan.required - gain);
        cut := cost + lower >= bestExtra;
      }
    }

    /**
     How far a search below bits gets that starts after these nodes with these candidates: to its end,
     when the limit leaves room, or else as far as the limit goes.
     */
    ghost predicate Searched(bits: Bits, before: seq<Bits>, history0: seq<Candidate>, visited: seq<Bits>,
        history: seq<Candidate>, limit: bool)
      requires plan.Valid() && |bits| <= |plan.decisions| && (maxNodes != 0 ==> |before| <= maxNodes)
    {
      var nodes := plan.Nodes(lagrangian, bits, history0);
      if maxNodes == 0 || |before| + |nodes| <= maxNodes then
        !limit && visited == before + nodes && history == plan.Cover(bits, history0)
      else
        var budget := maxNodes - |before|;
        && limit && visited == before + nodes[..budget]
        && history == plan.KeptWithin(lagrangian, bits, history0, budget)
    }

    /** Without room for one node nothing happens. */
    lemma SearchedNothing(bits: Bits, before: seq<Bits>, history0: seq<Candidate>)
      requires plan.Valid() && |bits| <= |plan.decisions| && maxNodes != 0 && |before| == maxNodes
      ensures Searched(bits, before, history0, before, history0, true)
    {
      plan.NodesPositive(lagrangian, bits, history0);
      var nodes := plan.Nodes(lagrangian, bits, history0);
      assert nodes[..0] == [] && before + [] == before;
    }

    /** A node that does not branch. */
    lemma SearchedOne(bits: Bits, before: seq<Bits>, history0: seq<Candidate>)
      requires plan.Valid() && |bits| <= |plan.decisions| && (maxNodes != 0 ==> |before| < maxNodes)
      requires plan.Covers(bits) || plan.Cut(lagrangian, bits, history0) || |bits| == |plan.decisions|
      ensures Searched(bits, before, history0, before + [bits], plan.Cover(bits, history0), false)
    {
    }

    /** The limit is reached below the first child. */
    lemma SearchedLeft(bits: Bits, before: seq<Bits>, history0: seq<Candidate>, visited: seq<Bits>, history: seq<Candidate>)
      requires plan.Valid() && |bits| < |plan.decisions| && (maxNodes != 0 ==> |before| < maxNodes)
      requires !plan.Covers(bits) && !plan.Cut(lagrangian, bits, history0)
      requires Searched(bits + [true], before + [bits], history0, visited, history, true)
      ensures Searched(bits, before, history0, visited, history, true)
    {
      hide Plan.Cut, Plan.Covers, Plan.Nodes, Plan.KeptWithin, Plan.Cover, Plan.Valid;
      plan.Branches(lagrangian, bits, history0, maxNodes - |before|);
      plan.NodesPositive(lagrangian, bits + [false], plan.Cover(bits + [true], history0));
      var left := plan.Nodes(lagrangian, bits + [true], history0);
      var budget := maxNodes - |before|;
      assert before + [bits] + left[..budget - 1] == before + ([bits] + left[..budget - 1]);
    }

    /** Both children are searched to their ends. */
    lemma SearchedBoth(bits: Bits, before: seq<Bits>, history0: seq<Candidate>, visited1: seq<Bits>,
        history1: seq<Candidate>, visited: seq<Bits>, history: seq<Candidate>)
      requires plan.Valid() && |bits| < |plan.decisions| && (maxNodes != 0 ==> |before| < maxNodes)
      requires !plan.Covers(bits) && !plan.Cut(lagrangian, bits, history0)
      requires Searched(bits + [true], before + [bits], history0, visited1, history1, false)
      requires maxNodes != 0 ==> |visited1| <= maxNodes
      requires Searched(bits + [false], visited1, history1, visited, history, false)
      ensures Searched(bits, before, history0, visited, history, false)
    {
      hide Plan.Cut, Plan.Covers, Plan.Nodes, Plan.KeptWithin, Plan.Cover, Plan.Valid;
      plan.BranchesWhole(lagrangian, bits, history0);
      var left, right := plan.Nodes(lagrangian, bits + [true], history0), plan.Nodes(lagrangian, bits + [false], history1);
      assert before + [bits] + left + right == before + ([bits] + left + right);
    }

    /** The limit is reached below the second child. */
    lemma SearchedRight(bits: Bits, before: seq<Bits>, history0: seq<Candidate>, visited1: seq<Bits>,
        history1: seq<Candidate>, visited: seq<Bits>, history: seq<Candidate>)
      requires plan.Valid() && |bits| < |plan.decisions| && (maxNodes != 0 ==> |before| < maxNodes)
      requires !plan.Covers(bits) && !plan.Cut(lagrangian, bits, history0)
      requires Searched(bits + [true], before + [bits], history0, visited1, history1, false)
      requires maxNodes != 0 ==> |visited1| <= maxNodes
      requires Searched(bits + [false], visited1, history1, visited, history, true)
      ensures Searched(bits, before, history0, visited, history, true)
    {
      hide Plan.Cut, Plan.Covers, Plan.Nodes, Plan.KeptWithin, Plan.Cover, Plan.Valid;
      plan.Branches(lagrangian, bits, history0, maxNodes - |before|);
      var left, right := plan.Nodes(lagrangian, bits + [true], history0), plan.Nodes(lagrangian, bits + [false], history1);
      var cut := right[..maxNodes - |visited1|];
      assert before + [bits] + left + cut == before + ([bits] + left + cut);
    }

    /**
     The recursive search below one node: with room for all its nodes it visits them and keeps the
     candidates of the exhaustive search, whichever bounds are on. Otherwise it stops after as many
     as there is room for.
     */
    method Visit(depth: nat, gain: int, cost: int, m3Count: int, ghost bits: Bits)
      requires Valid() && |bits| == depth <= |plan.decisions| && plan.Open(bits) && !limitReached
      requires current == plan.Apply(bits) && plan.inst.Partial(current)
      requires gain == plan.Gain(bits) && cost == plan.Extra(bits) && m3Count == PositiveM3(plan.inst, current)
      modifies this`current, this`found, this`bestExtra, this`best, this`nodesVisited, this`limitReached,
        this`history, this`visited
      ensures Valid() && current == plan.Apply(bits)
      ensures Searched(bits, old(visited), old(history), visited, history, limitReached)
      decreases |plan.decisions| - depth
    {
      hide Plan.Valid, Plan.Apply, Plan.Gain, Plan.Extra, Plan.Open, Plan.Cut, Plan.Offer, Plan.Keep, PositiveM3, TablesOk,
        BestOk, Instance.Partial, Instance.Has, Plan.HistoryOk, Searched;
      ghost var before, history0 := visited, history;
      if maxNodes != 0 && nodesVisited >= maxNodes {
        limitReached := true;
        SearchedNothing(bits, before, history0);
        return;
      }
      nodesVisited := nodesVisited + 1;
      visited := visited + [bits];
      if gain >= plan.required {
        Submit(gain, cost, m3Count > 0, bits);
        SearchedOne(bits, before, history0);
        return;
      }
      var cut := IsCut(depth, gain, cost, bits);
      if cut {
        plan.CutIsSafe(lagrangian, bits, history);
        SearchedOne(bits, before, history0);
        return;
      }
      if depth == |plan.decisions| {
        SearchedOne(bits, before, history0);
        return;
      }
      var d := plan.decisions[depth];
      plan.Children(bits);
      current := current[d.row := d.choice];
      Visit(depth + 1, gain + d.gain, cost + d.extra, m3Count - (if plan.inst.Cost(d.row, 3) > 0 then 1 else 0),
            bits + [true]);
      current := current[d.row := 3];
      if limitReached {
        SearchedLeft(bits, before, history0, visited, history);
        return;
      }
      ghost var visited1, history1 := visited, history;
      Visit(depth + 1, gain, cost, m3Count, bits + [false]);
      if limitReached {
        SearchedRight(bits, before, history0, visited1, history1, visited, history);
      } else {
        SearchedBoth(bits, before, history0, visited1, history1, visited, history);
      }
    }

    /** How many rows of the current choice run method 3 at a positive cost. */
    method PositiveM3Count() returns (count: nat)
      requires plan.inst.Partial(current)
      ensures count == PositiveM3(plan.inst, current)
    {
      count := 0;
      for i := 0 to |current|
        invariant count == PositiveM3(plan.inst, current[..i])
      {
        assert current[..i + 1][..i] == current[..i];
        if current[i] == 3 && plan.inst.Cost(i, 3) > 0 {
          count := count + 1;
        }
      }
      assert current[..|current|] == current;
    }

    /** The upgrades in row order until they cover, as a first incumbent. */
    method Seed()
      requires Valid() && current == plan.base && history == [] && visited == [] && !limitReached
      modifies this`current, this`found, this`bestExtra, this`best, this`history
      ensures Valid() && current == plan.base
      ensures history == plan.SeedFrom(0) && plan.Cover([], history) == plan.Cover([], [])
    {
      hide Plan.Valid, Plan.Apply, Plan.Gain, Plan.Extra, Plan.Open, Plan.Offer, PositiveM3, TablesOk, Instance.Partial;
      plan.Root();
      assert Trues(0) == [];
      var gain, cost, used := 0, 0, 0;
      var m3 := PositiveM3Count();
      while used < |plan.decisions| && gain < plan.required
        invariant Valid() && history == [] && 0 <= used <= |plan.decisions|
        invariant plan.Open(Trues(used)) && current == plan.Apply(Trues(used)) && plan.inst.Partial(current)
        invariant gain == plan.Gain(Trues(used)) && cost == plan.Extra(Trues(used))
        invariant m3 == PositiveM3(plan.inst, current) && plan.SeedFrom(used) == plan.SeedFrom(0)
      {
        var d := plan.decisions[used];
        plan.Children(Trues(used));
        assert Trues(used) + [true] == Trues(used + 1);
        current := current[d.row := d.choice];
        gain, cost := gain + d.gain, cost + d.extra;
        if plan.inst.Cost(d.row, 3) > 0 {
          m3 := m3 - 1;
        }
        used := used + 1;
      }
      if gain >= plan.required {
        Submit(gain, cost, m3 > 0, Trues(used));
        plan.SeedChangesNothing(used, 0);
      }
      Restore(used);
    }

    /** The first decision rows go back to method 3. */
    method Restore(used: nat)
      requires plan.Valid() && used <= |plan.decisions| && current == plan.Apply(Trues(used))
      modifies this`current
      ensures current == plan.base
    {
      for i := 0 to used
        invariant |current| == |plan.base|
        invariant forall r :: 0 <= r < |current| ==>
          || current[r] == plan.base[r]
          || (current[r] == plan.Apply(Trues(used))[r] && forall k :: 0 <= k < i ==> plan.decisions[k].row != r)
      {
        current := current[plan.decisions[i].row := 3];
      }
      forall r | 0 <= r < |current|
        ensures current[r] == plan.base[r]
      {
        plan.ApplyAt(Trues(used), r);
      }
    }

    /** The whole search. */
    method Run()
      requires Valid() && current == plan.base && history == [] && visited == [] && !limitReached
      modifies this
      ensures Valid()
      ensures Searched([], [], plan.SeedHistory(), visited, history, limitReached)
      ensures plan.Cover([], plan.SeedHistory()) == plan.Cover([], [])
    {
      if plan.required > 0 {
        Seed();
      }
      var m3 := PositiveM3Count();
      Visit(0, 0, 0, m3, []);
    }
  }

  /** How a finished search stands to its instance. */
  lemma Finished(search: Search, inst: Instance, visited: seq<Bits>, history: seq<Candidate>, limit: bool)
    requires inst.Valid() && search.plan == PlanOf(inst) && !inst.Feasible(PlanOf(inst).base)
    requires search.Searched([], [], search.plan.SeedHistory(), visited, history, limit)
    requires search.plan.Cover([], search.plan.SeedHistory()) == search.plan.Cover([], [])
    ensures limit <==> search.maxNodes != 0 && search.maxNodes < |SearchNodes(inst, search.lagrangian)|
    ensures |visited| == if limit then search.maxNodes else |SearchNodes(inst, search.lagrangian)|
    ensures (if history == [] then None else Some(history[|history| - 1].choice))
      == if limit then FoundWithin(inst, search.lagrangian, search.maxNodes) else AnswerOf(inst)
  {
    assert [] + SearchNodes(inst, search.lagrangian) == SearchNodes(inst, search.lagrangian);
  }

  /** The gains of the decisions from each depth on. */
  method SuffixGains(plan: Plan) returns (s: seq<int>)
    ensures |s| == |plan.decisions| + 1
    ensures forall k :: 0 <= k <= |plan.decisions| ==> s[k] == plan.SuffixGain(k)
  {
    s := [0];
    for i := |plan.decisions| downto 0
      invariant |s| == |plan.decisions| + 1 - i
      invariant forall k :: 0 <= k <= |plan.decisions| - i ==> s[k] == plan.SuffixGain(i + k)
    {
      s := [s[0] + plan.decisions[i].gain] + s;
    }
  }

  /** The negative reduced costs of the decisions from each depth on, for one multiplier. */
  method SuffixReductions(plan: Plan, m: Multiplier) returns (s: seq<int>)
    ensures |s| == |plan.decisions| + 1
    ensures forall k :: 0 <= k <= |plan.decisions| ==> s[k] == plan.SuffixReduced(m, k)
  {
    s := [0];
    for i := |plan.decisions| downto 0
      invariant |s| == |plan.decisions| + 1 - i
      invariant forall k :: 0 <= k <= |plan.decisions| - i ==> s[k] == plan.SuffixReduced(m, i + k)
    {
      var d := plan.decisions[i];
      s := [s[0] + MinOf(0, d.extra * m.q * plan.inst.scale - m.p * d.gain)] + s;
    }
  }

  /** These tables for every multiplier of the grid, when the Lagrangian bound is on. */
  method SuffixTables(plan: Plan, lagrangian: bool) returns (tables: seq<seq<int>>)
    ensures lagrangian ==> |tables| == |GRID|
    ensures lagrangian ==> forall n :: 0 <= n < |GRID| ==>
      && |tables[n]| == |plan.decisions| + 1
      && forall k :: 0 <= k <= |plan.decisions| ==> tables[n][k] == plan.SuffixReduced(GRID[n], k)
  {
    tables := [];
    if !lagrangian {
      return;
    }
    for n := 0 to |GRID|
      invariant |tables| == n
      invariant forall l :: 0 <= l < n ==>
        && |tables[l]| == |plan.decisions| + 1
        && forall k :: 0 <= k <= |plan.decisions| ==> tables[l][k] == plan.SuffixReduced(GRID[l], k)
    {
      var table := SuffixReductions(plan, GRID[n]);
      tables := tables + [table];
    }
  }

  // ---------------------------------------------------------------- the driver

  /** The first cheapest method of a row. */
  method CheapestMethod(inst: Instance, i: nat) returns (best: int)
    requires i < |inst.rows|
    ensures best == -1 <==> !inst.Available(i)
    ensures best != -1 ==> inst.Has(i, best + 1) && best + 1 == BaseMethod(inst, i)
    ensures best != -1 ==> forall m :: inst.Has(i, m) ==> inst.Cost(i, best + 1) <= inst.Cost(i, m)
  {
    best := -1;
    for j := 0 to 3
      invariant best < j && (best == -1 || (0 <= best && inst.Has(i, best + 1)))
      invariant best == -1 ==> forall m :: m <= j ==> !inst.Has(i, m)
      invariant best != -1 ==> forall m :: m <= j && inst.Has(i, m) ==>
        inst.Cost(i, best + 1) <= inst.Cost(i, m) && (m <= best ==> inst.Cost(i, best + 1) < inst.Cost(i, m))
    {
      if inst.Has(i, j + 1) && (best < 0 || inst.Cost(i, j + 1) < inst.Cost(i, best + 1)) {
        best := j;
      }
    }
  }

  /** The cheapest method of every row: the base of the search. */
  method CheapestChoice(inst: Instance) returns (r: Option<Assignment>)
    requires 0 <= inst.threshold < inst.scale
    ensures r.Some? <==> inst.Valid()
    ensures r.Some? ==>
      && inst.Complete(r.value) && (forall i :: 0 <= i < |r.value| ==> r.value[i] == BaseMethod(inst, i))
      && forall x :: inst.Complete(x) ==> inst.Sum(TOTAL, r.value) <= inst.Sum(TOTAL, x)
  {
    var choice := [];
    for i := 0 to |inst.rows|
      invariant |choice| == i && forall k :: 0 <= k < i ==> inst.Available(k)
      invariant forall k :: 0 <= k < i ==> inst.Has(k, choice[k]) && choice[k] == BaseMethod(inst, k)
      invariant forall k, m :: 0 <= k < i && inst.Has(k, m) ==> inst.Cost(k, choice[k]) <= inst.Cost(k, m)
    {
      var best := CheapestMethod(inst, i);
      if best < 0 {
        return None;
      }
      choice := choice + [best + 1];
    }
    forall x | inst.Complete(x)
      ensures inst.Sum(TOTAL, choice) <= inst.Sum(TOTAL, x)
    {
      inst.SumMono(TOTAL, choice, x);
    }
    r := Some(choice);
  }

  /** The weighted sum of a whole choice, term by term. */
  method SumOf(inst: Instance, w: Weight, s: Assignment) returns (sum: int)
    requires inst.Partial(s)
    ensures sum == inst.Sum(w, s)
  {
    sum := 0;
    for i := 0 to |s|
      invariant sum == inst.Sum(w, s[..i])
    {
      assert s[..i + 1][..i] == s[..i];
      sum := sum + inst.Term(w, i, s[i]);
    }
    assert s[..|s|] == s;
  }

  /** validate: the answer is a feasible assignment with the stated cost. */
  method Validate(inst: Instance, s: Assignment, objective: int) returns (ok: bool)
    ensures ok <==> inst.Feasible(s) && inst.Sum(TOTAL, s) == objective
  {
    if |s| != |inst.rows| {
      return false;
    }
    var g, total, c3 := 0, 0, 0;
    for i := 0 to |s|
      invariant inst.Partial(s[..i])
      invariant g == inst.Sum(inst.Linear(), s[..i]) && total == inst.Sum(TOTAL, s[..i]) && c3 == inst.Sum(C3, s[..i])
    {
      if !inst.Has(i, s[i]) {
        return false;
      }
      assert s[..i + 1][..i] == s[..i];
      total := total + inst.Cost(i, s[i]);
      g := g + inst.Term(inst.Linear(), i, s[i]);
      if s[i] == 3 {
        c3 := c3 + inst.Cost(i, 3);
      }
    }
    assert s[..|s|] == s;
    ok := c3 > 0 && g >= 0 && total == objective;
  }

  /** Fixed, decision and dominated rows, and the margin of the base. */
  method BuildPlan(inst: Instance) returns (plan: Plan)
    requires inst.Valid()
    ensures plan == PlanOf(inst) && inst.Complete(plan.base)
  {
    hide Plan.Sorted;
    var base: seq<int>, decisions: seq<Decision>, dominated: seq<Dominated> := [], [], [];
    for i := 0 to |inst.rows|
      invariant Plan(inst, base, decisions, dominated, 0, 0) == PlanUpTo(inst, i)
    {
      base, decisions, dominated := SortRow(inst, i, base, decisions, dominated);
    }
    assert inst.Complete(base) by {
      assert PlanOf(inst).Valid();
    }
    var g0 := SumOf(inst, inst.Linear(), base);
    plan := Plan(inst, base, decisions, dominated, g0, if g0 < 0 then -g0 else 0);
  }

  /** One row: fixed, a decision, or dominated. */
  method SortRow(inst: Instance, i: nat, base: seq<int>, decisions: seq<Decision>, dominated: seq<Dominated>)
    returns (newBase: seq<int>, newDecisions: seq<Decision>, newDominated: seq<Dominated>)
    requires inst.Valid() && i < |inst.rows|
    ensures var before := Plan(inst, base, decisions, dominated, 0, 0);
      before.AddRow(i) == Plan(inst, newBase, newDecisions, newDominated, 0, 0)
  {
    assert inst.Available(i);
    newBase, newDecisions, newDominated := base, decisions, dominated;
    var m12, m3 := inst.Has(i, 1) || inst.Has(i, 2), inst.Has(i, 3);
    var am := if inst.Has(i, 1) && (!inst.Has(i, 2) || inst.Cost(i, 1) <= inst.Cost(i, 2)) then 1 else 2;
    if !m3 {
      newBase := base + [am];
    } else if !m12 {
      newBase := base + [3];
    } else {
      var a, b := inst.Cost(i, am), inst.Cost(i, 3);
      var swing := (inst.scale - inst.threshold) * a + inst.threshold * b;
      if a <= b {
        newBase := base + [am];
        newDominated := dominated + [Dominated(i, b - a, swing)];
      } else {
        newBase := base + [3];
        newDecisions := decisions + [Decision(i, am, a - b, swing)];
      }
    }
  }

  /** The nodes that a search of this instance would visit without a limit. */
  ghost function SearchNodes(inst: Instance, lagrangian: bool): seq<Bits>
    requires inst.Valid()
  {
    PlanOf(inst).Nodes(lagrangian, [], PlanOf(inst).SeedHistory())
  }

  /** What has been found on the first nodes of the search, its seed included. */
  ghost function FoundWithin(inst: Instance, lagrangian: bool, budget: nat): Option<Assignment>
    requires inst.Valid()
  {
    var plan := PlanOf(inst);
    var kept := plan.KeptWithin(lagrangian, [], plan.SeedHistory(), budget);
    if kept == [] then None else Some(kept[|kept| - 1].choice)
  }

  /**
   The answer of the solver: the cheapest assignment when it is feasible; else, when the limit leaves
   room for every node, AnswerOf; else what the nodes within the limit have found.
   */
  ghost predicate Answers(inst: Instance, maxNodes: nat, lagrangian: bool, a: Answer)
    requires inst.Valid()
  {
    var nodes := SearchNodes(inst, lagrangian);
    if inst.Feasible(PlanOf(inst).base) then
      a.status == CheapestGlobalOptimum && a.solution == Some(PlanOf(inst).base) && a.nodesVisited == 0
    else if maxNodes == 0 || |nodes| <= maxNodes then
      && a.status == (if AnswerOf(inst).None? then Infeasible else OptimalVerified)
      && a.solution == AnswerOf(inst) && a.nodesVisited == |nodes|
    else
      a.status == NodeLimit && a.solution == FoundWithin(inst, lagrangian, maxNodes) && a.nodesVisited == maxNodes
  }

  /**
   solve. Without a hit node limit both strategies return the same solution, AnswerOf, which is
   cheapest among the frugal solutions. With positive method-3 prices it is cheapest among the
   compressed rows, and when every row is safe, in particular at threshold 0, it is cheapest of all.
   The final validation cannot fail.
   */
  method Solve(rows: seq<Row>, threshold: int, maxNodes: nat, lagrangian: bool) returns (r: Result<Answer, Error>)
    ensures r == Failure(BadThreshold) <==> !(0 <= threshold < SCALE)
    ensures r == Failure(RowWithoutMethod) <==> 0 <= threshold < SCALE && !Instance(rows, SCALE, threshold).Valid()
    ensures r.Success? <==> Instance(rows, SCALE, threshold).Valid()
    ensures r.Success? ==>
      var inst := Instance(rows, SCALE, threshold);
      && Answers(inst, maxNodes, lagrangian, r.value)
      && (if r.value.solution.None? then r.value.objective == 0
          else inst.Feasible(r.value.solution.value) && r.value.objective == inst.Sum(TOTAL, r.value.solution.value))
      && (r.value.status == Infeasible ==> r.value.solution.None?)
      && (r.value.status == OptimalVerified || r.value.status == CheapestGlobalOptimum ==> r.value.solution.Some?)
      && (r.value.status == CheapestGlobalOptimum ==> Cheapest(inst, r.value.solution))
      && (r.value.status == NodeLimit ==> maxNodes != 0)
      && (r.value.status != NodeLimit ==>
            && r.value.solution == AnswerOf(inst) && CheapestFrugal(inst, r.value.solution)
            && (PositivePrices(inst) ==> CheapestKept(inst, r.value.solution))
            && (PositivePrices(inst) && EqualPrices(inst) ==> Cheapest(inst, r.value.solution))
            && (threshold == 0 ==> Cheapest(inst, r.value.solution))
            && (AllSafe(inst) ==> Cheapest(inst, r.value.solution)))
  {
    hide Plan.Valid, CheapestFrugal, CheapestKept, Cheapest, PositivePrices, EqualPrices, Instance.Feasible, Instance.Sum,
      AllSafe, PlanOf, SearchNodes, FoundWithin, AnswerOf, Search.Searched;
    if threshold < 0 || threshold >= SCALE {
      return Failure(BadThreshold);
    }
    var inst := Instance(rows, SCALE, threshold);
    var cheapest := CheapestChoice(inst);
    if cheapest.None? {
      return Failure(RowWithoutMethod);
    }
    AnswerIsCheapestFrugal(inst);
    AnswerIsCheapest(inst);
    SafeRowsSuffice(inst);
    BaseIs(inst, cheapest.value);
    var cost := SumOf(inst, TOTAL, cheapest.value);
    var valid := Validate(inst, cheapest.value, cost);
    if valid {
      return Success(Answer(CheapestGlobalOptimum, cheapest, cost, 0));
    }
    var plan := BuildPlan(inst);
    var baseCost := SumOf(inst, TOTAL, plan.base);
    var search := new Search(plan, maxNodes, lagrangian);
    search.Run();
    Finished(search, inst, search.visited, search.history, search.limitReached);
    if !search.found {
      return Success(Answer(if search.limitReached then NodeLimit else Infeasible, None, 0, search.nodesVisited));
    }
    KeptIsSolution(plan, search.history);
    var objective := baseCost + search.bestExtra;
    var ok := Validate(inst, search.best, objective);
    if !ok {
      return Failure(InternalValidation);
    }
    r := Success(Answer(if search.limitReached then NodeLimit else OptimalVerified, Some(search.best), objective,
                        search.nodesVisited));
  }

  /** The cheapest choice of every row is the base of the plan. */
  lemma BaseIs(inst: Instance, s: Assignment)
    requires inst.Valid() && |s| == |inst.rows| && forall i :: 0 <= i < |s| ==> s[i] == BaseMethod(inst, i)
    ensures s == PlanOf(inst).base
    ensures inst.Feasible(s) ==> AnswerOf(inst) == Some(s)
  {
    assert PlanOf(inst).Sorted(|inst.rows|);
  }

  /** The last candidate kept is a solution. */
  lemma KeptIsSolution(plan: Plan, h: seq<Candidate>)
    requires plan.Valid() && plan.HistoryOk(h) && h != []
    ensures plan.inst.Feasible(h[|h| - 1].choice)
    ensures plan.inst.Sum(TOTAL, h[|h| - 1].choice) == plan.inst.Sum(TOTAL, plan.base) + h[|h| - 1].extra
  {
    var c :| plan.FirstCover(c) && plan.Offer(c) == Some(h[|h| - 1]);
    hide Plan.Valid, Plan.Offer, Frugal;
    plan.OfferIsSolution(c);
  }
}
