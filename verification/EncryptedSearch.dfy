/**
 The encrypted branch-and-bound solver, on real ciphertexts and through the predicate engine. It is
 proved to carry out the exhaustive search of CostModel, pruned, and to keep every operand of a
 secure operation inside the range in which the operation is correct.
 */
module EncryptedSearches {
  import opened Wrappers
  import NumberTheory
  import opened Paillier
  import opened SecureProtocols
  import opened SecureOps
  import opened Garbling
  import opened FusedProtocol
  import opened PredicateEngines
  import opened CostModel
  import opened NumericDomains
  import opened LagrangianGrids
  import opened EncryptedCosts

  datatype SolveError = InvalidRequest | GridRejected(grid: GridError) | PredicateRefused(engine: EngineError)

  datatype Prefix = Prefix(total: Ciphertext, c12: Ciphertext, c3: Ciphertext, linear: Ciphertext)

  const NO_PREFIX := Prefix(0, 0, 0, 0)

  // Counters are 64-bit and wrap.
  const COUNTER_LIMIT := 0x1_0000_0000_0000_0000

  // ---------------------------------------------------------------- what ciphertexts carry

  ghost predicate PrefixHolds(k: Key, inst: Instance, x: Prefix, p: Assignment)
    requires inst.Partial(p)
  {
    && k.Holds(x.total, inst.Sum(TOTAL, p)) && k.Holds(x.c12, inst.Sum(C12, p))
    && k.Holds(x.c3, inst.Sum(C3, p)) && k.Holds(x.linear, inst.Sum(inst.Linear(), p))
  }

  /** The running scores of a prefix, one per multiplier. */
  ghost predicate ScoresHold(k: Key, inst: Instance, ws: seq<Weight>, cs: seq<Ciphertext>, p: Assignment)
    requires inst.Partial(p)
  {
    |cs| == |ws| && forall i :: 0 <= i < |ws| ==> k.Holds(cs[i], inst.Sum(ws[i], p))
  }

  // ---------------------------------------------------------------- preprocessing

  datatype RowTables = RowTables(
    linear: seq<Option<Ciphertext>>,
    scores: seq<seq<Ciphertext>>,
    lower: seq<Ciphertext>,
    maxLinear: Ciphertext)

  /** The bound mode of a solve, and the grid that goes with it. */
  predicate GridOk(domain: NumericDomain, threshold: int, grid: Option<Grid>, mode: BoundMode) {
    match grid
    case None => mode == CurrentSuffix
    case Some(g) => GoodGrid(domain, threshold, g) && mode == Lagrangian(g.q, g.mu)
  }

  ghost predicate RowTablesOk(k: Key, inst: Instance, mode: BoundMode, i: int, t: RowTables)
    requires inst.Valid() && 0 <= i < |inst.rows|
  {
    var ws := inst.Weights(mode);
    && |t.linear| == 3 && |t.scores| == 3 && |t.lower| == |ws|
    && (forall m :: inst.Has(i, m) ==>
          t.linear[m - 1].Some? && k.Holds(t.linear[m - 1].value, inst.Term(inst.Linear(), i, m)))
    && (mode.Lagrangian? ==> forall m :: inst.Has(i, m) ==> TermsHold(k, inst, ws, i, m, t.scores[m - 1]))
    && inst.MaxUpTo(inst.Linear(), i, 3).Some? && k.Holds(t.maxLinear, inst.MaxUpTo(inst.Linear(), i, 3).value)
    && forall n :: 0 <= n < |ws| ==>
         inst.MinUpTo(ws[n], i, 3).Some? && k.Holds(t.lower[n], inst.MinUpTo(ws[n], i, 3).value)
  }

  ghost predicate TermsHold(k: Key, inst: Instance, ws: seq<Weight>, i: int, m: int, cs: seq<Ciphertext>)
    requires inst.Has(i, m)
  {
    |cs| == |ws| && forall j :: 0 <= j < |ws| ==> k.Holds(cs[j], inst.Term(ws[j], i, m))
  }

  ghost predicate IsTerm(inst: Instance, w: Weight, i: int, v: int) {
    exists m :: inst.Has(i, m) && v == inst.Term(w, i, m)
  }

  /** One step of the running minimum of a row. */
  method KeepMin(k: Key, domain: NumericDomain, minimum: Option<Ciphertext>, c: Ciphertext,
      ghost inst: Instance, ghost w: Weight, ghost i: int, ghost j: nat)
    returns (r: Option<Ciphertext>)
    requires k.Valid() && domain.Admits(inst) && inst.Valid() && Safe(domain, w)
    requires 0 <= i < |inst.rows| && j < 3 && inst.Has(i, j + 1) && k.Holds(c, inst.Term(w, i, j + 1))
    requires HoldsOption(k, minimum, inst.MinUpTo(w, i, j))
    requires inst.MinUpTo(w, i, j).Some? ==> IsTerm(inst, w, i, inst.MinUpTo(w, i, j).value)
    ensures HoldsOption(k, r, inst.MinUpTo(w, i, j + 1))
  {
    hide Key.Holds;
    if minimum.None? {
      return Some(c);
    }
    ghost var m :| inst.Has(i, m) && inst.MinUpTo(w, i, j).value == inst.Term(w, i, m);
    SafeTerms(domain, inst, w, i, m, j + 1);
    var smaller := SecureOps.Min(k, minimum.value, c, inst.Term(w, i, m), inst.Term(w, i, j + 1));
    r := Some(smaller);
  }

  method KeepMax(k: Key, domain: NumericDomain, maximum: Option<Ciphertext>, c: Ciphertext,
      ghost inst: Instance, ghost w: Weight, ghost i: int, ghost j: nat)
    returns (r: Option<Ciphertext>)
    requires k.Valid() && domain.Admits(inst) && inst.Valid() && Safe(domain, w)
    requires 0 <= i < |inst.rows| && j < 3 && inst.Has(i, j + 1) && k.Holds(c, inst.Term(w, i, j + 1))
    requires HoldsOption(k, maximum, inst.MaxUpTo(w, i, j))
    requires inst.MaxUpTo(w, i, j).Some? ==> IsTerm(inst, w, i, inst.MaxUpTo(w, i, j).value)
    ensures HoldsOption(k, r, inst.MaxUpTo(w, i, j + 1))
  {
    hide Key.Holds;
    if maximum.None? {
      return Some(c);
    }
    ghost var m :| inst.Has(i, m) && inst.MaxUpTo(w, i, j).value == inst.Term(w, i, m);
    SafeTerms(domain, inst, w, i, m, j + 1);
    var larger := SecureOps.Max(k, maximum.value, c, inst.Term(w, i, m), inst.Term(w, i, j + 1));
    r := Some(larger);
  }

  lemma {:induction false} RunningIsTerm(inst: Instance, w: Weight, i: int, j: nat)
    requires 0 <= i < |inst.rows| && j <= 3
    ensures inst.MinUpTo(w, i, j).Some? ==> IsTerm(inst, w, i, inst.MinUpTo(w, i, j).value)
    ensures inst.MaxUpTo(w, i, j).Some? ==> IsTerm(inst, w, i, inst.MaxUpTo(w, i, j).value)
  {
    if j > 0 {
      RunningIsTerm(inst, w, i, j - 1);
    }
  }

  /** One row's contributions to the ratio constraint and their maximum, by the fixed method scan. */
  method RowLinear(k: Key, domain: NumericDomain, threshold: int, row: CostRow, ghost inst: Instance, ghost i: int)
    returns (linear: seq<Option<Ciphertext>>, maxLinear: Ciphertext)
    requires k.Valid() && Matches(domain, threshold, inst)
    requires 0 <= i < |inst.rows| && RowHolds(k, row, inst.rows[i])
    ensures |linear| == 3
    ensures forall m :: inst.Has(i, m) ==>
      linear[m - 1].Some? && k.Holds(linear[m - 1].value, inst.Term(inst.Linear(), i, m))
    ensures inst.MaxUpTo(inst.Linear(), i, 3).Some? && k.Holds(maxLinear, inst.MaxUpTo(inst.Linear(), i, 3).value)
  {
    hide Key.Holds, Instance.Term, Safe;
    ghost var w := inst.Linear();
    SafeBasics(domain, inst);
    linear := [];
    var maximum: Option<Ciphertext> := None;
    for j := 0 to 3
      invariant |linear| == j
      invariant forall m :: inst.Has(i, m) && m <= j ==>
        linear[m - 1].Some? && k.Holds(linear[m - 1].value, inst.Term(w, i, m))
      invariant HoldsOption(k, maximum, inst.MaxUpTo(w, i, j))
    {
      assert HoldsOption(k, row[j], inst.rows[i][j]);
      if row[j].None? {
        linear := linear + [None];
      } else {
        var factor := if j < 2 then domain.scale - threshold else -threshold;
        var contribution := ScalarMul(k, row[j].value, factor, inst.Cost(i, j + 1));
        ContributionTerm(inst, i, j + 1);
        linear := linear + [Some(contribution)];
        RunningIsTerm(inst, w, i, j);
        maximum := KeepMax(k, domain, maximum, contribution, inst, w, i, j);
      }
    }
    inst.RowBounds(w, i);
    maxLinear := maximum.value;
  }

  /** The cheapest available method of a row, encrypted. */
  method RowMinCost(k: Key, domain: NumericDomain, row: CostRow, ghost threshold: int, ghost inst: Instance, ghost i: int)
    returns (lower: Ciphertext)
    requires k.Valid() && Matches(domain, threshold, inst)
    requires 0 <= i < |inst.rows| && RowHolds(k, row, inst.rows[i])
    ensures inst.MinUpTo(TOTAL, i, 3).Some? && k.Holds(lower, inst.MinUpTo(TOTAL, i, 3).value)
  {
    hide Key.Holds, Key.Valid, Safe, NumericDomain.AcceptedByBackend, Instance.MaxUpTo;
    SafeBasics(domain, inst);
    var minimum: Option<Ciphertext> := None;
    for j := 0 to 3
      invariant HoldsOption(k, minimum, inst.MinUpTo(TOTAL, i, j))
    {
      assert HoldsOption(k, row[j], inst.rows[i][j]);
      if row[j].Some? {
        RunningIsTerm(inst, TOTAL, i, j);
        minimum := KeepMin(k, domain, minimum, row[j].value, inst, TOTAL, i, j);
      }
    }
    inst.RowBounds(TOTAL, i);
    lower := minimum.value;
  }

  /** The scores q * cost - mu * contribution of one method, over the grid. */
  method MethodScores(k: Key, grid: Grid, cost: Ciphertext, contribution: Ciphertext,
      ghost inst: Instance, ghost i: int, ghost m: int)
    returns (scores: seq<Ciphertext>)
    requires k.Valid() && inst.Has(i, m)
    requires k.Holds(cost, inst.Cost(i, m)) && k.Holds(contribution, inst.Term(inst.Linear(), i, m))
    ensures TermsHold(k, inst, inst.Weights(Lagrangian(grid.q, grid.mu)), i, m, scores)
  {
    hide Key.Holds;
    ghost var c := inst.Cost(i, m);
    ghost var l := inst.Term(inst.Linear(), i, m);
    ghost var a := if m < 3 then inst.Linear().a12 else inst.Linear().a3;
    var scaled := ScalarMul(k, cost, grid.q, c);
    scores := [];
    for j := 0 to |grid.mu|
      invariant |scores| == j
      invariant forall n :: 0 <= n < j ==> k.Holds(scores[n], inst.Term(inst.Score(grid.q, grid.mu[n]), i, m))
    {
      var mu := grid.mu[j];
      var score := scaled;
      if mu != 0 {
        var weighted := ScalarMul(k, contribution, mu, l);
        score := Sub(k, scaled, weighted, c * grid.q, l * mu);
      }
      inst.ScoreTerm(grid.q, mu, c, a);
      assert inst.Term(inst.Score(grid.q, mu), i, m) == c * grid.q - l * mu by {
        ScoreOfMethod(inst, grid.q, mu, i, m);
      }
      scores := scores + [score];
    }
  }

  lemma ScoreOfMethod(inst: Instance, q: int, mu: int, i: int, m: int)
    requires inst.Has(i, m)
    ensures inst.Term(inst.Score(q, mu), i, m) == inst.Cost(i, m) * q - inst.Term(inst.Linear(), i, m) * mu
  {
    var c := inst.Cost(i, m);
    var a := if m < 3 then inst.Linear().a12 else inst.Linear().a3;
    inst.ScoreTerm(q, mu, c, a);
    assert mu * -inst.threshold == -(mu * inst.threshold);
  }

  /** The least score of a row for one multiplier. */
  method RowLowerBound(k: Key, domain: NumericDomain, row: CostRow, scores: seq<seq<Ciphertext>>, n: nat,
      ghost ws: seq<Weight>, ghost inst: Instance, ghost i: int)
    returns (lower: Ciphertext)
    requires k.Valid() && domain.Admits(inst) && inst.Valid() && n < |ws| && Safe(domain, ws[n])
    requires 0 <= i < |inst.rows| && RowHolds(k, row, inst.rows[i]) && |scores| == 3
    requires forall m :: inst.Has(i, m) ==> TermsHold(k, inst, ws, i, m, scores[m - 1])
    ensures inst.MinUpTo(ws[n], i, 3).Some? && k.Holds(lower, inst.MinUpTo(ws[n], i, 3).value)
  {
    hide Key.Holds;
    var minimum: Option<Ciphertext> := None;
    for j := 0 to 3
      invariant HoldsOption(k, minimum, inst.MinUpTo(ws[n], i, j))
    {
      assert HoldsOption(k, row[j], inst.rows[i][j]);
      if row[j].Some? {
        assert inst.Has(i, j + 1) && scores[j] == scores[j + 1 - 1];
        RunningIsTerm(inst, ws[n], i, j);
        minimum := KeepMin(k, domain, minimum, scores[j][n], inst, ws[n], i, j);
      }
    }
    inst.RowBounds(ws[n], i);
    lower := minimum.value;
  }

  /** All the tables of one row: the bounds are scores over the grid, or plain costs. */
  method BuildRow(k: Key, domain: NumericDomain, threshold: int, grid: Option<Grid>, row: CostRow,
      ghost mode: BoundMode, ghost inst: Instance, ghost i: int)
    returns (t: RowTables)
    requires k.Valid() && Matches(domain, threshold, inst) && GridOk(domain, threshold, grid, mode)
    requires 0 <= i < |inst.rows| && RowHolds(k, row, inst.rows[i])
    ensures RowTablesOk(k, inst, mode, i, t)
  {
    hide Key.Holds;
    ghost var ws := inst.Weights(mode);
    var linear, maxLinear := RowLinear(k, domain, threshold, row, inst, i);
    match grid
    case None =>
      var lower := RowMinCost(k, domain, row, threshold, inst, i);
      t := RowTables(linear, [[], [], []], [lower], maxLinear);
    case Some(g) =>
      var scores := GridScores(k, g, row, linear, inst, i);
      var lower := RowLowerBounds(k, domain, threshold, g, row, scores, inst, i);
      t := RowTables(linear, scores, lower, maxLinear);
  }

  method GridScores(k: Key, grid: Grid, row: CostRow, linear: seq<Option<Ciphertext>>, ghost inst: Instance, ghost i: int)
    returns (scores: seq<seq<Ciphertext>>)
    requires k.Valid() && 0 <= i < |inst.rows| && RowHolds(k, row, inst.rows[i]) && |linear| == 3
    requires forall m :: inst.Has(i, m) ==>
      linear[m - 1].Some? && k.Holds(linear[m - 1].value, inst.Term(inst.Linear(), i, m))
    ensures |scores| == 3
    ensures forall m :: inst.Has(i, m) ==>
      TermsHold(k, inst, inst.Weights(Lagrangian(grid.q, grid.mu)), i, m, scores[m - 1])
  {
    hide Key.Holds;
    scores := [];
    for j := 0 to 3
      invariant |scores| == j
      invariant forall m :: inst.Has(i, m) && m <= j ==>
        TermsHold(k, inst, inst.Weights(Lagrangian(grid.q, grid.mu)), i, m, scores[m - 1])
    {
      assert HoldsOption(k, row[j], inst.rows[i][j]);
      if row[j].Some? {
        assert inst.Has(i, j + 1);
        var s := MethodScores(k, grid, row[j].value, linear[j].value, inst, i, j + 1);
        scores := scores + [s];
      } else {
        scores := scores + [[]];
      }
    }
  }

  method RowLowerBounds(k: Key, domain: NumericDomain, threshold: int, grid: Grid, row: CostRow,
      scores: seq<seq<Ciphertext>>, ghost inst: Instance, ghost i: int)
    returns (lower: seq<Ciphertext>)
    requires k.Valid() && Matches(domain, threshold, inst) && GoodGrid(domain, threshold, grid)
    requires 0 <= i < |inst.rows| && RowHolds(k, row, inst.rows[i]) && |scores| == 3
    requires forall m :: inst.Has(i, m) ==>
      TermsHold(k, inst, inst.Weights(Lagrangian(grid.q, grid.mu)), i, m, scores[m - 1])
    ensures |lower| == |grid.mu|
    ensures var ws := inst.Weights(Lagrangian(grid.q, grid.mu));
      forall n :: 0 <= n < |ws| ==> inst.MinUpTo(ws[n], i, 3).Some? && k.Holds(lower[n], inst.MinUpTo(ws[n], i, 3).value)
  {
    hide Key.Holds, Key.Valid, RowHolds, Safe, Instance.MinUpTo, NumericDomain.AcceptedByBackend, NumericDomain.Admits,
      CoefficientBound;
    ghost var ws := inst.Weights(Lagrangian(grid.q, grid.mu));
    lower := [];
    for n := 0 to |grid.mu|
      invariant |lower| == n
      invariant forall l :: 0 <= l < n ==>
        inst.MinUpTo(ws[l], i, 3).Some? && k.Holds(lower[l], inst.MinUpTo(ws[l], i, 3).value)
    {
      SafeScores(domain, inst, grid, n);
      var l := RowLowerBound(k, domain, row, scores, n, ws, inst, i);
      lower := lower + [l];
    }
  }

  /** Suffix tables, filled from the last row up. */
  datatype Tables = Tables(rows: seq<RowTables>, lowerSuffix: seq<seq<Ciphertext>>, maxLinearSuffix: seq<Ciphertext>)

  ghost predicate SuffixHolds(k: Key, inst: Instance, ws: seq<Weight>, d: int, cs: seq<Ciphertext>)
    requires inst.Valid() && 0 <= d <= |inst.rows|
  {
    |cs| == |ws| && forall n :: 0 <= n < |ws| ==> k.Holds(cs[n], inst.MinSuffix(ws[n], d))
  }

  ghost predicate TablesOk(k: Key, inst: Instance, mode: BoundMode, t: Tables)
    requires inst.Valid()
  {
    && |t.rows| == |inst.rows| && |t.lowerSuffix| == |t.maxLinearSuffix| == |inst.rows| + 1
    && (forall i :: 0 <= i < |inst.rows| ==> RowTablesOk(k, inst, mode, i, t.rows[i]))
    && (forall d :: 0 <= d <= |inst.rows| ==> SuffixHolds(k, inst, inst.Weights(mode), d, t.lowerSuffix[d]))
    && (forall d :: 0 <= d <= |inst.rows| ==> k.Holds(t.maxLinearSuffix[d], inst.MaxSuffix(inst.Linear(), d)))
  }

  /** One entry of the lower-bound suffix table. */
  method AddRow(k: Key, lower: seq<Ciphertext>, below: seq<Ciphertext>,
      ghost inst: Instance, ghost ws: seq<Weight>, ghost d: int)
    returns (sums: seq<Ciphertext>)
    requires k.Valid() && inst.Valid() && 0 <= d < |inst.rows| && SuffixHolds(k, inst, ws, d + 1, below)
    requires |lower| == |ws| && forall n :: 0 <= n < |ws| ==>
      inst.MinUpTo(ws[n], d, 3).Some? && k.Holds(lower[n], inst.MinUpTo(ws[n], d, 3).value)
    ensures SuffixHolds(k, inst, ws, d, sums)
  {
    hide Key.Holds;
    sums := [];
    for n := 0 to |lower|
      invariant |sums| == n && forall l :: 0 <= l < n ==> k.Holds(sums[l], inst.MinSuffix(ws[l], d))
    {
      var s := SecureOps.Add(k, lower[n], below[n], inst.MinUpTo(ws[n], d, 3).value, inst.MinSuffix(ws[n], d + 1));
      sums := sums + [s];
    }
  }

  /** The tables hold the suffix bounds of rows i, i+1, ... */
  ghost predicate SuffixesFrom(k: Key, inst: Instance, ws: seq<Weight>, i: nat,
      lowerSuffix: seq<seq<Ciphertext>>, maxLinearSuffix: seq<Ciphertext>)
    requires inst.Valid()
  {
    && |lowerSuffix| == |maxLinearSuffix| && i + |lowerSuffix| == |inst.rows| + 1
    && forall e :: 0 <= e < |lowerSuffix| ==>
         && SuffixHolds(k, inst, ws, i + e, lowerSuffix[e])
         && k.Holds(maxLinearSuffix[e], inst.MaxSuffix(inst.Linear(), i + e))
  }

  lemma PrependSuffix(k: Key, inst: Instance, ws: seq<Weight>, i: nat,
      lowerSuffix: seq<seq<Ciphertext>>, maxLinearSuffix: seq<Ciphertext>, lower: seq<Ciphertext>, m: Ciphertext)
    requires inst.Valid() && SuffixesFrom(k, inst, ws, i + 1, lowerSuffix, maxLinearSuffix)
    requires SuffixHolds(k, inst, ws, i, lower) && k.Holds(m, inst.MaxSuffix(inst.Linear(), i))
    ensures SuffixesFrom(k, inst, ws, i, [lower] + lowerSuffix, [m] + maxLinearSuffix)
  {
    hide Key.Holds, SuffixHolds;
    forall e | 0 <= e < |lowerSuffix| + 1
      ensures SuffixHolds(k, inst, ws, i + e, ([lower] + lowerSuffix)[e])
      ensures k.Holds(([m] + maxLinearSuffix)[e], inst.MaxSuffix(inst.Linear(), i + e))
    {
      if e > 0 {
        assert i + e == i + 1 + (e - 1);
      }
    }
  }

  method BuildSuffixes(k: Key, rows: seq<RowTables>, width: nat, ghost mode: BoundMode, ghost inst: Instance)
    returns (lowerSuffix: seq<seq<Ciphertext>>, maxLinearSuffix: seq<Ciphertext>)
    requires k.Valid() && inst.Valid() && |rows| == |inst.rows| && width == |inst.Weights(mode)|
    requires forall i :: 0 <= i < |rows| ==> RowTablesOk(k, inst, mode, i, rows[i])
    ensures SuffixesFrom(k, inst, inst.Weights(mode), 0, lowerSuffix, maxLinearSuffix)
  {
    hide Key.Holds;
    ghost var ws := inst.Weights(mode);
    var zero := EncryptConstant(k, 0);
    lowerSuffix, maxLinearSuffix := [seq(width, _ => zero)], [zero];
    for i := |rows| downto 0
      invariant SuffixesFrom(k, inst, ws, i, lowerSuffix, maxLinearSuffix)
    {
      assert RowTablesOk(k, inst, mode, i, rows[i]) && SuffixHolds(k, inst, ws, i + 1 + 0, lowerSuffix[0]);
      var sums := AddRow(k, rows[i].lower, lowerSuffix[0], inst, ws, i);
      var m := SecureOps.Add(k, rows[i].maxLinear, maxLinearSuffix[0],
                             inst.MaxUpTo(inst.Linear(), i, 3).value, inst.MaxSuffix(inst.Linear(), i + 1));
      PrependSuffix(k, inst, ws, i, lowerSuffix, maxLinearSuffix, sums, m);
      lowerSuffix, maxLinearSuffix := [sums] + lowerSuffix, [m] + maxLinearSuffix;
    }
  }

  method Preprocess(k: Key, domain: NumericDomain, threshold: int, grid: Option<Grid>, costs: seq<CostRow>,
      ghost mode: BoundMode, ghost inst: Instance)
    returns (t: Tables)
    requires k.Valid() && Matches(domain, threshold, inst) && GridOk(domain, threshold, grid, mode)
    requires CostsHold(k, costs, inst)
    ensures TablesOk(k, inst, mode, t)
  {
    hide Key.Holds, RowTablesOk, SuffixHolds;
    var rows: seq<RowTables> := [];
    for i := 0 to |costs|
      invariant |rows| == i && forall j :: 0 <= j < i ==> RowTablesOk(k, inst, mode, j, rows[j])
    {
      var row := BuildRow(k, domain, threshold, grid, costs[i], mode, inst, i);
      rows := rows + [row];
    }
    var width := if grid.None? then 1 else |grid.value.mu|;
    var lowerSuffix, maxLinearSuffix := BuildSuffixes(k, rows, width, mode, inst);
    t := Tables(rows, lowerSuffix, maxLinearSuffix);
  }

  // ---------------------------------------------------------------- names

  function PruneName(j: nat): string {
    "prune-" + Decimal(j)
  }

  function AcceptName(j: nat): string {
    "accept-" + Decimal(j)
  }

  function NodeName(j: nat): string {
    "node-" + Decimal(j)
  }

  lemma PrefixedInjective(prefix: string, i: nat, j: nat)
    ensures prefix + Decimal(i) == prefix + Decimal(j) <==> i == j
  {
    DecimalInjective(i, j);
    assert (prefix + Decimal(i))[|prefix|..] == Decimal(i);
    assert (prefix + Decimal(j))[|prefix|..] == Decimal(j);
  }

  /** One solve's operation names are all different. */
  lemma NamesDistinct(i: nat, j: nat)
    ensures PruneName(i) == PruneName(j) <==> i == j
    ensures AcceptName(i) == AcceptName(j) <==> i == j
    ensures PruneName(i) != AcceptName(j)
  {
    PrefixedInjective("prune-", i, j);
    PrefixedInjective("accept-", i, j);
    assert PruneName(i)[0] == 'p' && AcceptName(j)[0] == 'a';
  }

  lemma CounterDigits()
    ensures COUNTER_LIMIT < Pow10(20)
  {
    assert Pow10(5) == 100_000;
    assert Pow10(10) == 100_000 * Pow10(5);
    assert Pow10(15) == 100_000 * Pow10(10);
    assert Pow10(20) == 100_000 * Pow10(15);
  }

  /** Names over 64-bit counters are valid identifiers. */
  lemma NamesValid(j: nat)
    requires j < COUNTER_LIMIT
    ensures ValidIdentifier(PruneName(j)) && ValidIdentifier(AcceptName(j)) && ValidIdentifier(NodeName(j))
  {
    CounterDigits();
    DecimalLength(j, 20);
  }

  // ---------------------------------------------------------------- the requests of a run

  /** How many of the nodes are not complete. */
  ghost function OpenNodes(rows: nat, nodes: seq<Assignment>): (n: nat)
    ensures n <= |nodes|
  {
    if nodes == [] then 0 else
      OpenNodes(rows, nodes[..|nodes| - 1]) + if |nodes[|nodes| - 1]| < rows then 1 else 0
  }

  /** What the last of the nodes asks: PRUNE or ACCEPT, under names that count requests and nodes from 1. */
  ghost function RequestFor(session: string, rows: nat, nodes: seq<Assignment>): PredicateContext
    requires nodes != []
  {
    var depth, open := |nodes[|nodes| - 1]|, OpenNodes(rows, nodes);
    var node := "node-" + Decimal(|nodes| % COUNTER_LIMIT);
    if depth < rows then
      PredicateContext(session, "prune-" + Decimal(open % COUNTER_LIMIT), PredicateType.PruneNode,
                       depth % 0x1_0000_0000, node)
    else
      PredicateContext(session, "accept-" + Decimal((|nodes| - open) % COUNTER_LIMIT), PredicateType.AcceptCandidate,
                       depth % 0x1_0000_0000, node)
  }

  /** Every visited node makes one request, in the order of the visits. */
  ghost function Requests(session: string, rows: nat, nodes: seq<Assignment>): seq<PredicateContext> {
    if nodes == [] then [] else
      Requests(session, rows, nodes[..|nodes| - 1]) + [RequestFor(session, rows, nodes)]
  }

  /** The requests so far are those of the nodes, and two counters count them. */
  ghost predicate ToldBy(session: string, rows: nat, before: seq<PredicateContext>, reached: seq<PredicateContext>,
      prunes: nat, accepts: nat, nodes: seq<Assignment>)
  {
    && reached == before + Requests(session, rows, nodes)
    && prunes == OpenNodes(rows, nodes) % COUNTER_LIMIT
    && accepts == (|nodes| - OpenNodes(rows, nodes)) % COUNTER_LIMIT
  }

  /** The request of one more node has the next number of its kind. */
  lemma NextRequest(session: string, rows: nat, before: seq<PredicateContext>, reached: seq<PredicateContext>,
      prunes: nat, accepts: nat, nodes: seq<Assignment>)
    requires nodes != [] && ToldBy(session, rows, before, reached, prunes, accepts, nodes[..|nodes| - 1])
    ensures var (depth, node) := (|nodes[|nodes| - 1]|, "node-" + Decimal(|nodes| % COUNTER_LIMIT));
      var (p', a') := ((prunes + 1) % COUNTER_LIMIT, (accepts + 1) % COUNTER_LIMIT);
      if depth < rows then
        var name := "prune-" + Decimal(p');
        var c := PredicateContext(session, name, PredicateType.PruneNode, depth % 0x1_0000_0000, node);
        ToldBy(session, rows, before, reached + [c], p', accepts, nodes)
      else
        var name := "accept-" + Decimal(a');
        var c := PredicateContext(session, name, PredicateType.AcceptCandidate, depth % 0x1_0000_0000, node);
        ToldBy(session, rows, before, reached + [c], prunes, a', nodes)
  {
    hide Decimal, OpenNodes, Requests;
    var earlier := nodes[..|nodes| - 1];
    var open := OpenNodes(rows, earlier);
    RequestsGrow(session, rows, nodes);
    CountOn(open);
    CountOn(|earlier| - open);
    assert before + (Requests(session, rows, earlier) + [RequestFor(session, rows, nodes)])
        == before + Requests(session, rows, earlier) + [RequestFor(session, rows, nodes)];
  }

  lemma RequestsGrow(session: string, rows: nat, nodes: seq<Assignment>)
    requires nodes != []
    ensures var earlier := nodes[..|nodes| - 1];
      && OpenNodes(rows, nodes) == OpenNodes(rows, earlier) + (if |nodes[|nodes| - 1]| < rows then 1 else 0)
      && Requests(session, rows, nodes) == Requests(session, rows, earlier) + [RequestFor(session, rows, nodes)]
  {
  }

  lemma CountOn(n: nat)
    ensures (n % COUNTER_LIMIT + 1) % COUNTER_LIMIT == (n + 1) % COUNTER_LIMIT
  {
  }

  // ---------------------------------------------------------------- the search

  /** No operation name of the session has been used yet, in the engine or at the server. */
  ghost predicate SessionFresh(engine: PredicateEngine, session: string)
    reads engine, engine.csp
  {
    forall operation: string ::
      && (session, operation) !in engine.seen
      && (engine.fusion ==> SessionKey(session, operation) !in engine.csp.replays)
  }

  ghost predicate SessionUnknown(csp: CspServer, session: string)
    reads csp
  {
    forall operation: string :: SessionKey(session, operation) !in csp.replays
  }

  class Search {
    const engine: PredicateEngine
    const session: string
    const costs: seq<CostRow>
    const grid: Option<Grid>
    const tables: Tables
    ghost const domain: NumericDomain
    ghost const inst: Instance
    ghost const mode: BoundMode
    /** Whether no name of this session had been used when the search started. */
    ghost const freshSession: bool
    /** The denials before this search. */
    ghost const deniedBefore: nat
    /** The requests that were let through before this search. */
    ghost const reachedBefore: seq<PredicateContext>

    var hasIncumbent: bool
    var incumbent: Prefix
    var scaledIncumbent: Ciphertext
    var solution: seq<int>
    var current: seq<int>
    var nodeSequence: nat
    var pruneSequence: nat
    var acceptSequence: nat

    /** The incumbent's assignment, the nodes visited and the candidates accepted, in order. */
    ghost var best: Option<Assignment>
    ghost var visited: seq<Assignment>
    ghost var accepted: seq<Assignment>

    constructor (engine: PredicateEngine, session: string, costs: seq<CostRow>, grid: Option<Grid>, tables: Tables,
        ghost domain: NumericDomain, ghost inst: Instance, ghost mode: BoundMode, ghost freshSession: bool)
      requires engine.Valid() && |costs| == |inst.rows|
      requires freshSession ==> SessionFresh(engine, session)
      ensures fresh(this) && (Setup() ==> Valid())
      ensures this.freshSession == freshSession && deniedBefore == engine.denials && reachedBefore == engine.reached
      ensures Told([])
      ensures this.engine == engine && this.session == session && this.costs == costs && this.grid == grid
      ensures this.tables == tables && this.domain == domain && this.inst == inst && this.mode == mode
      ensures best == None && visited == [] && accepted == [] && !hasIncumbent
      ensures |current| == |costs| && nodeSequence == pruneSequence == acceptSequence == 0
    {
      this.engine, this.session, this.costs, this.grid, this.tables := engine, session, costs, grid, tables;
      this.domain, this.inst, this.mode, this.freshSession := domain, inst, mode, freshSession;
      hasIncumbent, incumbent, scaledIncumbent, solution := false, NO_PREFIX, 0, [];
      current := seq(|costs|, _ => 0);
      nodeSequence, pruneSequence, acceptSequence := 0, 0, 0;
      best, visited, accepted := None, [], [];
      deniedBefore, reachedBefore := engine.denials, engine.reached;
    }

    ghost predicate Setup() {
      && engine.csp.key.Valid() && inst.Valid() && |costs| == |inst.rows| && mode.Valid()
      && Matches(domain, inst.threshold, inst) && GridOk(domain, inst.threshold, grid, mode)
      && CostsHold(engine.csp.key, costs, inst) && TablesOk(engine.csp.key, inst, mode, tables)
      && ValidIdentifier(session)
    }

    ghost predicate IncumbentHolds()
      reads this`best, this`hasIncumbent, this`solution, this`incumbent, this`scaledIncumbent
    {
      && inst.IncumbentOk(best) && hasIncumbent == best.Some?
      && (best.Some? ==>
            && solution == best.value && PrefixHolds(engine.csp.key, inst, incumbent, best.value)
            && (grid.Some? ==> engine.csp.key.Holds(scaledIncumbent, inst.Sum(TOTAL, best.value) * grid.value.q)))
    }

    /** The operation name can still be used, here and at the server. */
    ghost predicate Unused(operation: string)
      reads engine, engine.csp
    {
      && (session, operation) !in engine.seen
      && (engine.fusion ==> SessionKey(session, operation) !in engine.csp.replays)
    }

    /** Every name after the ones given out is unused. */
    ghost predicate NamesFree()
      reads this`pruneSequence, this`acceptSequence, engine, engine.csp
    {
      && (forall j :: pruneSequence < j < COUNTER_LIMIT ==> Unused(PruneName(j)))
      && (forall j :: acceptSequence < j < COUNTER_LIMIT ==> Unused(AcceptName(j)))
    }

    /** The counters count the visited nodes as long as they have not wrapped. */
    ghost predicate NamesOk()
      reads this`nodeSequence, this`pruneSequence, this`acceptSequence, this`visited, engine, engine.csp
    {
      && nodeSequence < COUNTER_LIMIT && pruneSequence < COUNTER_LIMIT && acceptSequence < COUNTER_LIMIT
      && (freshSession && |visited| < COUNTER_LIMIT ==>
            pruneSequence <= |visited| && acceptSequence <= |visited| && NamesFree())
    }

    ghost predicate Valid()
      reads this, engine, engine.csp
    {
      && Setup() && engine.Valid() && deniedBefore <= engine.denials
      && |current| == |inst.rows| && IncumbentHolds() && NamesOk()
    }

    /** A refusal has a cause outside the search: the authorizer, counters past 64 bits, or used names. */
    ghost predicate Refused(error: EngineError)
      reads this, engine
    {
      (error == Denied && deniedBefore < engine.denials) || COUNTER_LIMIT <= |visited| || !freshSession
    }

    /** The requests so far are those of the nodes told, and the counters count them. */
    ghost predicate Told(nodes: seq<Assignment>)
      reads this`visited, this`nodeSequence, this`pruneSequence, this`acceptSequence, engine`reached
    {
      && nodeSequence == |visited| % COUNTER_LIMIT
      && ToldBy(session, |inst.rows|, reachedBefore, engine.reached, pruneSequence, acceptSequence, nodes)
    }

    /** The requests of all visited nodes but the last, which is p, are told. */
    ghost predicate Entered(p: Assignment)
      reads this`visited, this`nodeSequence, this`pruneSequence, this`acceptSequence, engine`reached
    {
      visited != [] && visited[|visited| - 1] == p && Told(visited[..|visited| - 1])
    }

    function Context(kind: PredicateType, depth: nat, operation: string): PredicateContext
      reads this
    {
      PredicateContext(session, operation, kind, depth % 0x1_0000_0000, NodeName(nodeSequence))
    }

    /** After a predicate call under the latest name, the later names are still unused. */
    twostate lemma NamesStayFree(context: PredicateContext)
      requires Setup() && context.session == session
      requires context.operation == PruneName(pruneSequence) || context.operation == AcceptName(acceptSequence)
      requires pruneSequence == old(pruneSequence) && acceptSequence == old(acceptSequence) && old(NamesFree())
      requires engine.seen <= old(engine.seen) + {(session, context.operation)}
      requires engine.csp.replays <= old(engine.csp.replays) + {ReplayKey(context)}
      ensures NamesFree()
    {
      hide Setup, PruneName, AcceptName;
      assert 0 as char !in session by {
        SessionHasNoZero();
      }
      forall name | name != context.operation && old(Unused(name))
        ensures Unused(name)
      {
        ReplayKeyInjective(PredicateContext(session, name, context.kind, context.depth, context.node), context);
      }
      forall j: nat
        ensures PruneName(j) == context.operation ==> j <= pruneSequence
        ensures AcceptName(j) == context.operation ==> j <= acceptSequence
      {
        NamesDistinct(j, pruneSequence);
        NamesDistinct(pruneSequence, j);
        NamesDistinct(j, acceptSequence);
      }
    }

    lemma SessionHasNoZero()
      requires Setup()
      ensures 0 as char !in session
    {
    }

    /** One PRUNE call under the next operation name. */
    method CallPrune(depth: nat, inputs: PruneInputs, ghost v: PruneValues)
      returns (r: Result<bool, EngineError>)
      requires Valid() && visited != [] && PruneHolds(engine.csp.key, inputs, v) && |v.costLowers| < MAX_BATCH
      requires inputs.hasIncumbent ==> inputs.costLowers != []
      requires freshSession && |visited| <= COUNTER_LIMIT - 1 ==> pruneSequence < |visited|
      modifies this`pruneSequence, engine, engine.csp
      ensures Valid()
      ensures r.Success? ==> r.value == PruneDecision(inputs.hasIncumbent, v)
      ensures pruneSequence == (old(pruneSequence) + 1) % COUNTER_LIMIT
      ensures r.Success? ==>
        engine.reached == old(engine.reached) + [Context(PredicateType.PruneNode, depth, PruneName(pruneSequence))]
      ensures r.Failure? ==> Refused(r.error)
    {
      hide Key.Holds, Key.Valid, TablesOk, CostsHold, Matches, GridOk, PruneDecision, PruneHolds, PruneName, AcceptName,
        NodeName, ValidIdentifier, PredicateEngine.Valid;
      pruneSequence := (pruneSequence + 1) % COUNTER_LIMIT;
      NamesValid(pruneSequence);
      NamesValid(nodeSequence);
      var context := Context(PredicateType.PruneNode, depth, PruneName(pruneSequence));
      assert freshSession && |visited| < COUNTER_LIMIT ==>
        Unused(PruneName(pruneSequence)) && engine.Fresh(context, PredicateType.PruneNode);
      label before:
      r := engine.PruneNode(context, inputs, v);
      if freshSession && |visited| < COUNTER_LIMIT {
        NamesStayFree@before(context);
      }
    }

    /** The PRUNE predicate under the next operation name. */
    method AskPrune(depth: nat, inputs: PruneInputs, ghost v: PruneValues, ghost p: Assignment)
      returns (r: Result<bool, EngineError>)
      requires Entered(p) && |p| == depth < |inst.rows|
      requires Valid() && visited != [] && PruneHolds(engine.csp.key, inputs, v) && |v.costLowers| < MAX_BATCH
      requires inputs.hasIncumbent ==> inputs.costLowers != []
      requires freshSession && |visited| <= COUNTER_LIMIT - 1 ==> pruneSequence < |visited|
      modifies this`pruneSequence, engine, engine.csp
      ensures Valid()
      ensures r.Success? ==> r.value == PruneDecision(inputs.hasIncumbent, v) && Told(visited)
      ensures r.Failure? ==> Refused(r.error)
    {
      hide Key.Holds, Key.Valid, PruneDecision, PruneHolds, ToldBy, Search.Valid, Refused;
      NextRequest(session, |inst.rows|, reachedBefore, engine.reached, pruneSequence, acceptSequence, visited);
      r := CallPrune(depth, inputs, v);
    }

    /** One ACCEPT call under the next operation name. */
    method CallAccept(depth: nat, inputs: AcceptInputs, ghost v: AcceptValues)
      returns (r: Result<bool, EngineError>)
      requires Valid() && visited != [] && AcceptHolds(engine.csp.key, inputs, v)
      requires freshSession && |visited| <= COUNTER_LIMIT - 1 ==> acceptSequence < |visited|
      modifies this`acceptSequence, engine, engine.csp
      ensures Valid()
      ensures r.Success? ==> r.value == AcceptDecision(inputs.hasIncumbent, v)
      ensures acceptSequence == (old(acceptSequence) + 1) % COUNTER_LIMIT
      ensures r.Success? ==>
        engine.reached == old(engine.reached) + [Context(PredicateType.AcceptCandidate, depth, AcceptName(acceptSequence))]
      ensures r.Failure? ==> Refused(r.error)
    {
      hide Key.Holds, Key.Valid, TablesOk, CostsHold, Matches, GridOk, AcceptDecision, AcceptHolds, PruneName, AcceptName,
        NodeName, ValidIdentifier, PredicateEngine.Valid;
      acceptSequence := (acceptSequence + 1) % COUNTER_LIMIT;
      NamesValid(acceptSequence);
      NamesValid(nodeSequence);
      var context := Context(PredicateType.AcceptCandidate, depth, AcceptName(acceptSequence));
      assert freshSession && |visited| < COUNTER_LIMIT ==>
        Unused(AcceptName(acceptSequence)) && engine.Fresh(context, PredicateType.AcceptCandidate);
      label before:
      r := engine.AcceptCandidate(context, inputs, v);
      if freshSession && |visited| < COUNTER_LIMIT {
        NamesStayFree@before(context);
      }
    }

    /** The ACCEPT predicate under the next operation name. */
    method AskAccept(depth: nat, inputs: AcceptInputs, ghost v: AcceptValues, ghost p: Assignment)
      returns (r: Result<bool, EngineError>)
      requires Entered(p) && |p| == depth == |inst.rows|
      requires Valid() && visited != [] && AcceptHolds(engine.csp.key, inputs, v)
      requires freshSession && |visited| <= COUNTER_LIMIT - 1 ==> acceptSequence < |visited|
      modifies this`acceptSequence, engine, engine.csp
      ensures Valid()
      ensures r.Success? ==> r.value == AcceptDecision(inputs.hasIncumbent, v) && Told(visited)
      ensures r.Failure? ==> Refused(r.error)
    {
      hide Key.Holds, Key.Valid, AcceptDecision, AcceptHolds, ToldBy, Search.Valid, Refused;
      NextRequest(session, |inst.rows|, reachedBefore, engine.reached, pruneSequence, acceptSequence, visited);
      r := CallAccept(depth, inputs, v);
    }

    /** The running scores of a node: kept only in Lagrangian mode. */
    ghost predicate LagHolds(lagPrefix: seq<Ciphertext>, p: Assignment)
      requires inst.Partial(p)
    {
      if grid.Some? then ScoresHold(engine.csp.key, inst, inst.Weights(mode), lagPrefix, p) else lagPrefix == []
    }

    ghost function BoundValues(p: Assignment): PruneValues
      requires Setup() && inst.Partial(p) && inst.IncumbentOk(best)
      reads this`best
    {
      var ws := inst.Weights(mode);
      PruneValues(inst.LinearUpper(p),
                  if best.Some? then seq(|ws|, n requires 0 <= n < |ws| => inst.LowerBound(ws[n], p)) else [],
                  if best.Some? then inst.Sum(TOTAL, best.value) * mode.Scale() else 0)
    }

    lemma WeightSafe(n: nat)
      requires Setup() && n < |inst.Weights(mode)|
      ensures Safe(domain, inst.Weights(mode)[n])
    {
      SafeBasics(domain, inst);
      if grid.Some? {
        SafeScores(domain, inst, grid.value, n);
      }
    }

    lemma ScaledInRange(s: Assignment)
      requires Setup() && inst.Partial(s)
      ensures InRange(inst.Sum(TOTAL, s) * mode.Scale())
    {
      SafeBasics(domain, inst);
      SafeSums(domain, inst, TOTAL, s);
      if grid.Some? {
        hide Safe, NumericDomain.Admits, NumericDomain.AcceptedByBackend, TablesOk, CostsHold, Key.Valid, InRange;
        SafeScores(domain, inst, grid.value, 0);
        ScaledSumInRange(domain, inst, grid.value.q, s);
      }
    }

    lemma BoundsInRange(p: Assignment)
      requires Setup() && inst.Partial(p) && inst.IncumbentOk(best)
      ensures var v := BoundValues(p);
        && InRange(v.linearUpper) && InRange(v.incumbentCost)
        && |v.costLowers| < MAX_BATCH && forall n :: 0 <= n < |v.costLowers| ==> InRange(v.costLowers[n])
    {
      hide Safe, NumericDomain.Admits, NumericDomain.AcceptedByBackend, TablesOk, CostsHold, Key.Valid;
      SafeBasics(domain, inst);
      SafeSums(domain, inst, inst.Linear(), p);
      forall n | 0 <= n < |inst.Weights(mode)|
        ensures InRange(inst.LowerBound(inst.Weights(mode)[n], p))
      {
        WeightSafe(n);
        SafeSums(domain, inst, inst.Weights(mode)[n], p);
      }
      if best.Some? {
        ScaledInRange(best.value);
      }
    }

    lemma PruneMatches(p: Assignment)
      requires Setup() && inst.Partial(p) && inst.IncumbentOk(best)
      ensures PruneDecision(best.Some?, BoundValues(p)) == inst.Prunes(mode, p, best)
    {
      hide Key.Valid, CostsHold, TablesOk, Matches, GridOk, Instance.LowerBound, Instance.LinearUpper, Instance.Sum;
      var v, ws := BoundValues(p), inst.Weights(mode);
      if best.Some? {
        var limit := inst.Sum(TOTAL, best.value) * mode.Scale();
        assert forall n :: 0 <= n < |ws| ==> v.costLowers[n] == inst.LowerBound(ws[n], p);
        if n :| 0 <= n < |ws| && inst.LowerBound(ws[n], p) > limit {
          assert v.costLowers[n] > v.incumbentCost;
        }
      }
    }

    /** The encrypted lower bounds of a node. */
    method CostLowers(depth: nat, prefix: Prefix, lagPrefix: seq<Ciphertext>, ghost p: Assignment)
      returns (costLowers: seq<Ciphertext>)
      requires Setup() && inst.Partial(p) && |p| == depth <= |inst.rows|
      requires PrefixHolds(engine.csp.key, inst, prefix, p) && LagHolds(lagPrefix, p)
      ensures |costLowers| == |inst.Weights(mode)|
      ensures forall n :: 0 <= n < |costLowers| ==>
        engine.csp.key.Holds(costLowers[n], inst.LowerBound(inst.Weights(mode)[n], p))
    {
      hide Key.Holds, Key.Valid, CostsHold, Matches, RowTablesOk;
      var k := engine.csp.key;
      ghost var ws := inst.Weights(mode);
      assert SuffixHolds(k, inst, ws, depth, tables.lowerSuffix[depth]);
      costLowers := [];
      if grid.Some? {
        for n := 0 to |grid.value.mu|
          invariant |costLowers| == n
          invariant forall l :: 0 <= l < n ==> k.Holds(costLowers[l], inst.LowerBound(ws[l], p))
        {
          var lower := SecureOps.Add(k, lagPrefix[n], tables.lowerSuffix[depth][n],
                                     inst.Sum(ws[n], p), inst.MinSuffix(ws[n], depth));
          costLowers := costLowers + [lower];
        }
      } else {
        var lower := SecureOps.Add(k, prefix.total, tables.lowerSuffix[depth][0],
                                   inst.Sum(TOTAL, p), inst.MinSuffix(TOTAL, depth));
        costLowers := [lower];
      }
    }

    /** The bounds of a node, and the PRUNE decision about them. */
    method PruneHere(depth: nat, prefix: Prefix, lagPrefix: seq<Ciphertext>, ghost p: Assignment)
      returns (r: Result<bool, EngineError>)
      requires Valid() && inst.Partial(p) && |p| == depth < |inst.rows| && Entered(p)
      requires PrefixHolds(engine.csp.key, inst, prefix, p) && LagHolds(lagPrefix, p)
      requires freshSession && |visited| <= COUNTER_LIMIT - 1 ==> pruneSequence < |visited|
      modifies this`pruneSequence, engine, engine.csp
      ensures Valid()
      ensures r.Success? ==> r.value == inst.Prunes(mode, p, best) && Told(visited)
      ensures r.Failure? ==> Refused(r.error)
    {
      hide Key.Holds, Key.Valid, CostsHold, Matches, PredicateEngine.Valid, NamesOk, PruneDecision, LagHolds, InRange, Told;
      var k := engine.csp.key;
      assert k.Holds(tables.maxLinearSuffix[depth], inst.MaxSuffix(inst.Linear(), depth));
      var linearUpper := SecureOps.Add(k, prefix.linear, tables.maxLinearSuffix[depth],
                                       inst.Sum(inst.Linear(), p), inst.MaxSuffix(inst.Linear(), depth));
      var costLowers: seq<Ciphertext> := [];
      var pruneIncumbent := incumbent.total;
      ghost var v := BoundValues(p);
      BoundsInRange(p);
      PruneMatches(p);
      if hasIncumbent {
        costLowers := CostLowers(depth, prefix, lagPrefix, p);
        if grid.Some? {
          pruneIncumbent := scaledIncumbent;
        }
      }
      var inputs := PruneInputs(linearUpper, costLowers, hasIncumbent, pruneIncumbent);
      assert PruneHolds(k, inputs, v);
      r := AskPrune(depth, inputs, v, p);
    }

    lemma LeafInRange(s: Assignment)
      requires Setup() && inst.Partial(s)
      ensures InRange(inst.Sum(inst.Linear(), s)) && InRange(inst.Sum(TOTAL, s))
      ensures InRange(inst.Sum(C12, s)) && InRange(inst.Sum(C3, s))
    {
      SafeBasics(domain, inst);
      SafeSums(domain, inst, inst.Linear(), s);
      SafeSums(domain, inst, TOTAL, s);
      SafeSums(domain, inst, C12, s);
      SafeSums(domain, inst, C3, s);
    }

    /** The new incumbent, with its scaled cost in Lagrangian mode. */
    method ReplaceIncumbent(prefix: Prefix, ghost p: Assignment)
      requires Valid() && inst.Feasible(p) && current == p && PrefixHolds(engine.csp.key, inst, prefix, p)
      modifies this`hasIncumbent, this`incumbent, this`scaledIncumbent, this`solution, this`best, this`accepted
      ensures Valid() && best == Some(p) && accepted == old(accepted) + [p]
    {
      hide Key.Holds, Key.Valid, Setup, PredicateEngine.Valid, NamesOk;
      ValidFacts();
      if grid.Some? {
        scaledIncumbent := ScalarMul(engine.csp.key, prefix.total, grid.value.q, inst.Sum(TOTAL, p));
      }
      hasIncumbent, incumbent, solution := true, prefix, current;
      best, accepted := Some(p), accepted + [p];
    }

    /** A complete assignment: ask ACCEPT, and replace the incumbent when it says so. */
    method Leaf(depth: nat, prefix: Prefix, ghost p: Assignment) returns (r: Result<(), EngineError>)
      requires Valid() && inst.Complete(p) && depth == |p| && Entered(p) && current == p
      requires PrefixHolds(engine.csp.key, inst, prefix, p)
      requires freshSession && |visited| <= COUNTER_LIMIT - 1 ==> acceptSequence < |visited|
      modifies this`acceptSequence, this`hasIncumbent, this`incumbent, this`scaledIncumbent, this`solution,
        this`best, this`accepted, engine, engine.csp
      ensures Valid()
      ensures r.Success? ==>
        best == inst.Search(p, old(best)) && accepted == old(accepted) + inst.Accepted(p, old(best)) && Told(visited)
      ensures r.Failure? ==> Refused(r.error)
    {
      hide Key.Holds, Key.Valid, CostsHold, Matches, PredicateEngine.Valid, NamesOk, TablesOk, InRange, Told;
      ghost var b := if best.Some? then best.value else p;
      LeafInRange(p);
      LeafInRange(b);
      ghost var v := AcceptValues(inst.Sum(inst.Linear(), p), inst.Sum(C3, p), inst.Sum(TOTAL, p), inst.Sum(C12, p),
                                  inst.Sum(TOTAL, b), inst.Sum(C12, b));
      var inputs := AcceptInputs(prefix.linear, prefix.c3, prefix.total, prefix.c12, hasIncumbent,
                                 incumbent.total, incumbent.c12);
      assert AcceptHolds(engine.csp.key, inputs, v);
      assert AcceptDecision(hasIncumbent, v) == inst.Accepts(best, p);
      var ask := AskAccept(depth, inputs, v, p);
      if ask.Failure? {
        return Failure(ask.error);
      }
      if ask.value {
        ReplaceIncumbent(prefix, p);
      }
      r := Success(());
    }

    /** The prefix of a child node. */
    method Extend(depth: nat, m: int, prefix: Prefix, ghost p: Assignment) returns (child: Prefix)
      requires Setup()
      requires inst.Partial(p) && depth == |p| && inst.Has(depth, m) && PrefixHolds(engine.csp.key, inst, prefix, p)
      ensures inst.Partial(p + [m]) && PrefixHolds(engine.csp.key, inst, child, p + [m])
    {
      hide Key.Holds, Key.Valid, Matches, SuffixHolds;
      var k := engine.csp.key;
      var cost := costs[depth][m - 1].value;
      ghost var c := inst.Cost(depth, m);
      assert RowHolds(k, costs[depth], inst.rows[depth]) && HoldsOption(k, costs[depth][m - 1], inst.rows[depth][m - 1]);
      assert RowTablesOk(k, inst, mode, depth, tables.rows[depth]);
      inst.SumAppend(TOTAL, p, m);
      inst.SumAppend(C12, p, m);
      inst.SumAppend(C3, p, m);
      inst.SumAppend(inst.Linear(), p, m);
      var total := SecureOps.Add(k, prefix.total, cost, inst.Sum(TOTAL, p), c);
      var c12, c3 := prefix.c12, prefix.c3;
      if m < 3 {
        c12 := SecureOps.Add(k, prefix.c12, cost, inst.Sum(C12, p), c);
      } else {
        c3 := SecureOps.Add(k, prefix.c3, cost, inst.Sum(C3, p), c);
      }
      var linear := SecureOps.Add(k, prefix.linear, tables.rows[depth].linear[m - 1].value,
                                  inst.Sum(inst.Linear(), p), inst.Term(inst.Linear(), depth, m));
      child := Prefix(total, c12, c3, linear);
    }

    method ExtendScores(depth: nat, m: int, lagPrefix: seq<Ciphertext>, ghost p: Assignment)
      returns (child: seq<Ciphertext>)
      requires Setup()
      requires inst.Partial(p) && depth == |p| && inst.Has(depth, m) && LagHolds(lagPrefix, p)
      ensures inst.Partial(p + [m]) && LagHolds(child, p + [m])
    {
      hide Key.Holds, Key.Valid, Matches, SuffixHolds, CostsHold;
      var k := engine.csp.key;
      ghost var ws := inst.Weights(mode);
      inst.SumAppend(TOTAL, p, m);
      child := [];
      if grid.Some? {
        assert RowTablesOk(k, inst, mode, depth, tables.rows[depth]);
        assert TermsHold(k, inst, ws, depth, m, tables.rows[depth].scores[m - 1]);
        for n := 0 to |grid.value.mu|
          invariant |child| == n && forall l :: 0 <= l < n ==> k.Holds(child[l], inst.Sum(ws[l], p + [m]))
        {
          inst.SumAppend(ws[n], p, m);
          var s := SecureOps.Add(k, lagPrefix[n], tables.rows[depth].scores[m - 1][n],
                                 inst.Sum(ws[n], p), inst.Term(ws[n], depth, m));
          child := child + [s];
        }
      }
    }

    lemma ValidFacts()
      requires Valid()
      ensures Setup() && engine.csp.key.Valid() && inst.Valid() && mode.Valid()
      ensures |costs| == |inst.rows| == |current| && inst.IncumbentOk(best)
    {
    }

    /** A new node: its number is taken, and its predicates will find unused names. */
    method Enter(ghost p: Assignment)
      requires Valid() && Told(visited)
      modifies this`nodeSequence, this`visited
      ensures Valid() && Entered(p) && visited == old(visited) + [p]
      ensures freshSession && |visited| <= COUNTER_LIMIT - 1 ==> pruneSequence < |visited| && acceptSequence < |visited|
    {
      hide Setup, IncumbentHolds, ToldBy, PredicateEngine.Valid, Unused;
      CountOn(|visited|);
      nodeSequence := (nodeSequence + 1) % COUNTER_LIMIT;
      visited := visited + [p];
    }

    /**
     The recursive search from one node: exactly the incumbents of the exhaustive search, and exactly
     the nodes of the pruned tree.
     */
    method Visit(depth: nat, prefix: Prefix, lagPrefix: seq<Ciphertext>, ghost p: Assignment)
      returns (r: Result<(), EngineError>)
      requires Valid() && inst.Partial(p) && |p| == depth <= |inst.rows| && current[..depth] == p
      requires PrefixHolds(engine.csp.key, inst, prefix, p) && LagHolds(lagPrefix, p) && Told(visited)
      modifies this, engine, engine.csp
      ensures Valid() && current[..depth] == p
      ensures r.Success? ==>
        && best == inst.Search(p, old(best))
        && visited == old(visited) + inst.Visits(mode, p, old(best))
        && accepted == old(accepted) + inst.Accepted(p, old(best)) && Told(visited)
      ensures r.Failure? ==> Refused(r.error)
      decreases |inst.rows| - depth, 2
    {
      hide Key.Holds, Search.Valid, PrefixHolds, LagHolds, Refused, Setup, Told, Instance.Sum, Instance.Has, Instance.Prunes,
        Instance.Accepts;
      ValidFacts();
      Enter(p);
      if depth == |costs| {
        assert current == current[..depth];
        r := Leaf(depth, prefix, p);
        return;
      }
      var prune := PruneHere(depth, prefix, lagPrefix, p);
      if prune.Failure? {
        return Failure(prune.error);
      }
      if prune.value {
        inst.PruningIsSafe(mode, p, best);
        return Success(());
      }
      r := VisitChildren(depth, prefix, lagPrefix, p);
      assert visited == old(visited) + inst.Visits(mode, p, old(best)) || r.Failure? by {
        assert old(visited) + [p] + inst.VisitBranches(mode, p, 1, old(best))
            == old(visited) + ([p] + inst.VisitBranches(mode, p, 1, old(best)));
      }
    }

    /** The methods of the row at this depth, in order. */
    method VisitChildren(depth: nat, prefix: Prefix, lagPrefix: seq<Ciphertext>, ghost p: Assignment)
      returns (r: Result<(), EngineError>)
      requires Valid() && inst.Partial(p) && |p| == depth < |inst.rows| && current[..depth] == p
      requires PrefixHolds(engine.csp.key, inst, prefix, p) && LagHolds(lagPrefix, p) && Told(visited)
      modifies this, engine, engine.csp
      ensures Valid() && current[..depth] == p
      ensures r.Success? ==>
        && best == inst.SearchBranches(p, 1, old(best))
        && visited == old(visited) + inst.VisitBranches(mode, p, 1, old(best))
        && accepted == old(accepted) + inst.AcceptedBranches(p, 1, old(best)) && Told(visited)
      ensures r.Failure? ==> Refused(r.error)
      decreases |inst.rows| - depth, 1
    {
      hide Key.Holds, Search.Valid, PrefixHolds, LagHolds, Refused, Setup, Told, Instance.Sum, Instance.Has, Instance.Prunes,
        Instance.Accepts;
      ValidFacts();
      ghost var best0, visited0, accepted0 := best, visited, accepted;
      for j := 0 to 3
        invariant Told(visited)
        invariant Valid() && inst.IncumbentOk(best) && |current| == |inst.rows| && current[..depth] == p
        invariant inst.SearchBranches(p, j + 1, best) == inst.SearchBranches(p, 1, best0)
        invariant visited + inst.VisitBranches(mode, p, j + 1, best) == visited0 + inst.VisitBranches(mode, p, 1, best0)
        invariant accepted + inst.AcceptedBranches(p, j + 1, best) == accepted0 + inst.AcceptedBranches(p, 1, best0)
      {
        var down := VisitChild(depth, j + 1, prefix, lagPrefix, p);
        ValidFacts();
        if down.Failure? {
          return Failure(down.error);
        }
      }
      assert inst.VisitBranches(mode, p, 4, best) == [] && inst.AcceptedBranches(p, 4, best) == [];
      assert visited + [] == visited && accepted + [] == accepted;
      r := Success(());
    }

    /** Method m of the row at this depth: its subtree, when the method is available. */
    method VisitChild(depth: nat, m: int, prefix: Prefix, lagPrefix: seq<Ciphertext>, ghost p: Assignment)
      returns (r: Result<(), EngineError>)
      requires Valid() && inst.Partial(p) && |p| == depth < |inst.rows| && current[..depth] == p && 1 <= m <= 3
      requires PrefixHolds(engine.csp.key, inst, prefix, p) && LagHolds(lagPrefix, p) && Told(visited)
      modifies this, engine, engine.csp
      ensures Valid() && current[..depth] == p
      ensures r.Success? ==> Told(visited)
      ensures r.Success? && !inst.Has(depth, m) ==>
        best == old(best) && visited == old(visited) && accepted == old(accepted)
      ensures r.Success? && inst.Has(depth, m) ==>
        && inst.Partial(p + [m])
        && best == inst.Search(p + [m], old(best))
        && visited == old(visited) + inst.Visits(mode, p + [m], old(best))
        && accepted == old(accepted) + inst.Accepted(p + [m], old(best))
      ensures r.Failure? ==> Refused(r.error)
      decreases |inst.rows| - depth, 0
    {
      hide Key.Holds, Key.Valid, CostsHold, Matches, PredicateEngine.Valid, TablesOk, PrefixHolds, LagHolds, Refused;
      Availability(depth, m - 1);
      if costs[depth][m - 1].None? {
        return Success(());
      }
      var child := Extend(depth, m, prefix, p);
      var childScores := ExtendScores(depth, m, lagPrefix, p);
      current := current[depth := m];
      assert current[..depth + 1] == p + [m];
      r := Visit(depth + 1, child, childScores, p + [m]);
      assert current[..depth] == current[..depth + 1][..depth];
    }

    lemma Availability(i: nat, j: nat)
      requires Setup() && i < |costs| && j < 3
      ensures costs[i][j].Some? == inst.Has(i, j + 1)
    {
      assert RowHolds(engine.csp.key, costs[i], inst.rows[i]);
      assert HoldsOption(engine.csp.key, costs[i][j], inst.rows[i][j]);
    }
  }

  // ---------------------------------------------------------------- the solver

  datatype CostBound = SuffixBound | LagrangianBound(config: GridConfig)

  datatype SolveResult = SolveResult(feasible: bool, solution: seq<int>, aggregates: Prefix)

  /** The request checks that need no secret. */
  ghost predicate RequestOk(domain: NumericDomain, costs: seq<CostRow>, threshold: int, session: string) {
    && 0 < |costs| <= domain.maxRows
    && 0 <= threshold < domain.scale
    && ValidIdentifier(session)
    && forall i :: 0 <= i < |costs| ==> costs[i][0].Some? || costs[i][1].Some? || costs[i][2].Some?
  }

  method CheckRequest(domain: NumericDomain, costs: seq<CostRow>, threshold: int, session: string) returns (ok: bool)
    ensures ok <==> RequestOk(domain, costs, threshold, session)
  {
    if costs == [] || domain.scale <= 0 || domain.maxRows == 0 || |costs| > domain.maxRows {
      return false;
    }
    if threshold < 0 || threshold >= domain.scale || !ValidIdentifier(session) {
      return false;
    }
    for i := 0 to |costs|
      invariant forall j :: 0 <= j < i ==> costs[j][0].Some? || costs[j][1].Some? || costs[j][2].Some?
    {
      var available := false;
      for m := 0 to 3
        invariant available <==> exists l :: 0 <= l < m && costs[i][l].Some?
      {
        available := available || costs[i][m].Some?;
      }
      if !available {
        return false;
      }
    }
    ok := true;
  }

  ghost predicate GridBuildable(domain: NumericDomain, threshold: int, bound: CostBound) {
    bound.LagrangianBound? ==>
      ConfigOk(domain, threshold, bound.config)
      && IsSupported(domain, threshold, domain.scale * bound.config.denominator, 0)
  }

  /** How the bounds of a solve are computed: with the one grid of its configuration, if it has one. */
  ghost predicate ModeOf(domain: NumericDomain, threshold: int, bound: CostBound, mode: BoundMode) {
    match bound
    case SuffixBound => mode == CurrentSuffix
    case LagrangianBound(config) =>
      && mode.Lagrangian? && ConfigOk(domain, threshold, config)
      && mode.q == domain.scale * config.denominator && IsGrid(domain, threshold, config, mode.mus)
  }

  /**
   A result is right: the one answer of the instance, with ciphertexts of its four sums, found on the
   nodes of the pruned tree with the candidates of the exhaustive search.
   */
  ghost predicate ResultOk(k: Key, inst: Instance, mode: BoundMode, r: SolveResult, nodes: seq<Assignment>,
      incumbents: seq<Assignment>)
  {
    && inst.Valid() && mode.Valid()
    && inst.Solves(if r.feasible then Some(r.solution) else None)
    && nodes == inst.Visits(mode, [], None) && incumbents == inst.Accepted([], None)
    && (if r.feasible then inst.Partial(r.solution) && PrefixHolds(k, inst, r.aggregates, r.solution)
        else r.solution == [] && r.aggregates == NO_PREFIX)
  }

  /** The integer widths of a configuration. */
  predicate ConfigRepresentable(bound: CostBound) {
    bound.LagrangianBound? ==> IsInt64(bound.config.denominator) && IsInt64(bound.config.spanFactor)
  }

  ghost predicate CostBitsOk(domain: NumericDomain, inst: Instance) {
    forall i, m :: inst.Has(i, m) ==> inst.Cost(i, m) < NumberTheory.Pow2(domain.maxCostBits)
  }

  /** The encrypted rows carry these costs, and the public data are those of the instance. */
  ghost predicate RequestHolds(k: Key, domain: NumericDomain, costs: seq<CostRow>, threshold: int, inst: Instance) {
    && CostsHold(k, costs, inst) && CostBitsOk(domain, inst)
    && inst.scale == domain.scale && inst.threshold == threshold
  }

  lemma RequestMatches(k: Key, domain: NumericDomain, costs: seq<CostRow>, threshold: int, session: string, inst: Instance)
    requires domain.AcceptedByBackend() && RequestHolds(k, domain, costs, threshold, inst)
    requires RequestOk(domain, costs, threshold, session)
    ensures Matches(domain, threshold, inst)
  {
    forall i | 0 <= i < |inst.rows|
      ensures inst.Available(i)
    {
      assert RowHolds(k, costs[i], inst.rows[i]);
      assert HoldsOption(k, costs[i][0], inst.rows[i][0]) && HoldsOption(k, costs[i][1], inst.rows[i][1])
        && HoldsOption(k, costs[i][2], inst.rows[i][2]);
    }
  }

  /**
   The encrypted solver. Whenever it returns a result, that is the one right answer to the hidden
   instance; the nodes it visits are those of the pruned tree, and the incumbents it accepts are
   those of the exhaustive search. It fails only for a bad request, a grid that cannot be built, or a
   refusal from outside.
   */
  method Solve(engine: PredicateEngine, domain: NumericDomain, costs: seq<CostRow>, threshold: int, session: string,
      bound: CostBound, ghost inst: Instance)
    returns (r: Result<SolveResult, SolveError>, ghost nodes: seq<Assignment>, ghost incumbents: seq<Assignment>,
      ghost mode: BoundMode)
    requires engine.Valid() && domain.Representable() && domain.AcceptedByBackend() && ConfigRepresentable(bound)
    requires RequestHolds(engine.csp.key, domain, costs, threshold, inst)
    modifies engine, engine.csp
    ensures engine.Valid()
    ensures r == Failure(InvalidRequest) <==> !RequestOk(domain, costs, threshold, session)
    ensures r.Failure? && r.error.GridRejected? <==>
      RequestOk(domain, costs, threshold, session) && !GridBuildable(domain, threshold, bound)
    ensures r.Failure? && r.error.GridRejected? ==> r.error.grid == BuildError(domain, threshold, bound.config)
    ensures r.Failure? && r.error.PredicateRefused? ==>
      || (r.error.engine == Denied && old(engine.denials) < engine.denials)
      || COUNTER_LIMIT <= |nodes| || old(!SessionFresh(engine, session))
    ensures r.Success? ==>
      && ModeOf(domain, threshold, bound, mode)
      && ResultOk(engine.csp.key, inst, mode, r.value, nodes, incumbents)
      && engine.reached == old(engine.reached) + Requests(session, |inst.rows|, nodes)
  {
    hide Key.Holds, Key.Valid, PredicateEngine.Valid, ValidIdentifier, NumericDomain.AcceptedByBackend, CostBitsOk;
    nodes, incumbents, mode := [], [], CurrentSuffix;
    var ok := CheckRequest(domain, costs, threshold, session);
    if !ok {
      r := Failure(InvalidRequest);
      return;
    }
    RequestMatches(engine.csp.key, domain, costs, threshold, session, inst);
    var grid: Option<Grid> := None;
    if bound.LagrangianBound? {
      var built := BuildGrid(domain, threshold, bound.config);
      assert 0 < domain.maxCostBits by {
        CostBitsDeclared(domain);
      }
      if built.Failure? {
        r := Failure(GridRejected(built.error));
        return;
      }
      grid := Some(built.value);
      mode := Lagrangian(built.value.q, built.value.mu);
    }
    r, nodes, incumbents := RunSearch(engine, domain, costs, threshold, session, grid, mode, inst);
  }

  lemma CostBitsDeclared(domain: NumericDomain)
    requires domain.AcceptedByBackend()
    ensures 0 < domain.maxCostBits
  {
  }

  /** Preprocessing and search, once the request and the grid are settled. */
  method RunSearch(engine: PredicateEngine, domain: NumericDomain, costs: seq<CostRow>, threshold: int, session: string,
      grid: Option<Grid>, ghost mode: BoundMode, ghost inst: Instance)
    returns (r: Result<SolveResult, SolveError>, ghost nodes: seq<Assignment>, ghost incumbents: seq<Assignment>)
    requires engine.Valid() && Matches(domain, threshold, inst) && GridOk(domain, threshold, grid, mode)
    requires CostsHold(engine.csp.key, costs, inst) && ValidIdentifier(session)
    modifies engine, engine.csp
    ensures engine.Valid()
    ensures r.Failure? ==>
      && r.error.PredicateRefused?
      && ((r.error.engine == Denied && old(engine.denials) < engine.denials)
          || COUNTER_LIMIT <= |nodes| || old(!SessionFresh(engine, session)))
    ensures r.Success? ==>
      && ResultOk(engine.csp.key, inst, mode, r.value, nodes, incumbents)
      && engine.reached == old(engine.reached) + Requests(session, |inst.rows|, nodes)
  {
    hide Key.Holds, Key.Valid, ValidIdentifier, NumericDomain.AcceptedByBackend, NumericDomain.Admits;
    var k := engine.csp.key;
    var tables := Preprocess(k, domain, threshold, grid, costs, mode, inst);
    ghost var fresh0 := SessionFresh(engine, session);
    var search := new Search(engine, session, costs, grid, tables, domain, inst, mode, fresh0);
    var zero := EncryptConstant(k, 0);
    var root := Prefix(zero, zero, zero, zero);
    var rootScores := if grid.None? then [] else seq(|grid.value.mu|, _ => zero);
    assert search.Setup();
    var run := search.Visit(0, root, rootScores, []);
    nodes, incumbents := search.visited, search.accepted;
    if run.Failure? {
      r := Failure(PredicateRefused(run.error));
      return;
    }
    inst.SearchSolves();
    assert nodes == inst.Visits(mode, [], None) && incumbents == inst.Accepted([], None);
    r := Success(if search.hasIncumbent then SolveResult(true, search.solution, search.incumbent)
                 else SolveResult(false, [], NO_PREFIX));
  }

  /**
   The facade: a fresh engine for one solve. With a server that has not seen the session, only the
   authorizer or more than 2^64 nodes can stop a legal request.
   */
  method Optimize(csp: CspServer, ot: OtKey, fusion: bool, domain: NumericDomain, costs: seq<CostRow>, threshold: int,
      session: string, bound: CostBound, ghost inst: Instance)
    returns (r: Result<SolveResult, SolveError>, ghost nodes: seq<Assignment>, ghost incumbents: seq<Assignment>,
      ghost mode: BoundMode, ghost requests: seq<PredicateContext>)
    requires csp.Valid() && csp.pending.None? && ot.Valid()
    requires domain.Representable() && domain.AcceptedByBackend() && ConfigRepresentable(bound)
    requires RequestHolds(csp.key, domain, costs, threshold, inst)
    modifies csp
    ensures csp.Valid() && csp.pending.None?
    ensures r == Failure(InvalidRequest) <==> !RequestOk(domain, costs, threshold, session)
    ensures r.Failure? && r.error.GridRejected? <==>
      RequestOk(domain, costs, threshold, session) && !GridBuildable(domain, threshold, bound)
    ensures r.Failure? && r.error.GridRejected? ==> r.error.grid == BuildError(domain, threshold, bound.config)
    ensures r.Failure? && r.error.PredicateRefused? ==>
      r.error.engine == Denied || COUNTER_LIMIT <= |nodes| || old(!SessionUnknown(csp, session))
    ensures r.Success? ==>
      && ModeOf(domain, threshold, bound, mode)
      && ResultOk(csp.key, inst, mode, r.value, nodes, incumbents)
      && requests == Requests(session, |inst.rows|, nodes)
  {
    hide Key.Holds, Key.Valid, ValidIdentifier, NumericDomain.AcceptedByBackend, ResultOk, RequestOk, GridBuildable, ModeOf;
    var engine := new PredicateEngine(csp, ot, fusion);
    r, nodes, incumbents, mode := Solve(engine, domain, costs, threshold, session, bound, inst);
    requests := engine.reached;
    assert [] + Requests(session, |inst.rows|, nodes) == Requests(session, |inst.rows|, nodes);
  }
}
