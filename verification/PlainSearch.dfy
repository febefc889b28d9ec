/**
 The plaintext branch-and-bound solver on machine integers. The newtypes make the verifier check
 that no 64-bit or 128-bit operation overflows once the input check has accepted a matrix.
 */
module PlainSearches {
  import opened Wrappers
  import opened NumberTheory
  import opened CostModel
  import Decimals

  newtype int64 = x: int | -0x8000_0000_0000_0000 <= x < 0x8000_0000_0000_0000
  newtype int128 = x: int |
    -0x8000_0000_0000_0000_0000_0000_0000_0000 <= x < 0x8000_0000_0000_0000_0000_0000_0000_0000

  const SCALE: int64 := 1_000_000
  const LARGEST: int64 := 0x7fff_ffff_ffff_ffff
  const SMALLEST: int64 := -0x8000_0000_0000_0000
  const SAFE: int64 := 0x7ff_ffff_ffff_ffff  // LARGEST / 16

  // No address space holds more rows than this.
  const MAX_ROWS := 0x8000_0000_0000

  datatype Status = InvalidArgument | NoFeasibleSolution | RangeExceeded

  /** Parsed costs: non-negative and at most SAFE; the parser returns no others. */
  type Cost = c: int64 | 0 <= c <= SAFE witness 0

  type PlainRow = r: seq<Option<Cost>> | |r| == 3 witness [None, None, None]

  /** A row of the input: the texts of the available costs. */
  type TextRow = r: seq<Option<string>> | |r| == 3 witness [None, None, None]

  datatype Encoded = Encoded(costs: seq<PlainRow>, threshold: int64) {

    function Plain(): Instance {
      Instance(seq(|costs|, i requires 0 <= i < |costs| => PlainNats(costs[i])), SCALE as int, threshold as int)
    }

    /** What the input check establishes. */
    ghost predicate Valid() {
      Admitted(Plain())
    }
  }

  /** The instances that the input check lets through: every row has a method, and the largest costs are small. */
  ghost predicate Admitted(inst: Instance) {
    inst.Valid() && inst.rows != [] && inst.MaxSuffix(TOTAL, 0) * 1_000_000 <= 0x7ff_ffff_ffff_ffff
  }

  function PlainNat(c: Option<Cost>): Option<nat> {
    if c.Some? then Some(c.value as int) else None
  }

  function PlainNats(row: PlainRow): Row {
    [PlainNat(row[0]), PlainNat(row[1]), PlainNat(row[2])]
  }

  // ---------------------------------------------------------------- what the texts mean

  /** Some numeral writes both the text and v millionths. */
  ghost predicate Written(text: string, v: int) {
    0 <= v && exists n :: Decimals.Writes(text, n, v)
  }

  /** The instance that the texts of a matrix and of a threshold write, cell by cell. */
  ghost predicate Reads(matrix: seq<TextRow>, threshold: string, inst: Instance) {
    && |inst.rows| == |matrix| && inst.scale == 1_000_000
    && Written(threshold, inst.threshold)
    && forall i, j :: 0 <= i < |matrix| && 0 <= j < 3 ==>
      && (inst.rows[i][j].Some? <==> matrix[i][j].Some?)
      && (matrix[i][j].Some? ==> Written(matrix[i][j].value, inst.rows[i][j].value))
  }

  /** What is wrong with one text: it is no numeral of whole millionths, too large, or a threshold of 1 or more. */
  ghost function TextError(text: string, threshold: bool): Option<Status> {
    if exists v :: Written(text, v) && v <= 0x7ff_ffff_ffff_ffff && (threshold ==> v < 1_000_000) then None
    else if exists v :: Written(text, v) && 0x7ff_ffff_ffff_ffff < v then Some(RangeExceeded)
    else Some(InvalidArgument)
  }

  /** The first cost of a row that is wrong, from method j + 1 on. */
  ghost function CellError(row: TextRow, j: nat): Option<Status>
    requires j <= 3
    decreases 3 - j
  {
    if j == 3 then None
    else if row[j].Some? && TextError(row[j].value, false).Some? then TextError(row[j].value, false)
    else CellError(row, j + 1)
  }

  ghost function RowError(row: TextRow): Option<Status> {
    if CellError(row, 0).Some? then CellError(row, 0)
    else if row[0].None? && row[1].None? && row[2].None? then Some(NoFeasibleSolution) else None
  }

  /** The first error of the rows from i on. */
  ghost function MatrixError(matrix: seq<TextRow>, i: nat): Option<Status>
    requires i <= |matrix|
    decreases |matrix| - i
  {
    if i == |matrix| then None
    else if RowError(matrix[i]).Some? then RowError(matrix[i]) else MatrixError(matrix, i + 1)
  }

  /** The first error of an input: no rows, the threshold, a cost or a row in order, or the sum of the costs. */
  ghost function InputError(matrix: seq<TextRow>, threshold: string): Status {
    if matrix == [] then InvalidArgument
    else if TextError(threshold, true).Some? then TextError(threshold, true).value
    else if MatrixError(matrix, 0).Some? then MatrixError(matrix, 0).value
    else RangeExceeded
  }

  /** A text has one value. */
  lemma WrittenOnce(text: string, v: int, w: int)
    requires Written(text, v) && Written(text, w)
    ensures v == w
  {
    var n :| Decimals.Writes(text, n, v);
    var m :| Decimals.Writes(text, m, w);
    Decimals.ValueUnique(text, n, m, v, w);
  }

  /** An input reads as one instance. */
  lemma ReadsOnce(matrix: seq<TextRow>, threshold: string, inst: Instance, other: Instance)
    requires Reads(matrix, threshold, inst) && Reads(matrix, threshold, other)
    ensures inst == other
  {
    WrittenOnce(threshold, inst.threshold, other.threshold);
    forall i | 0 <= i < |matrix|
      ensures inst.rows[i] == other.rows[i]
    {
      forall j | 0 <= j < 3
        ensures inst.rows[i][j] == other.rows[i][j]
      {
        if matrix[i][j].Some? {
          WrittenOnce(matrix[i][j].value, inst.rows[i][j].value, other.rows[i][j].value);
        }
      }
    }
    assert inst.rows == other.rows;
  }

  /** The parser finds the value, or the error. */
  lemma ParseReads(text: string, threshold: bool)
    ensures var r := Decimals.Parse(text, threshold);
      && (r.Success? <==> TextError(text, threshold).None?)
      && (r.Success? ==> Written(text, r.value))
      && (r.Failure? ==>
            TextError(text, threshold) == Some(if r.error.BadDecimal? then InvalidArgument else RangeExceeded))
  {
    hide Decimals.Parse, Decimals.Writes;
    Decimals.ParseExact(text, threshold);
    var r := Decimals.Parse(text, threshold);
    if r.Success? {
      var v: nat := r.value;
      assert r == Success(v);
      var n :| Decimals.Writes(text, n, v);
      assert Written(text, v);
    }
    if v :| Written(text, v) && v <= 0x7ff_ffff_ffff_ffff && (threshold ==> v < 1_000_000) {
      assert r == Success(v);
    }
    if v :| Written(text, v) && 0x7ff_ffff_ffff_ffff < v {
      var n :| Decimals.Writes(text, n, v);
    }
    if r == Failure(Decimals.OutOfRange) {
      var n, v: nat :| Decimals.FIXED_SAFE < v && Decimals.Writes(text, n, v);
      assert Written(text, v);
      forall w | Written(text, w)
        ensures w == v
      {
        WrittenOnce(text, v, w);
      }
    }
  }

  // ---------------------------------------------------------------- the input check

  function StatusOf(e: Decimals.ParseError): Status {
    match e
    case BadDecimal => InvalidArgument
    case OutOfRange => RangeExceeded
  }

  /** The costs of a row are those that its texts write. */
  ghost predicate RowReads(row: TextRow, costs: PlainRow) {
    forall j :: 0 <= j < 3 ==>
      && (costs[j].Some? <==> row[j].Some?)
      && (row[j].Some? ==> Written(row[j].value, costs[j].value as int))
  }

  /** Reads one row, with its largest cost (0 when there is none). */
  method EncodeRow(row: TextRow) returns (r: Result<PlainRow, Status>, rowMax: Cost)
    ensures RowError(row).Some? ==> r == Failure(RowError(row).value)
    ensures RowError(row).None? ==>
      && r.Success? && RowReads(row, r.value)
      && (forall j :: 0 <= j < 3 && r.value[j].Some? ==> r.value[j].value <= rowMax)
      && (exists j :: 0 <= j < 3 && r.value[j] == Some(rowMax))
  {
    hide Decimals.Parse, TextError, Written;
    var any, out: seq<Option<Cost>> := false, [];
    rowMax := 0;
    for j := 0 to 3
      invariant |out| == j && CellError(row, j) == CellError(row, 0)
      invariant forall i :: 0 <= i < j ==> (out[i].Some? <==> row[i].Some?)
      invariant forall i :: 0 <= i < j && row[i].Some? ==> Written(row[i].value, out[i].value as int)
      invariant forall i :: 0 <= i < j && out[i].Some? ==> out[i].value <= rowMax
      invariant if any then exists i :: 0 <= i < j && out[i] == Some(rowMax)
        else rowMax == 0 && forall i :: 0 <= i < j ==> out[i].None?
    {
      if row[j].Some? {
        ParseReads(row[j].value, false);
        var parsed := Decimals.Parse(row[j].value, false);
        if parsed.Failure? {
          return Failure(StatusOf(parsed.error)), rowMax;
        }
        var cost := parsed.value as int64;
        rowMax := if rowMax < cost then cost else rowMax;
        any := true;
        out := out + [Some(cost)];
      } else {
        out := out + [None];
      }
    }
    r := if any then Success(out) else Failure(NoFeasibleSolution);
  }

  /** The sum of the largest costs of the first n rows. */
  ghost function MaxPrefix(inst: Instance, n: nat): int
    requires n <= |inst.rows| && forall i :: 0 <= i < n ==> inst.Available(i)
  {
    if n == 0 then 0 else
      inst.RowBounds(TOTAL, n - 1);
      MaxPrefix(inst, n - 1) + inst.MaxUpTo(TOTAL, n - 1, 3).value
  }

  lemma {:induction false} MaxPrefixSuffix(inst: Instance, n: nat)
    requires inst.Valid() && n <= |inst.rows|
    ensures MaxPrefix(inst, n) + inst.MaxSuffix(TOTAL, n) == inst.MaxSuffix(TOTAL, 0)
  {
    if n > 0 {
      MaxPrefixSuffix(inst, n - 1);
    }
  }

  lemma RowMaxIs(e: Encoded, i: nat, m: Cost)
    requires i < |e.costs|
    requires forall j :: 0 <= j < 3 && e.costs[i][j].Some? ==> e.costs[i][j].value <= m
    requires exists j :: 0 <= j < 3 && e.costs[i][j] == Some(m)
    ensures e.Plain().Available(i)
    ensures e.Plain().MaxUpTo(TOTAL, i, 3) == Some(m as int)
  {
    var inst := e.Plain();
    forall n | 1 <= n <= 3
      ensures inst.Has(i, n) <==> e.costs[i][n - 1].Some?
      ensures inst.Has(i, n) ==> inst.Term(TOTAL, i, n) == e.costs[i][n - 1].value as int
    {
      PlainAt(e, i, n);
    }
    var j :| 0 <= j < 3 && e.costs[i][j] == Some(m);
    assert inst.Has(i, j + 1);
    inst.RowBounds(TOTAL, i);
    hide Instance.MaxUpTo, Instance.MinUpTo, Encoded.Plain, Instance.Term;
  }

  lemma PlainShape(e: Encoded)
    ensures var inst := e.Plain();
      |inst.rows| == |e.costs| && inst.scale == SCALE as int && inst.threshold == e.threshold as int
  {
  }

  /**
   encode: it accepts exactly the inputs that read as an admitted instance, and otherwise reports the
   first error. What it returns is that instance, cell by cell.
   */
  method Encode(matrix: seq<TextRow>, threshold: string) returns (r: Result<Encoded, Status>)
    requires |matrix| < MAX_ROWS
    ensures r.Success? ==>
      && r.value.Valid() && Reads(matrix, threshold, r.value.Plain())
      && |r.value.costs| == |matrix| && Written(threshold, r.value.threshold as int)
      && forall i :: 0 <= i < |matrix| ==> RowReads(matrix[i], r.value.costs[i])
    ensures r.Failure? ==>
      && r.error == InputError(matrix, threshold)
      && forall inst :: Reads(matrix, threshold, inst) ==> !Admitted(inst)
  {
    hide Encoded.Plain, Instance.Available, RowError, RowReads, TextError, Written, Decimals.Parse, Reads, Admitted;
    if matrix == [] {
      NoRowsRead(threshold);
      return Failure(InvalidArgument);
    }
    ParseReads(threshold, true);
    var parsed := Decimals.Parse(threshold, true);
    if parsed.Failure? {
      ThresholdUnread(matrix, threshold);
      return Failure(StatusOf(parsed.error));
    }
    var costs: seq<PlainRow> := [];
    var maxTotal: int128 := 0;
    ghost var t := parsed.value as int64;
    NothingRead(t);
    for i := 0 to |matrix|
      invariant |costs| == i && forall j :: 0 <= j < i ==> RowReads(matrix[j], costs[j])
      invariant MatrixError(matrix, i) == MatrixError(matrix, 0)
      invariant var inst := Encoded(costs, t).Plain();
        && |inst.rows| == i && (forall j :: 0 <= j < i ==> inst.Available(j))
        && maxTotal as int == MaxPrefix(inst, i) && 0 <= maxTotal as int <= i * SAFE as int
    {
      var row, rowMax := EncodeRow(matrix[i]);
      if row.Failure? {
        RowUnread(matrix, threshold, i);
        return Failure(row.error);
      }
      OneMoreRow(costs, row.value, t, rowMax);
      MulMono(i + 1, MAX_ROWS, SAFE as int);
      maxTotal := maxTotal + rowMax as int128;
      costs := costs + [row.value];
    }
    ghost var inst := Encoded(costs, t).Plain();
    RowsRead(matrix, threshold, costs, t);
    AdmittedTotal(costs, t);
    if maxTotal < 0 || maxTotal * SCALE as int128 > SAFE as int128 {
      forall other | Reads(matrix, threshold, other)
        ensures !Admitted(other)
      {
        ReadsOnce(matrix, threshold, inst, other);
      }
      return Failure(RangeExceeded);
    }
    r := Success(Encoded(costs, parsed.value as int64));
  }

  lemma NoRowsRead(threshold: string)
    ensures forall inst :: Reads([], threshold, inst) ==> !Admitted(inst)
  {
  }

  /** Costs sum at least to themselves, so an admitted instance has none that is too large. */
  lemma AdmittedCost(inst: Instance, i: nat, j: nat)
    requires Admitted(inst) && i < |inst.rows| && j < 3 && inst.rows[i][j].Some?
    ensures inst.rows[i][j].value <= 0x7ff_ffff_ffff_ffff
  {
    assert inst.Has(i, j + 1);
    inst.RowBounds(TOTAL, i);
    MaxSuffixFalls(inst, i);
    MaxSuffixFalls(inst, i + 1);
  }

  lemma ThresholdUnread(matrix: seq<TextRow>, threshold: string)
    requires TextError(threshold, true).Some?
    ensures forall inst :: Reads(matrix, threshold, inst) ==> !Admitted(inst)
  {
    forall inst | Reads(matrix, threshold, inst)
      ensures !Admitted(inst)
    {
      assert Written(threshold, inst.threshold);
    }
  }

  lemma RowUnread(matrix: seq<TextRow>, threshold: string, i: nat)
    requires i < |matrix| && RowError(matrix[i]).Some?
    ensures forall inst :: Reads(matrix, threshold, inst) ==> !Admitted(inst)
  {
    forall inst | Reads(matrix, threshold, inst) && Admitted(inst)
      ensures false
    {
      assert inst.Available(i);
      forall j | 0 <= j < 3 && matrix[i][j].Some?
        ensures TextError(matrix[i][j].value, false).None?
      {
        AdmittedCost(inst, i, j);
        assert Written(matrix[i][j].value, inst.rows[i][j].value);
      }
      NoCellError(matrix[i], 0);
    }
  }

  lemma {:induction false} NoCellError(row: TextRow, j: nat)
    requires j <= 3 && forall l :: j <= l < 3 && row[l].Some? ==> TextError(row[l].value, false).None?
    ensures CellError(row, j).None?
    decreases 3 - j
  {
    if j < 3 {
      NoCellError(row, j + 1);
    }
  }

  lemma NothingRead(t: int64)
    ensures |Encoded([], t).Plain().rows| == 0 && MaxPrefix(Encoded([], t).Plain(), 0) == 0
  {
  }

  /** One more row: its largest cost is added. */
  lemma OneMoreRow(costs: seq<PlainRow>, row: PlainRow, t: int64, rowMax: Cost)
    requires var inst := Encoded(costs, t).Plain();
      |inst.rows| == |costs| && forall j :: 0 <= j < |costs| ==> inst.Available(j)
    requires forall j :: 0 <= j < 3 && row[j].Some? ==> row[j].value <= rowMax
    requires exists j :: 0 <= j < 3 && row[j] == Some(rowMax)
    ensures var (inst, next) := (Encoded(costs, t).Plain(), Encoded(costs + [row], t).Plain());
      && |next.rows| == |costs| + 1 && (forall j :: 0 <= j <= |costs| ==> next.Available(j))
      && MaxPrefix(next, |costs| + 1) == MaxPrefix(inst, |costs|) + rowMax as int
  {
    var (e, f) := (Encoded(costs, t), Encoded(costs + [row], t));
    PlainShape(f);
    assert f.costs[|costs|] == row;
    RowMaxIs(f, |costs|, rowMax);
    forall j | 0 <= j < |costs|
      ensures e.Plain().rows[j] == f.Plain().rows[j]
    {
      assert e.costs[j] == f.costs[j];
    }
    SamePrefix(e.Plain(), f.Plain(), |costs|);
  }

  lemma {:induction false} SamePrefix(inst: Instance, other: Instance, n: nat)
    requires n <= |inst.rows| && n <= |other.rows| && forall i :: 0 <= i < n ==> inst.rows[i] == other.rows[i]
    requires forall i :: 0 <= i < n ==> inst.Available(i)
    ensures (forall i :: 0 <= i < n ==> other.Available(i)) && MaxPrefix(inst, n) == MaxPrefix(other, n)
  {
    if n > 0 {
      SamePrefix(inst, other, n - 1);
      SameMax(inst, other, n - 1, 3);
      assert inst.Available(n - 1) && other.Available(n - 1);
    }
  }

  lemma {:induction false} SameMax(inst: Instance, other: Instance, i: nat, j: nat)
    requires i < |inst.rows| && i < |other.rows| && inst.rows[i] == other.rows[i] && j <= 3
    ensures inst.MaxUpTo(TOTAL, i, j) == other.MaxUpTo(TOTAL, i, j)
  {
    if j > 0 {
      SameMax(inst, other, i, j - 1);
    }
  }

  /** Rows that are read one by one are the instance. */
  lemma RowsRead(matrix: seq<TextRow>, threshold: string, costs: seq<PlainRow>, t: int64)
    requires |costs| == |matrix| && forall i :: 0 <= i < |matrix| ==> RowReads(matrix[i], costs[i])
    requires Written(threshold, t as int)
    ensures Reads(matrix, threshold, Encoded(costs, t).Plain())
  {
    forall i, j | 0 <= i < |matrix| && 0 <= j < 3
      ensures var cell := Encoded(costs, t).Plain().rows[i][j];
        && (cell.Some? <==> matrix[i][j].Some?)
        && (matrix[i][j].Some? ==> Written(matrix[i][j].value, cell.value))
    {
      assert RowReads(matrix[i], costs[i]);
    }
  }

  /** The scaled sum of the largest costs decides. */
  lemma AdmittedTotal(costs: seq<PlainRow>, t: int64)
    requires costs != [] && 0 <= t < SCALE && forall i :: 0 <= i < |costs| ==> Encoded(costs, t).Plain().Available(i)
    requires |Encoded(costs, t).Plain().rows| == |costs|
    ensures var inst := Encoded(costs, t).Plain();
      Admitted(inst) <==> MaxPrefix(inst, |costs|) * SCALE as int <= SAFE as int
  {
    var inst := Encoded(costs, t).Plain();
    MaxPrefixSuffix(inst, |costs|);
    assert inst.MaxSuffix(TOTAL, |costs|) == 0;
  }

  // ---------------------------------------------------------------- magnitudes

  predicate SmallWeight(w: Weight) {
    -SCALE as int <= w.a12 <= SCALE as int && -SCALE as int <= w.a3 <= SCALE as int
  }

  lemma SmallTerm(inst: Instance, w: Weight, i: int, m: int)
    requires inst.Valid() && inst.Has(i, m) && SmallWeight(w)
    ensures inst.MaxUpTo(TOTAL, i, 3).Some?
    ensures var b := SCALE as int * inst.MaxUpTo(TOTAL, i, 3).value;
      -b <= inst.Term(w, i, m) <= b
  {
    inst.RowBounds(TOTAL, i);
    var a, c := if m < 3 then w.a12 else w.a3, inst.Cost(i, m);
    MulMono(a, SCALE as int, c);
    MulMono(-(SCALE as int), a, c);
  }

  /** Sums over a prefix and suffix bounds share the budget of the input check. */
  lemma {:induction false} PrefixMagnitude(inst: Instance, w: Weight, p: Assignment)
    requires inst.Valid() && inst.Partial(p) && SmallWeight(w)
    ensures var b := SCALE as int * (inst.MaxSuffix(TOTAL, 0) - inst.MaxSuffix(TOTAL, |p|));
      -b <= inst.Sum(w, p) <= b
  {
    if p == [] {
    } else {
      var d := |p| - 1;
      PrefixMagnitude(inst, w, p[..d]);
      SmallTerm(inst, w, d, p[d]);
    }
  }

  lemma {:induction false} SuffixMagnitude(inst: Instance, w: Weight, d: int)
    requires inst.Valid() && 0 <= d <= |inst.rows| && SmallWeight(w)
    ensures var b := SCALE as int * inst.MaxSuffix(TOTAL, d);
      && -b <= inst.MinSuffix(w, d) <= b && -b <= inst.MaxSuffix(w, d) <= b
      && 0 <= inst.MaxSuffix(TOTAL, d)
    decreases |inst.rows| - d
  {
    if d < |inst.rows| {
      SuffixMagnitude(inst, w, d + 1);
      inst.RowBounds(w, d);
      inst.RowBounds(TOTAL, d);
      var i :| inst.Has(d, i) && inst.MinUpTo(w, d, 3).value == inst.Term(w, d, i);
      var j :| inst.Has(d, j) && inst.MaxUpTo(w, d, 3).value == inst.Term(w, d, j);
      SmallTerm(inst, w, d, i);
      SmallTerm(inst, w, d, j);
    }
  }

  /** Every aggregate that the search forms stays within SAFE. */
  lemma Magnitudes(e: Encoded, w: Weight, p: Assignment)
    requires e.Valid() && e.Plain().Partial(p) && SmallWeight(w)
    ensures var inst := e.Plain(); var s := SAFE as int;
      && -s <= inst.Sum(w, p) <= s
      && -s <= inst.Sum(w, p) + inst.MinSuffix(w, |p|) <= s && -s <= inst.Sum(w, p) + inst.MaxSuffix(w, |p|) <= s
      && -s <= inst.MinSuffix(w, |p|) <= s && -s <= inst.MaxSuffix(w, |p|) <= s
  {
    PrefixMagnitude(e.Plain(), w, p);
    SuffixMagnitude(e.Plain(), w, |p|);
    SuffixMagnitude(e.Plain(), TOTAL, 0);
    MaxSuffixFalls(e.Plain(), |p|);
  }

  lemma {:induction false} MaxSuffixFalls(inst: Instance, d: nat)
    requires inst.Valid() && d <= |inst.rows|
    ensures 0 <= inst.MaxSuffix(TOTAL, d) <= inst.MaxSuffix(TOTAL, 0)
  {
    SuffixMagnitude(inst, TOTAL, d);
    if d > 0 {
      MaxSuffixFalls(inst, d - 1);
      inst.RowBounds(TOTAL, d - 1);
      var i :| inst.Has(d - 1, i) && inst.MaxUpTo(TOTAL, d - 1, 3).value == inst.Term(TOTAL, d - 1, i);
    }
  }

  lemma ProductFits(a: int, b: int, s: int)
    requires -s <= a <= s && 0 <= b <= s
    ensures -(s * s) <= a * b <= s * s
  {
    MulMono(a, s, b);
    MulMono(-s, a, b);
    MulMono(b, s, s);
    assert -s * b == -(s * b);
    assert s * b == b * s;
  }

  /** The available methods and costs of the plain instance. */
  lemma PlainAt(e: Encoded, i: int, m: int)
    requires 0 <= i < |e.costs| && 1 <= m <= 3
    ensures var inst := e.Plain();
      && |inst.rows| == |e.costs| && inst.scale == SCALE as int && inst.threshold == e.threshold as int
      && (inst.Has(i, m) <==> e.costs[i][m - 1].Some?)
      && (inst.Has(i, m) ==> inst.Cost(i, m) == e.costs[i][m - 1].value as int)
  {
  }

  /** The 128-bit products of the tie-break. */
  lemma GapFits(e: Encoded, p: Assignment)
    requires e.Valid() && e.Plain().Partial(p)
    ensures var inst := e.Plain(); var s := SAFE as int;
      && 0 <= inst.Sum(C12, p) <= s && 0 <= inst.Sum(TOTAL, p) <= s && -s <= Gap(inst, p) <= s
      && 0 <= inst.threshold * inst.Sum(TOTAL, p) <= SCALE as int * s
  {
    var inst := e.Plain();
    inst.SumParts(p);
    inst.LinearParts(p);
    Magnitudes(e, TOTAL, p);
    Magnitudes(e, inst.Linear(), p);
    MulMono(inst.threshold, SCALE as int, inst.Sum(TOTAL, p));
    MulNonNeg(inst.threshold, inst.Sum(TOTAL, p));
  }

  /** What one node adds and compares. */
  lemma NodeFits(e: Encoded, p: Assignment)
    requires e.Valid() && e.Plain().Partial(p)
    ensures var inst := e.Plain(); var s := SAFE as int;
      && -s <= inst.LowerBound(TOTAL, p) <= s && -s <= inst.LinearUpper(p) <= s
  {
    Magnitudes(e, TOTAL, p);
    Magnitudes(e, e.Plain().Linear(), p);
  }

  /** The aggregates that one more method produces. */
  lemma ChildSums(inst: Instance, p: Assignment, m: int)
    requires inst.Valid() && inst.Partial(p) && inst.Has(|p|, m)
    ensures inst.Partial(p + [m])
    ensures var c := inst.Cost(|p|, m); var t := inst.Linear();
      && inst.Sum(TOTAL, p + [m]) == inst.Sum(TOTAL, p) + c
      && inst.Sum(C12, p + [m]) == (if m < 3 then inst.Sum(C12, p) + c else inst.Sum(C12, p))
      && inst.Sum(C3, p + [m]) == (if m < 3 then inst.Sum(C3, p) else inst.Sum(C3, p) + c)
      && inst.Sum(t, p + [m]) == (if m < 3 then inst.Sum(t, p) + (inst.scale - inst.threshold) * c
                                           else inst.Sum(t, p) - inst.threshold * c)
  {
    hide Instance.Sum, Instance.Has, Instance.Valid;
    inst.SumAppend(TOTAL, p, m);
    inst.SumAppend(C12, p, m);
    inst.SumAppend(C3, p, m);
    inst.SumAppend(inst.Linear(), p, m);
    assert -inst.threshold * inst.Cost(|p|, m) == -(inst.threshold * inst.Cost(|p|, m));
  }

  lemma ChildFits(e: Encoded, p: Assignment, m: int)
    requires e.Valid() && e.Plain().Partial(p) && e.Plain().Has(|p|, m)
    ensures var inst := e.Plain(); var s := SAFE as int;
      && inst.Partial(p + [m])
      && inst.Sum(TOTAL, p + [m]) <= s && inst.Sum(C12, p + [m]) <= s && inst.Sum(C3, p + [m]) <= s
      && -s <= inst.Sum(inst.Linear(), p) <= s && -s <= inst.Sum(inst.Linear(), p + [m]) <= s
  {
    hide Instance.Sum, Instance.Has;
    var inst := e.Plain();
    inst.SumAppend(TOTAL, p, m);
    inst.SumParts(p + [m]);
    Magnitudes(e, TOTAL, p + [m]);
    Magnitudes(e, inst.Linear(), p);
    Magnitudes(e, inst.Linear(), p + [m]);
  }

  lemma SuffixFits(e: Encoded, d: nat)
    requires e.Valid() && d <= |e.costs|
    ensures var inst := e.Plain(); var s := SAFE as int;
      -s <= inst.MinSuffix(TOTAL, d) <= s && -s <= inst.MaxSuffix(inst.Linear(), d) <= s
  {
    SuffixMagnitude(e.Plain(), TOTAL, d);
    SuffixMagnitude(e.Plain(), e.Plain().Linear(), d);
    MaxSuffixFalls(e.Plain(), d);
  }

  lemma ContributionFits(e: Encoded, i: nat, j: nat)
    requires e.Valid() && i < |e.costs| && j < 3 && e.costs[i][j].Some?
    ensures var inst := e.Plain(); var s := SAFE as int; var c := e.costs[i][j].value as int;
      && inst.Has(i, j + 1) && inst.Term(TOTAL, i, j + 1) == c
      && inst.Term(inst.Linear(), i, j + 1) ==
           (if j < 2 then (SCALE as int - e.threshold as int) * c else -e.threshold as int * c)
      && -s <= inst.Term(inst.Linear(), i, j + 1) <= s
  {
    var inst := e.Plain();
    PlainAt(e, i, j + 1);
    SmallTerm(inst, inst.Linear(), i, j + 1);
    SuffixMagnitude(inst, TOTAL, i + 1);
    MaxSuffixFalls(inst, i);
  }

  // ---------------------------------------------------------------- the tie-break

  /** std::lexicographical_compare on two choices. */
  method LexicographicalCompare(a: seq<int>, b: seq<int>) returns (less: bool)
    ensures less <==> LexLess(a, b) || a < b
  {
    for i := 0 to |a|
      invariant i <= |b| && a[..i] == b[..i]
    {
      if i == |b| {
        assert b == a[..i];
        NotLess(a, b, i);
        return false;
      }
      if b[i] < a[i] {
        assert LexLess(b, a);
        if LexLess(a, b) {
          LexLessAsymmetric(a, b);
        }
        assert !(a < b) by {
          assert a[i] != b[i];
        }
        return false;
      }
      if a[i] < b[i] {
        assert LexLess(a, b);
        return true;
      }
    }
    assert a[..|a|] == a;
    NotLess(a, b, |a|);
    less := |a| < |b|;
  }

  /** No difference within the common prefix. */
  lemma NotLess(a: seq<int>, b: seq<int>, n: nat)
    requires n <= |a| && n <= |b| && a[..n] == b[..n] && (n == |a| || n == |b|)
    ensures !LexLess(a, b)
  {
    forall i | 0 <= i < n
      ensures a[i] == b[i]
    {
      assert a[..n][i] == b[..n][i];
    }
  }

  /** How far the ratio of an assignment lies above the threshold, cross-multiplied by its total. */
  ghost function Gap(inst: Instance, s: Assignment): int
    requires inst.Partial(s)
  {
    inst.Sum(C12, s) * inst.scale - inst.threshold * inst.Sum(TOTAL, s)
  }

  /** The documented order of the plaintext solver: cost, then distance of the ratio, as exact fractions. */
  ghost predicate CloserRatio(inst: Instance, s: Assignment, t: Assignment)
    requires inst.Partial(s) && inst.Partial(t)
  {
    || inst.Sum(TOTAL, s) < inst.Sum(TOTAL, t)
    || (inst.Sum(TOTAL, s) == inst.Sum(TOTAL, t)
        && Gap(inst, s) * inst.Sum(TOTAL, t) < Gap(inst, t) * inst.Sum(TOTAL, s))
  }

  /** Between feasible assignments it is the order by cost and C12 of the encrypted solver. */
  lemma RatioOrderIsC12Order(inst: Instance, s: Assignment, t: Assignment)
    requires inst.Valid() && inst.Feasible(s) && inst.Feasible(t)
    ensures CloserRatio(inst, s, t) <==> inst.Beats(s, t)
  {
    inst.SumParts(s);
    inst.SumParts(t);
    if inst.Sum(TOTAL, s) == inst.Sum(TOTAL, t) {
      TieByC12(inst.Sum(C12, s), inst.Sum(C12, t), inst.scale, inst.threshold, inst.Sum(TOTAL, s));
    }
  }

  /** Of two feasible assignments with the same cost, the cross products order them as C12 does. */
  lemma NearerRatio(inst: Instance, s: Assignment, t: Assignment)
    requires inst.Valid() && inst.Feasible(s) && inst.Feasible(t) && inst.Sum(TOTAL, s) == inst.Sum(TOTAL, t)
    ensures Gap(inst, s) * inst.Sum(TOTAL, t) < Gap(inst, t) * inst.Sum(TOTAL, s) <==> inst.Beats(s, t)
    ensures Gap(inst, s) * inst.Sum(TOTAL, t) > Gap(inst, t) * inst.Sum(TOTAL, s) <==> inst.Beats(t, s)
  {
    RatioOrderIsC12Order(inst, s, t);
    RatioOrderIsC12Order(inst, t, s);
  }

  lemma TieByC12(c: int, c': int, scale: int, threshold: int, total: int)
    requires 0 < scale && 0 < total
    ensures (c * scale - threshold * total) * total < (c' * scale - threshold * total) * total <==> c < c'
  {
    if c < c' {
      MulStrict(c, c', scale);
      MulStrict(c * scale - threshold * total, c' * scale - threshold * total, total);
    } else {
      MulMono(c', c, scale);
      MulMono(c' * scale - threshold * total, c * scale - threshold * total, total);
    }
  }

  // ---------------------------------------------------------------- the search

  class Solver {
    const model: Encoded
    ghost const inst: Instance
    var minSuffix: seq<int64>
    var ratioMaxSuffix: seq<int64>
    var current: seq<int>
    var best: seq<int>
    var bestCost: int64
    var bestC12: int64
    var bestC3: int64

    /** The incumbent as an assignment, and the nodes visited. */
    ghost var incumbent: Option<Assignment>
    ghost var visited: seq<Assignment>

    ghost predicate TablesOk()
      requires inst.Valid()
      reads this`minSuffix, this`ratioMaxSuffix
    {
      && |minSuffix| == |ratioMaxSuffix| == |inst.rows| + 1
      && forall d :: 0 <= d <= |inst.rows| ==>
           && minSuffix[d] as int == inst.MinSuffix(TOTAL, d)
           && ratioMaxSuffix[d] as int == inst.MaxSuffix(inst.Linear(), d)
    }

    ghost predicate BestOk()
      reads this`incumbent, this`best, this`bestCost, this`bestC12, this`bestC3
    {
      && inst.IncumbentOk(incumbent)
      && match incumbent
         case None => best == [] && bestCost == LARGEST
         case Some(s) =>
           && best == s && bestCost as int == inst.Sum(TOTAL, s) && bestCost < LARGEST
           && bestC12 as int == inst.Sum(C12, s) && bestC3 as int == inst.Sum(C3, s)
    }

    ghost predicate Valid()
      reads this
    {
      && model.Valid() && inst == model.Plain() && inst.Valid() && |inst.rows| == |model.costs|
      && inst.scale == SCALE as int && inst.threshold == model.threshold as int
      && TablesOk() && BestOk() && |current| == |inst.rows|
    }

    constructor (model: Encoded)
      requires model.Valid()
      ensures Valid() && this.model == model && incumbent == None && visited == []
    {
      this.model, inst := model, model.Plain();
      best, bestCost, bestC12, bestC3 := [], LARGEST, 0, 0;
      current := seq(|model.costs|, _ => 0);
      incumbent, visited := None, [];
      new;
      var mins, maxs := BuildSuffixes(model);
      minSuffix, ratioMaxSuffix := mins, maxs;
    }

    /** The ratio's distance from the threshold, times the total. */
    method RatioGap(c12: int64, total: int128, ghost p: Assignment) returns (gap: int128)
      requires Valid() && inst.Partial(p) && c12 as int == inst.Sum(C12, p) && total as int == inst.Sum(TOTAL, p)
      ensures gap as int == Gap(inst, p)
    {
      hide Instance.Sum, Encoded.Plain, Instance.Has, Encoded.Valid, TablesOk, BestOk;
      GapFits(model, p);
      assert model.threshold as int * total as int == inst.threshold * inst.Sum(TOTAL, p);
      gap := c12 as int128 * SCALE as int128 - model.threshold as int128 * total;
    }

    /** The candidate wins a tie in cost: nearer ratio, then lexicographic order. */
    method BetterTie(c12: int64, c3: int64, ghost p: Assignment) returns (better: bool)
      requires Valid() && incumbent.Some? && inst.Feasible(p) && current == p
      requires c12 as int == inst.Sum(C12, p) && c3 as int == inst.Sum(C3, p)
      requires inst.Sum(TOTAL, p) == bestCost as int && LexLess(incumbent.value, p)
      ensures better == inst.Beats(p, incumbent.value)
    {
      hide Instance.Sum, Encoded.Plain, Instance.Has, TablesOk, Gap, CloserRatio;
      ghost var s := incumbent.value;
      inst.SumParts(p);
      inst.SumParts(s);
      GapFits(model, p);
      GapFits(model, s);
      var total, oldTotal := (c12 + c3) as int128, (bestC12 + bestC3) as int128;
      var gap := RatioGap(c12, total, p);
      var oldGap := RatioGap(bestC12, oldTotal, s);
      ProductFits(gap as int, oldTotal as int, SAFE as int);
      ProductFits(oldGap as int, total as int, SAFE as int);
      var lhs, rhs := gap * oldTotal, oldGap * total;
      NearerRatio(inst, p, s);
      if lhs != rhs {
        return lhs < rhs;
      }
      better := LexicographicalCompare(current, best);
    }

    /** A complete assignment that passed both bounds. */
    method Leaf(cost: int64, c12: int64, c3: int64, linear: int64, ghost p: Assignment)
      requires Valid() && inst.Complete(p) && current == p && Carries(cost, c12, c3, linear, p)
      requires incumbent.Some? ==> LexLess(incumbent.value, p)
      modifies this`best, this`bestCost, this`bestC12, this`bestC3, this`incumbent
      ensures Valid() && incumbent == inst.Search(p, old(incumbent))
    {
      Magnitudes(model, TOTAL, p);
      inst.SumParts(p);
      if linear < 0 || c3 <= 0 || c12 + c3 <= 0 {
        return;
      }
      var better := cost < bestCost;
      if cost == bestCost {
        better := BetterTie(c12, c3, p);
      }
      if better {
        bestCost, bestC12, bestC3, best := cost, c12, c3, current;
        incumbent := Some(p);
      }
    }

    /** The running aggregates of a prefix. */
    ghost predicate Carries(cost: int64, c12: int64, c3: int64, linear: int64, p: Assignment)
      requires inst.Partial(p)
    {
      && cost as int == inst.Sum(TOTAL, p) && c12 as int == inst.Sum(C12, p)
      && c3 as int == inst.Sum(C3, p) && linear as int == inst.Sum(inst.Linear(), p)
    }

    /** The two prunes of a node. */
    method Cut(i: nat, cost: int64, linear: int64, ghost p: Assignment) returns (cut: bool)
      requires Valid() && inst.Partial(p) && |p| == i <= |inst.rows|
      requires cost as int == inst.Sum(TOTAL, p) && linear as int == inst.Sum(inst.Linear(), p)
      ensures cut == inst.Prunes(CurrentSuffix, p, incumbent)
    {
      hide Instance.Sum, Instance.MinSuffix, Instance.MaxSuffix, Encoded.Plain, Instance.Has;
      NodeFits(model, p);
      assert inst.BoundExceeds([TOTAL], p, bestCost as int) <==> inst.LowerBound(TOTAL, p) > bestCost as int by {
        assert [TOTAL][0] == TOTAL;
      }
      if bestCost != LARGEST && cost + minSuffix[i] > bestCost {
        return true;
      }
      cut := linear as int128 + ratioMaxSuffix[i] as int128 < 0;
    }

    /**
     The recursive search from one node: the incumbents of the exhaustive search, on exactly the
     nodes that the encrypted solver visits with its suffix bound.
     */
    method Visit(i: nat, cost: int64, c12: int64, c3: int64, linear: int64, ghost p: Assignment)
      requires Valid() && inst.Partial(p) && |p| == i <= |inst.rows| && current[..i] == p
      requires Carries(cost, c12, c3, linear, p)
      requires incumbent.Some? ==> LexLess(incumbent.value, p)
      modifies this
      ensures Valid() && current[..i] == p && minSuffix == old(minSuffix) && ratioMaxSuffix == old(ratioMaxSuffix)
      ensures incumbent == inst.Search(p, old(incumbent))
      ensures visited == old(visited) + inst.Visits(CurrentSuffix, p, old(incumbent))
      decreases |inst.rows| - i, 1
    {
      hide Encoded.Valid, Encoded.Plain, Instance.Has, Instance.Sum, Instance.Prunes, TablesOk;
      visited := visited + [p];
      var cut := Cut(i, cost, linear, p);
      if cut {
        inst.PruningIsSafe(CurrentSuffix, p, incumbent);
        return;
      }
      if i == |model.costs| {
        assert current == current[..i];
        Leaf(cost, c12, c3, linear, p);
        return;
      }
      ghost var best0, visited0 := incumbent, visited;
      for j := 0 to 3
        invariant Valid() && current[..i] == p && minSuffix == old(minSuffix) && ratioMaxSuffix == old(ratioMaxSuffix)
        invariant incumbent.Some? ==> LexLess(incumbent.value, p) || (p < incumbent.value && incumbent.value[i] <= j)
        invariant inst.SearchBranches(p, j + 1, incumbent) == inst.SearchBranches(p, 1, best0)
        invariant visited + inst.VisitBranches(CurrentSuffix, p, j + 1, incumbent)
               == visited0 + inst.VisitBranches(CurrentSuffix, p, 1, best0)
      {
        VisitChild(i, j, cost, c12, c3, linear, p);
      }
      assert visited + [] == visited;
      assert visited == old(visited) + ([p] + inst.VisitBranches(CurrentSuffix, p, 1, best0));
    }

    /** Method j + 1 of row i, when it is available. */
    method VisitChild(i: nat, j: nat, cost: int64, c12: int64, c3: int64, linear: int64, ghost p: Assignment)
      requires Valid() && inst.Partial(p) && |p| == i < |inst.rows| && current[..i] == p && j < 3
      requires Carries(cost, c12, c3, linear, p)
      requires incumbent.Some? ==> LexLess(incumbent.value, p) || (p < incumbent.value && incumbent.value[i] <= j)
      modifies this
      ensures Valid() && current[..i] == p && minSuffix == old(minSuffix) && ratioMaxSuffix == old(ratioMaxSuffix)
      ensures incumbent.Some? ==> LexLess(incumbent.value, p) || (p < incumbent.value && incumbent.value[i] <= j + 1)
      ensures !inst.Has(i, j + 1) ==> incumbent == old(incumbent) && visited == old(visited)
      ensures inst.Has(i, j + 1) ==>
        && inst.Partial(p + [j + 1])
        && incumbent == inst.Search(p + [j + 1], old(incumbent))
        && visited == old(visited) + inst.Visits(CurrentSuffix, p + [j + 1], old(incumbent))
      decreases |inst.rows| - i, 0
    {
      hide Encoded.Valid, Instance.Sum, Instance.Has, Encoded.Plain, TablesOk, Instance.Search;
      PlainAt(model, i, j + 1);
      if model.costs[i][j].Some? {
        ghost var child := p + [j + 1];
        var c := model.costs[i][j].value;
        current := current[i := j + 1];
        assert current[..i + 1] == child && current[..i] == p;
        ghost var before := incumbent;
        BeforeChild(p, j + 1);
        inst.SearchImproves(child, incumbent);
        ChildSums(inst, p, j + 1);
        ChildFits(model, p, j + 1);
        if j < 2 {
          Visit(i + 1, cost + c as int64, c12 + c as int64, c3, linear + (SCALE - model.threshold) * c as int64, child);
        } else {
          Visit(i + 1, cost + c as int64, c12, c3 + c as int64, linear - model.threshold * c as int64, child);
        }
        assert current[..i] == current[..i + 1][..i];
        assert incumbent != before ==> child <= incumbent.value;
      }
    }

    lemma BeforeChild(p: Assignment, m: int)
      requires incumbent.Some? ==>
        LexLess(incumbent.value, p) || (p < incumbent.value && incumbent.value[|p|] < m)
      ensures incumbent.Some? ==> LexLess(incumbent.value, p + [m])
    {
      if incumbent.Some? {
        var s := incumbent.value;
        if LexLess(s, p) {
          var i :| 0 <= i < |s| && i < |p| && s[..i] == p[..i] && s[i] < p[i];
          assert (p + [m])[..i] == p[..i] && (p + [m])[i] == p[i];
        } else {
          assert s[..|p|] == (p + [m])[..|p|];
        }
      }
    }
  }

  /** The suffix tables, filled from the last row up. */
  method BuildSuffixes(e: Encoded) returns (mins: seq<int64>, maxs: seq<int64>)
    requires e.Valid()
    ensures |mins| == |maxs| == |e.costs| + 1
    ensures forall d :: 0 <= d <= |e.costs| ==>
      && mins[d] as int == e.Plain().MinSuffix(TOTAL, d)
      && maxs[d] as int == e.Plain().MaxSuffix(e.Plain().Linear(), d)
  {
    ghost var inst := e.Plain();
    mins, maxs := [0], [0];
    for i := |e.costs| downto 0
      invariant |mins| == |maxs| == |e.costs| + 1 - i
      invariant forall d :: 0 <= d <= |e.costs| - i ==>
        && mins[d] as int == inst.MinSuffix(TOTAL, i + d)
        && maxs[d] as int == inst.MaxSuffix(inst.Linear(), i + d)
    {
      var mn, mx := RowExtremes(e, i);
      SuffixFits(e, i);
      var min, max := mins[0] + mn, maxs[0] + mx;
      assert mins[0] as int == inst.MinSuffix(TOTAL, i + 1 + 0);
      mins, maxs := [min] + mins, [max] + maxs;
    }
  }

  /** The least cost and the largest contribution of one row. */
  method RowExtremes(e: Encoded, i: nat) returns (mn: int64, mx: int64)
    requires e.Valid() && i < |e.costs|
    ensures e.Plain().MinUpTo(TOTAL, i, 3) == Some(mn as int)
    ensures e.Plain().MaxUpTo(e.Plain().Linear(), i, 3) == Some(mx as int)
  {
    ghost var inst := e.Plain();
    mn, mx := LARGEST, SMALLEST;
    for j := 0 to 3
      invariant if inst.MinUpTo(TOTAL, i, j).None? then mn == LARGEST else inst.MinUpTo(TOTAL, i, j) == Some(mn as int)
      invariant if inst.MaxUpTo(inst.Linear(), i, j).None? then mx == SMALLEST
        else inst.MaxUpTo(inst.Linear(), i, j) == Some(mx as int)
    {
      if e.costs[i][j].Some? {
        var c := e.costs[i][j].value as int64;
        ContributionFits(e, i, j);
        var contribution := if j < 2 then (SCALE - e.threshold) * c else -e.threshold * c;
        mn := if c < mn then c else mn;
        mx := if mx < contribution then contribution else mx;
      }
    }
    inst.RowBounds(TOTAL, i);
    inst.RowBounds(inst.Linear(), i);
  }

  // ---------------------------------------------------------------- the facade

  /**
   optimize_plain, from the texts of the costs and of the threshold. It answers every input that
   encode accepts, with the cost of the answer, on the nodes that the encrypted solver visits with its
   suffix bound.
   */
  method OptimizePlain(matrix: seq<TextRow>, threshold: string)
    returns (r: Result<seq<int>, Status>, cost: int64, ghost visited: seq<Assignment>)
    requires |matrix| < MAX_ROWS
    ensures forall inst :: Reads(matrix, threshold, inst) && Admitted(inst) ==>
      && inst.Solves(if r.Success? then Some(r.value) else None)
      && (r.Success? ==> cost as int == inst.Sum(TOTAL, r.value))
      && (r.Failure? ==> r.error == NoFeasibleSolution)
      && visited == inst.Visits(CurrentSuffix, [], None)
    ensures (forall inst :: Reads(matrix, threshold, inst) ==> !Admitted(inst)) ==>
      r == Failure(InputError(matrix, threshold))
  {
    visited, cost := [], 0;
    var encoded := Encode(matrix, threshold);
    match encoded {
      case Failure(e) => return Failure(e), 0, [];
      case Success(model) =>
        r, cost, visited := SolveModel(model);
        forall inst | Reads(matrix, threshold, inst)
          ensures inst == model.Plain()
        {
          ReadsOnce(matrix, threshold, inst, model.Plain());
        }
    }
  }

  /** solve: the search from the root. */
  method SolveModel(model: Encoded) returns (r: Result<seq<int>, Status>, cost: int64, ghost visited: seq<Assignment>)
    requires model.Valid() && |model.costs| < MAX_ROWS
    ensures var inst := model.Plain();
      && inst.Solves(if r.Success? then Some(r.value) else None)
      && (r.Success? ==> cost as int == inst.Sum(TOTAL, r.value))
      && (r.Failure? ==> r.error == NoFeasibleSolution)
      && visited == inst.Visits(CurrentSuffix, [], None)
  {
    hide Encoded.Plain, Instance.Sum, Instance.Has;
    var solver := new Solver(model);
    EmptyCarries(solver.inst);
    solver.Visit(0, 0, 0, 0, 0, []);
    visited, cost := solver.visited, solver.bestCost;
    solver.inst.SearchSolves();
    r := if solver.best == [] then Failure(NoFeasibleSolution) else Success(solver.best);
  }

  lemma EmptyCarries(inst: Instance)
    ensures inst.Partial([]) && inst.Sum(TOTAL, []) == 0 && inst.Sum(C12, []) == 0 && inst.Sum(C3, []) == 0
    ensures inst.Sum(inst.Linear(), []) == 0
  {
  }
}
