/**
 Wire labels, the predicate circuits, and their garbled evaluation with free XOR, free NOT and
 point-and-permute tables. The hash pads are arbitrary functions.
 */
module Garbling {
  import opened Wrappers

  // ---------------------------------------------------------------- labels

  type Label = s: seq<bv8> | |s| == 32 witness seq(32, _ => 0)

  const ZERO_LABEL: Label :=
    [0, 0, 0, 0, 0, 0, 0, 0, 0, 0, 0, 0, 0, 0, 0, 0, 0, 0, 0, 0, 0, 0, 0, 0, 0, 0, 0, 0, 0, 0, 0, 0]

  function Xor(a: Label, b: Label): Label {
    seq(32, i requires 0 <= i < 32 => a[i] ^ b[i])
  }

  /** The bit that selects a table row. */
  predicate Lsb(a: Label) {
    a[31] & 1 == 1
  }

  /** The label of a wire that carries v. */
  function Offset(zero: Label, delta: Label, v: bool): Label {
    if v then Xor(zero, delta) else zero
  }

  lemma XorCancel(a: Label, b: Label)
    ensures Xor(Xor(a, b), b) == a && Xor(b, Xor(b, a)) == a
  {
    forall i | 0 <= i < 32
      ensures Xor(Xor(a, b), b)[i] == a[i] && Xor(b, Xor(b, a))[i] == a[i]
    {
    }
  }

  lemma LsbXor(a: Label, b: Label)
    ensures Lsb(Xor(a, b)) == (Lsb(a) != Lsb(b))
  {
    var x, y := a[31], b[31];
    assert (x ^ y) & 1 == (x & 1) ^ (y & 1);
    assert x & 1 == 0 || x & 1 == 1;
    assert y & 1 == 0 || y & 1 == 1;
  }

  /** Offsets add up: this is why XOR and NOT gates need no table. */
  lemma OffsetXor(z1: Label, z2: Label, delta: Label, v1: bool, v2: bool)
    ensures Xor(Offset(z1, delta, v1), Offset(z2, delta, v2)) == Offset(Xor(z1, z2), delta, v1 != v2)
  {
    forall i | 0 <= i < 32
      ensures Xor(Offset(z1, delta, v1), Offset(z2, delta, v2))[i] == Offset(Xor(z1, z2), delta, v1 != v2)[i]
    {
    }
  }

  lemma OffsetTwice(z: Label, delta: Label, v: bool, w: bool)
    ensures Offset(Offset(z, delta, v), delta, w) == Offset(z, delta, v != w)
  {
    XorCancel(z, delta);
  }

  /** A delta with its select bit set separates the two labels of a wire. */
  lemma OffsetSeparates(z: Label, delta: Label, v: bool, w: bool)
    requires Lsb(delta)
    ensures Lsb(Offset(z, delta, v)) == (Lsb(z) != v)
    ensures Offset(z, delta, v) == Offset(z, delta, w) <==> v == w
  {
    LsbXor(z, delta);
  }

  // ---------------------------------------------------------------- circuits

  datatype Gate = Gate(left: nat, right: nat, output: nat)

  /** An XOR of earlier wires and a constant, or (with no terms) the output of the next AND gate. */
  datatype Wire = Wire(terms: seq<nat>, constant: bool)

  datatype Circuit = Circuit(inputs: nat, gates: seq<Gate>, wires: seq<Wire>, output: nat) {

    /** How many AND outputs come before wire w. */
    function GateIndex(w: nat): nat
      requires w <= |wires|
    {
      if w <= inputs then 0
      else GateIndex(w - 1) + if wires[w - 1].terms == [] then 1 else 0
    }

    predicate WireOk(w: nat)
      requires inputs <= w < |wires|
    {
      if wires[w].terms == [] then
        var g := GateIndex(w);
        g < |gates| && gates[g].left < w && gates[g].right < w && gates[g].output == w
      else forall i :: 0 <= i < |wires[w].terms| ==> wires[w].terms[i] < w
    }

    predicate WellFormed() {
      && inputs <= |wires| && output < |wires|
      && GateIndex(|wires|) == |gates|
      && forall w :: inputs <= w < |wires| ==> WireOk(w)
    }

    /** The value of the wire that follows those in values. */
    function Next(values: seq<bool>): bool
      requires inputs <= |values| < |wires| && WireOk(|values|)
    {
      var w := |values|;
      if wires[w].terms == [] then
        values[gates[GateIndex(w)].left] && values[gates[GateIndex(w)].right]
      else XorOf(values, wires[w].terms) != wires[w].constant
    }

    /** The values of the first w wires. */
    function Run(x: seq<bool>, w: nat): (values: seq<bool>)
      requires WellFormed() && |x| == inputs <= w <= |wires|
      ensures |values| == w
    {
      if w == inputs then x else
        var values := Run(x, w - 1);
        values + [Next(values)]
    }

    function Value(x: seq<bool>): bool
      requires WellFormed() && |x| == inputs
    {
      Run(x, |wires|)[output]
    }

    // -------------------------------------------------------------- building circuits

    function Linear(terms: seq<nat>, constant: bool): Circuit {
      this.(wires := wires + [Wire(terms, constant)], output := |wires|)
    }

    function And(a: nat, b: nat): Circuit {
      this.(wires := wires + [Wire([], false)], gates := gates + [Gate(a, b, |wires|)], output := |wires|)
    }

    /** OR as a XOR b XOR (a AND b). */
    function Or(a: nat, b: nat): Circuit {
      And(a, b).Linear([a, b, |wires|], false)
    }

    lemma {:induction false} SamePrefix(c: Circuit, w: nat)
      requires w <= |wires| && wires <= c.wires && inputs == c.inputs
      ensures c.GateIndex(w) == GateIndex(w)
    {
      if w > inputs {
        SamePrefix(c, w - 1);
      }
    }

    /** Appending to a circuit leaves the wires it has as they are. */
    lemma {:induction false} RunSame(c: Circuit, x: seq<bool>, w: nat)
      requires WellFormed() && c.WellFormed() && inputs == c.inputs == |x| && inputs <= w <= |wires|
      requires wires <= c.wires && gates <= c.gates
      ensures c.Run(x, w) == Run(x, w)
    {
      if w > inputs {
        RunSame(c, x, w - 1);
        SamePrefix(c, w - 1);
        assert WireOk(w - 1) && c.WireOk(w - 1);
      }
    }

    /** The circuit carries the values v on input x. */
    ghost predicate Carries(x: seq<bool>, v: seq<bool>) {
      WellFormed() && inputs == |x| && |wires| == |v| && Run(x, |v|) == v
    }

    /** Appending one wire, and its gate if it has one, keeps the circuit well formed. */
    lemma AppendOk(c: Circuit)
      requires WellFormed() && c.inputs == inputs && |c.wires| == |wires| + 1 && wires <= c.wires
      requires gates <= c.gates && c.output == |wires|
      requires if c.wires[|wires|].terms == [] then
          |c.gates| == |gates| + 1
          && c.gates[|gates|].left < |wires| && c.gates[|gates|].right < |wires| && c.gates[|gates|].output == |wires|
        else
          c.gates == gates && forall i :: 0 <= i < |c.wires[|wires|].terms| ==> c.wires[|wires|].terms[i] < |wires|
      ensures c.WellFormed() && c.WireOk(|wires|) && c.GateIndex(|wires|) == |gates|
    {
      forall w | inputs <= w <= |wires|
        ensures c.GateIndex(w) == GateIndex(w)
      {
        SamePrefix(c, w);
      }
      forall w | inputs <= w < |c.wires|
        ensures c.WireOk(w)
      {
        assert w < |wires| ==> WireOk(w);
      }
    }

    lemma AppendRuns(c: Circuit, x: seq<bool>)
      requires WellFormed() && c.WellFormed() && c.inputs == inputs == |x| && |c.wires| == |wires| + 1
      requires wires <= c.wires && gates <= c.gates
      ensures c.Run(x, |c.wires|) == Run(x, |wires|) + [c.Next(Run(x, |wires|))]
    {
      RunSame(c, x, |wires|);
    }

    lemma LinearStep(x: seq<bool>, v: seq<bool>, terms: seq<nat>, constant: bool)
      requires Carries(x, v) && terms != [] && forall i :: 0 <= i < |terms| ==> terms[i] < |v|
      ensures Linear(terms, constant).Carries(x, v + [XorOf(v, terms) != constant])
    {
      AppendOk(Linear(terms, constant));
      AppendRuns(Linear(terms, constant), x);
    }

    lemma AndStep(x: seq<bool>, v: seq<bool>, a: nat, b: nat)
      requires Carries(x, v) && a < |v| && b < |v|
      ensures And(a, b).Carries(x, v + [v[a] && v[b]])
    {
      AppendOk(And(a, b));
      AppendRuns(And(a, b), x);
    }

    lemma OrStep(x: seq<bool>, v: seq<bool>, a: nat, b: nat)
      requires Carries(x, v) && a < |v| && b < |v|
      ensures Or(a, b).Carries(x, v + [v[a] && v[b], v[a] || v[b]])
      ensures Or(a, b).output == |v| + 1
    {
      AndStep(x, v, a, b);
      var w := v + [v[a] && v[b]];
      And(a, b).LinearStep(x, w, [a, b, |v|], false);
      XorOfThree(w, a, b, |v|);
      assert w + [v[a] || v[b]] == v + [v[a] && v[b], v[a] || v[b]];
    }
  }

  function XorOf(values: seq<bool>, terms: seq<nat>): bool
    requires forall i :: 0 <= i < |terms| ==> terms[i] < |values|
  {
    if terms == [] then false else
      var d := |terms| - 1;
      XorOf(values, terms[..d]) != values[terms[d]]
  }

  lemma XorOfTwo(values: seq<bool>, a: nat, b: nat)
    requires a < |values| && b < |values|
    ensures XorOf(values, [a, b]) == (values[a] != values[b])
  {
    assert [a, b][..1] == [a] && [a][..0] == [];
    assert XorOf(values, [a]) == (XorOf(values, []) != values[a]);
  }

  lemma XorOfThree(values: seq<bool>, a: nat, b: nat, c: nat)
    requires a < |values| && b < |values| && c < |values|
    ensures XorOf(values, [a, b, c]) == ((values[a] != values[b]) != values[c])
  {
    assert [a, b, c][..2] == [a, b];
    XorOfTwo(values, a, b);
  }

  // ---------------------------------------------------------------- the two predicates

  datatype PredicateType = PruneNode | AcceptCandidate

  /** PRUNE: the ratio cannot be met, or some cost bound exceeds the incumbent. */
  predicate PruneFormula(bits: seq<bool>, hasIncumbent: bool)
    requires 0 < |bits|
  {
    bits[0] || (hasIncumbent && exists i :: 1 <= i < |bits| && bits[i])
  }

  /**
   ACCEPT over the strict comparisons 0 > linear, c3 > 0 and, with an incumbent,
   incumbent > cost, cost > incumbent, incumbent c12 > c12.
   */
  predicate AcceptFormula(bits: seq<bool>, hasIncumbent: bool)
    requires |bits| == if hasIncumbent then 5 else 2
  {
    !bits[0] && bits[1] && (hasIncumbent ==> bits[2] || (!bits[3] && bits[4]))
  }

  predicate ShapeOk(kind: PredicateType, comparisons: nat, hasIncumbent: bool) {
    match kind
    case PruneNode => if hasIncumbent then 2 <= comparisons else 1 <= comparisons
    case AcceptCandidate => comparisons == if hasIncumbent then 5 else 2
  }

  /** The comparison bits that can occur: the two strict orders of one pair exclude each other. */
  predicate BitsOk(kind: PredicateType, bits: seq<bool>, hasIncumbent: bool) {
    && ShapeOk(kind, |bits|, hasIncumbent)
    && (kind.AcceptCandidate? && hasIncumbent ==> !(bits[2] && bits[3]))
  }

  predicate Formula(kind: PredicateType, bits: seq<bool>, hasIncumbent: bool)
    requires BitsOk(kind, bits, hasIncumbent)
  {
    match kind
    case PruneNode => PruneFormula(bits, hasIncumbent)
    case AcceptCandidate => AcceptFormula(bits, hasIncumbent)
  }

  function Inputs(n: nat): Circuit {
    Circuit(n, [], seq(n, i requires 0 <= i < n => Wire([i], false)), 0)
  }

  /** The OR of inputs 1..i-1, built one at a time; its value is on the output wire. */
  function FoldedOr(n: nat, i: nat): Circuit
    requires 2 <= i <= n
  {
    if i == 2 then Inputs(n).(output := 1)
    else
      var c := FoldedOr(n, i - 1);
      c.Or(c.output, i - 1)
  }

  function PredicateCircuit(kind: PredicateType, comparisons: nat, hasIncumbent: bool): Option<Circuit> {
    if !ShapeOk(kind, comparisons, hasIncumbent) then None
    else if kind.PruneNode? then
      if !hasIncumbent then Some(Inputs(comparisons))
      else
        var c := FoldedOr(comparisons, comparisons);
        Some(c.Or(0, c.output))
    else
      var notLinear := Inputs(comparisons).Linear([0], true);
      var feasible := notLinear.And(notLinear.output, 1);
      if !hasIncumbent then Some(feasible)
      else
        var costEqual := feasible.Linear([2, 3], true);
        var equalAndC12 := costEqual.And(costEqual.output, 4);
        var better := equalAndC12.Linear([2, equalAndC12.output], false);
        Some(better.And(feasible.output, better.output))
  }

  /** The loop that builds the circuit on both sides of the protocol. */
  method BuildPredicateCircuit(kind: PredicateType, comparisons: nat, hasIncumbent: bool)
    returns (r: Option<Circuit>)
    ensures r == PredicateCircuit(kind, comparisons, hasIncumbent)
  {
    if !ShapeOk(kind, comparisons, hasIncumbent) {
      return None;
    }
    var c := Inputs(comparisons);
    if kind.PruneNode? {
      if !hasIncumbent {
        return Some(c);
      }
      c := c.(output := 1);
      for i := 2 to comparisons
        invariant c == FoldedOr(comparisons, i)
      {
        c := c.Or(c.output, i);
      }
      return Some(c.Or(0, c.output));
    }
    c := c.Linear([0], true);
    c := c.And(c.output, 1);
    if !hasIncumbent {
      return Some(c);
    }
    var feasible := c.output;
    c := c.Linear([2, 3], true);
    c := c.And(c.output, 4);
    c := c.Linear([2, c.output], false);
    c := c.And(feasible, c.output);
    r := Some(c);
  }

  lemma InputsCarry(n: nat, x: seq<bool>)
    requires |x| == n && 0 < n
    ensures Inputs(n).Carries(x, x)
  {
    assert Inputs(n).GateIndex(n) == 0;
  }

  lemma {:induction false} FoldedOrWorks(n: nat, i: nat, x: seq<bool>) returns (v: seq<bool>)
    requires 2 <= i <= n == |x|
    ensures FoldedOr(n, i).Carries(x, v) && x <= v
    ensures v[FoldedOr(n, i).output] <==> exists j :: 1 <= j < i && x[j]
  {
    if i == 2 {
      InputsCarry(n, x);
      v := x;
      assert Inputs(n).(output := 1).GateIndex(n) == 0;
    } else {
      var c := FoldedOr(n, i - 1);
      v := FoldedOrWorks(n, i - 1, x);
      c.OrStep(x, v, c.output, i - 1);
      v := v + [v[c.output] && v[i - 1], v[c.output] || v[i - 1]];
    }
  }

  /** A circuit exists exactly for a legal number of comparisons, and then it computes its formula. */
  lemma CircuitComputesFormula(kind: PredicateType, bits: seq<bool>, hasIncumbent: bool)
    ensures PredicateCircuit(kind, |bits|, hasIncumbent).Some? <==> ShapeOk(kind, |bits|, hasIncumbent)
    ensures BitsOk(kind, bits, hasIncumbent) ==>
      var c := PredicateCircuit(kind, |bits|, hasIncumbent);
      && c.value.WellFormed() && c.value.inputs == |bits|
      && c.value.Value(bits) == Formula(kind, bits, hasIncumbent)
  {
    if !BitsOk(kind, bits, hasIncumbent) {
      return;
    }
    if kind.PruneNode? {
      InputsCarry(|bits|, bits);
      if hasIncumbent {
        var v := FoldedOrWorks(|bits|, |bits|, bits);
        var c := FoldedOr(|bits|, |bits|);
        c.OrStep(bits, v, 0, c.output);
      }
    } else {
      AcceptCircuitWorks(bits, hasIncumbent);
    }
  }

  lemma XorOfOne(values: seq<bool>, a: nat)
    requires a < |values|
    ensures XorOf(values, [a]) == values[a]
  {
    assert [a][..0] == [];
    assert !XorOf(values, []);
  }

  lemma AcceptCircuitWorks(bits: seq<bool>, hasIncumbent: bool)
    requires BitsOk(AcceptCandidate, bits, hasIncumbent)
    ensures var c := PredicateCircuit(AcceptCandidate, |bits|, hasIncumbent);
      c.Some? && c.value.WellFormed() && c.value.inputs == |bits|
      && c.value.Value(bits) == AcceptFormula(bits, hasIncumbent)
  {
    hide XorOf;
    var n := |bits|;
    InputsCarry(n, bits);
    XorOfOne(bits, 0);
    Inputs(n).LinearStep(bits, bits, [0], true);
    var c1, v1 := Inputs(n).Linear([0], true), bits + [!bits[0]];
    c1.AndStep(bits, v1, n, 1);
    if hasIncumbent {
      BetterCircuitWorks(c1.And(n, 1), bits, v1 + [!bits[0] && bits[1]]);
    }
  }

  lemma BetterCircuitWorks(c: Circuit, bits: seq<bool>, v: seq<bool>)
    requires BitsOk(AcceptCandidate, bits, true) && c.Carries(bits, v)
    requires |v| == 7 && bits <= v && v[6] == (!bits[0] && bits[1])
    ensures var d := c.Linear([2, 3], true).And(7, 4).Linear([2, 8], false).And(6, 9);
      d.WellFormed() && d.inputs == 5 && d.Value(bits) == AcceptFormula(bits, true)
  {
    hide XorOf;
    XorOfTwo(v, 2, 3);
    c.LinearStep(bits, v, [2, 3], true);
    var c3, v3 := c.Linear([2, 3], true), v + [!(bits[2] != bits[3])];
    c3.AndStep(bits, v3, 7, 4);
    var c4, v4 := c3.And(7, 4), v3 + [v3[7] && v3[4]];
    XorOfTwo(v4, 2, 8);
    c4.LinearStep(bits, v4, [2, 8], false);
    c4.Linear([2, 8], false).AndStep(bits, v4 + [bits[2] != v4[8]], 6, 9);
  }

  // ---------------------------------------------------------------- garbling and evaluating

  /** The hashes that mask table rows and transferred labels. */
  datatype Pads = Pads(gate: (Label, Label, nat) -> Label, ot: (int, nat) -> Label)

  type Table = t: seq<Label> | |t| == 4 witness [ZERO_LABEL, ZERO_LABEL, ZERO_LABEL, ZERO_LABEL]

  function RowIndex(left: Label, right: Label): (row: nat)
    ensures row < 4
  {
    (if Lsb(left) then 2 else 0) + (if Lsb(right) then 1 else 0)
  }

  function XorLabels(labels: seq<Label>, terms: seq<nat>): Label
    requires forall i :: 0 <= i < |terms| ==> terms[i] < |labels|
  {
    if terms == [] then ZERO_LABEL else
      var d := |terms| - 1;
      Xor(XorLabels(labels, terms[..d]), labels[terms[d]])
  }

  /** Every row of a gate's table opens, under the labels that select it, to the right output label. */
  ghost predicate TableOk(pads: Pads, table: Table, index: nat, delta: Label, zl: Label, zr: Label, zo: Label) {
    forall a: bool, b: bool ::
      RowOk(pads, table, index, Offset(zl, delta, a), Offset(zr, delta, b), Offset(zo, delta, a && b))
  }

  predicate RowOk(pads: Pads, table: Table, index: nat, left: Label, right: Label, target: Label) {
    table[RowIndex(left, right)] == Xor(pads.gate(left, right, index), target)
  }

  ghost predicate WireGarbled(c: Circuit, pads: Pads, delta: Label, zero: seq<Label>, tables: seq<Table>, w: nat)
    requires c.WellFormed() && c.inputs <= w < |zero| <= |c.wires|
  {
    c.WireOk(w) &&
    if c.wires[w].terms != [] then
      zero[w] == Offset(XorLabels(zero[..w], c.wires[w].terms), delta, c.wires[w].constant)
    else
      var g := c.GateIndex(w);
      g < |tables| &&
      TableOk(pads, tables[g], g, delta, zero[c.gates[g].left], zero[c.gates[g].right], zero[w])
  }

  ghost predicate Garbled(c: Circuit, pads: Pads, delta: Label, zero: seq<Label>, tables: seq<Table>) {
    && c.WellFormed() && Lsb(delta)
    && c.inputs <= |zero| <= |c.wires|
    && forall w :: c.inputs <= w < |zero| ==> WireGarbled(c, pads, delta, zero, tables, w)
  }

  method RandomLabel() returns (l: Label) {
    l := *;
  }

  lemma RowsDiffer(zl: Label, zr: Label, delta: Label, a: bool, b: bool, a': bool, b': bool)
    requires Lsb(delta)
    ensures RowIndex(Offset(zl, delta, a), Offset(zr, delta, b)) == RowIndex(Offset(zl, delta, a'), Offset(zr, delta, b'))
      <==> a == a' && b == b'
  {
    OffsetSeparates(zl, delta, a, a');
    OffsetSeparates(zl, delta, a', a);
    OffsetSeparates(zr, delta, b, b');
    OffsetSeparates(zr, delta, b', b);
  }

  /** The four rows of one AND gate, each written where its input labels select it. */
  method GarbleGate(pads: Pads, index: nat, delta: Label, zl: Label, zr: Label, zo: Label) returns (table: Table)
    requires Lsb(delta)
    ensures TableOk(pads, table, index, delta, zl, zr, zo)
  {
    hide Offset, RowIndex, Xor;
    table := [ZERO_LABEL, ZERO_LABEL, ZERO_LABEL, ZERO_LABEL];
    for i := 0 to 4
      invariant forall a: bool, b: bool :: (if a then 2 else 0) + (if b then 1 else 0) < i ==>
        RowOk(pads, table, index, Offset(zl, delta, a), Offset(zr, delta, b), Offset(zo, delta, a && b))
    {
      var a, b := i / 2 == 1, i % 2 == 1;
      forall a': bool, b': bool {
        RowsDiffer(zl, zr, delta, a, b, a', b');
      }
      var left, right := Offset(zl, delta, a), Offset(zr, delta, b);
      table := table[RowIndex(left, right) := Xor(pads.gate(left, right, index), Offset(zo, delta, a && b))];
    }
  }

  /** The garbler's walk over the wires. */
  method Garble(c: Circuit, pads: Pads) returns (delta: Label, zero: seq<Label>, tables: seq<Table>)
    requires c.WellFormed()
    ensures Garbled(c, pads, delta, zero, tables)
    ensures |zero| == |c.wires| && |tables| == |c.gates|
  {
    delta := RandomLabel();
    delta := delta[31 := delta[31] | 1];
    assert (delta[31] | 1) & 1 == 1;
    zero, tables := [], [];
    for i := 0 to c.inputs
      invariant |zero| == i
    {
      var l := RandomLabel();
      zero := zero + [l];
    }
    for w := c.inputs to |c.wires|
      invariant |zero| == w && |tables| == c.GateIndex(w)
      invariant Garbled(c, pads, delta, zero, tables)
    {
      ghost var zero0, tables0 := zero, tables;
      assert c.WireOk(w);
      var wire := c.wires[w];
      if wire.terms != [] {
        var z := XorAll(zero, wire.terms);
        zero := zero + [Offset(z, delta, wire.constant)];
      } else {
        var gate := c.gates[|tables|];
        var z := RandomLabel();
        var table := GarbleGate(pads, |tables|, delta, zero[gate.left], zero[gate.right], z);
        zero, tables := zero + [z], tables + [table];
      }
      forall v | c.inputs <= v < |zero|
        ensures WireGarbled(c, pads, delta, zero, tables, v)
      {
        assert c.WireOk(v);
        assert zero[..w] == zero0;
        if v < w {
          assert zero[..v] == zero0[..v];
          assert WireGarbled(c, pads, delta, zero0, tables0, v);
        }
      }
    }
  }

  method XorAll(labels: seq<Label>, terms: seq<nat>) returns (z: Label)
    requires forall i :: 0 <= i < |terms| ==> terms[i] < |labels|
    ensures z == XorLabels(labels, terms)
  {
    z := ZERO_LABEL;
    for i := 0 to |terms|
      invariant z == XorLabels(labels, terms[..i])
    {
      assert terms[..i + 1][..i] == terms[..i];
      z := Xor(z, labels[terms[i]]);
    }
    assert terms[..|terms|] == terms;
  }

  /** The label of the wire after those in labels, as the evaluator computes it. */
  function NextLabel(c: Circuit, pads: Pads, tables: seq<Table>, labels: seq<Label>): Label
    requires c.WellFormed() && c.inputs <= |labels| < |c.wires| && |tables| == |c.gates|
    requires c.WireOk(|labels|)
  {
    var w := |labels|;
    if c.wires[w].terms != [] then XorLabels(labels, c.wires[w].terms)
    else
      var g := c.GateIndex(w);
      var left, right := labels[c.gates[g].left], labels[c.gates[g].right];
      Xor(pads.gate(left, right, g), tables[g][RowIndex(left, right)])
  }

  function Evaluation(c: Circuit, pads: Pads, tables: seq<Table>, inputs: seq<Label>, w: nat): (labels: seq<Label>)
    requires c.WellFormed() && |inputs| == c.inputs <= w <= |c.wires| && |tables| == |c.gates|
    ensures |labels| == w
  {
    if w == c.inputs then inputs else
      var labels := Evaluation(c, pads, tables, inputs, w - 1);
      labels + [NextLabel(c, pads, tables, labels)]
  }

  /** The evaluator's loop over the wires. */
  method Evaluate(c: Circuit, pads: Pads, tables: seq<Table>, inputs: seq<Label>) returns (labels: seq<Label>)
    requires c.WellFormed() && |inputs| == c.inputs && |tables| == |c.gates|
    ensures labels == Evaluation(c, pads, tables, inputs, |c.wires|)
  {
    labels := inputs;
    var gi := 0;
    for w := c.inputs to |c.wires|
      invariant labels == Evaluation(c, pads, tables, inputs, w) && gi == c.GateIndex(w)
    {
      assert c.WireOk(w);
      if c.wires[w].terms != [] {
        var z := XorAll(labels, c.wires[w].terms);
        labels := labels + [z];
      } else {
        var gate := c.gates[gi];
        var left, right := labels[gate.left], labels[gate.right];
        labels := labels + [Xor(pads.gate(left, right, gi), tables[gi][RowIndex(left, right)])];
        gi := gi + 1;
      }
    }
  }

  lemma {:induction false} XorLabelsOffset(zero: seq<Label>, labels: seq<Label>, values: seq<bool>, delta: Label,
      terms: seq<nat>)
    requires |zero| == |labels| == |values| && forall i :: 0 <= i < |terms| ==> terms[i] < |zero|
    requires forall i :: 0 <= i < |zero| ==> labels[i] == Offset(zero[i], delta, values[i])
    ensures XorLabels(labels, terms) == Offset(XorLabels(zero, terms), delta, XorOf(values, terms))
  {
    if terms == [] {
    } else {
      var d := |terms| - 1;
      XorLabelsOffset(zero, labels, values, delta, terms[..d]);
      OffsetXor(XorLabels(zero, terms[..d]), zero[terms[d]], delta, XorOf(values, terms[..d]), values[terms[d]]);
    }
  }

  /**
   At every wire the evaluator holds zero[w] XOR value * delta, where value is what the plain
   circuit carries there.
   */
  lemma {:induction false} EvaluatorHolds(c: Circuit, pads: Pads, delta: Label, zero: seq<Label>, tables: seq<Table>,
      inputs: seq<Label>, x: seq<bool>, w: nat)
    requires Garbled(c, pads, delta, zero, tables) && |zero| == |c.wires| && |tables| == |c.gates|
    requires |inputs| == |x| == c.inputs <= w <= |c.wires|
    requires forall i :: 0 <= i < c.inputs ==> inputs[i] == Offset(zero[i], delta, x[i])
    ensures forall i :: 0 <= i < w ==>
      Evaluation(c, pads, tables, inputs, w)[i] == Offset(zero[i], delta, c.Run(x, w)[i])
  {
    if w > c.inputs {
      var v := w - 1;
      EvaluatorHolds(c, pads, delta, zero, tables, inputs, x, v);
      var labels, values := Evaluation(c, pads, tables, inputs, v), c.Run(x, v);
      assert c.WireOk(v) && WireGarbled(c, pads, delta, zero, tables, v);
      NextHolds(c, pads, delta, zero, tables, labels, values);
    }
  }

  /** One wire more: a linear wire by its labels alone, an AND by its table. */
  lemma NextHolds(c: Circuit, pads: Pads, delta: Label, zero: seq<Label>, tables: seq<Table>, labels: seq<Label>,
      values: seq<bool>)
    requires c.WellFormed() && c.inputs <= |labels| == |values| < |zero| == |c.wires| && |tables| == |c.gates|
    requires c.WireOk(|values|) && WireGarbled(c, pads, delta, zero, tables, |values|)
    requires forall i :: 0 <= i < |values| ==> labels[i] == Offset(zero[i], delta, values[i])
    requires Lsb(delta)
    ensures NextLabel(c, pads, tables, labels) == Offset(zero[|values|], delta, c.Next(values))
  {
    var v := |values|;
    if c.wires[v].terms != [] {
      var z := XorLabels(zero[..v], c.wires[v].terms);
      XorLabelsOffset(zero[..v], labels, values, delta, c.wires[v].terms);
      OffsetTwice(z, delta, c.wires[v].constant, c.Next(values));
    } else {
      var g := c.GateIndex(v);
      var left, right := labels[c.gates[g].left], labels[c.gates[g].right];
      XorCancel(Offset(zero[v], delta, c.Next(values)), pads.gate(left, right, g));
    }
  }
}
