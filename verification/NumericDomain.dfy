/** The public bit budgets of a deployment, and the ranges they guarantee. */
module NumericDomains {
  import opened NumberTheory
  import opened CostModel

  const OPERAND_BITS := 127
  const INT64_MAX := 0x7fff_ffff_ffff_ffff
  const UINT32_MAX := 0xffff_ffff

  /** Bit fields bound magnitudes: a value of b means |x| < 2^b. */
  datatype NumericDomain = NumericDomain(
    scale: int,
    maxRows: nat,
    maxCostBits: nat,
    maxTotalBits: nat,
    maxLinearBits: nat,
    compareBits: nat)
  {
    /** The integer widths of the fields. */
    predicate Representable() {
      && -INT64_MAX - 1 <= scale <= INT64_MAX
      && maxRows <= 0xffff_ffff_ffff_ffff
      && maxCostBits <= UINT32_MAX && maxTotalBits <= UINT32_MAX
      && maxLinearBits <= UINT32_MAX && compareBits <= UINT32_MAX
    }

    /** The checks of the threshold backend's constructor. */
    predicate AcceptedByBackend() {
      && 0 < scale && 0 < maxRows && 0 < maxCostBits
      && 0 < maxTotalBits && 0 < maxLinearBits && 0 < compareBits
      && var total := maxCostBits + CeilLog2(maxRows);
         var linear := total + CeilLog2(scale) + 1;
         var compare := if total < linear then linear else total;
      && total <= maxTotalBits && linear <= maxLinearBits && compare <= compareBits
      && maxCostBits <= OPERAND_BITS && maxTotalBits <= OPERAND_BITS
      && maxLinearBits <= OPERAND_BITS && compareBits <= OPERAND_BITS
    }

    /** What the solver asks of its input rows. */
    ghost predicate Admits(inst: Instance) {
      |inst.rows| <= maxRows && forall i, m :: inst.Has(i, m) ==> inst.Cost(i, m) < Pow2(maxCostBits)
    }
  }

  function Abs(x: int): int {
    if x < 0 then -x else x
  }

  predicate Coefficients(w: Weight, bound: int) {
    Abs(w.a12) <= bound && Abs(w.a3) <= bound
  }

  /** Every cost is at most top. */
  ghost predicate CostsUpTo(inst: Instance, top: int) {
    forall i, m :: inst.Has(i, m) ==> inst.Cost(i, m) <= top
  }

  lemma ProductRange(a: int, c: int, bound: int, top: int)
    requires Abs(a) <= bound && 0 <= c <= top
    ensures Abs(a * c) <= bound * top
  {
    MulMono(Abs(a), bound, c);
    MulMono(c, top, bound);
    if a < 0 {
      assert -a * c == -(a * c);
    }
    MulNonNeg(Abs(a), c);
  }

  lemma TermRange(inst: Instance, w: Weight, bound: int, top: int, i: int, m: int)
    requires inst.Has(i, m) && Coefficients(w, bound) && CostsUpTo(inst, top)
    ensures Abs(inst.Term(w, i, m)) <= bound * top
  {
    ProductRange(if m < 3 then w.a12 else w.a3, inst.Cost(i, m), bound, top);
  }

  lemma {:induction false} SumRange(inst: Instance, w: Weight, bound: int, top: int, s: Assignment)
    requires inst.Partial(s) && Coefficients(w, bound) && CostsUpTo(inst, top)
    ensures Abs(inst.Sum(w, s)) <= |s| * (bound * top)
  {
    if s == [] {
    } else {
      var d, b := |s| - 1, bound * top;
      SumRange(inst, w, bound, top, s[..d]);
      TermRange(inst, w, bound, top, d, s[d]);
      hide Coefficients, CostsUpTo, Instance.Term;
      assert (d + 1) * b == d * b + b;
    }
  }

  lemma {:induction false} SuffixRange(inst: Instance, w: Weight, bound: int, top: int, d: int)
    requires inst.Valid() && 0 <= d <= |inst.rows| && Coefficients(w, bound) && CostsUpTo(inst, top)
    ensures Abs(inst.MinSuffix(w, d)) <= (|inst.rows| - d) * (bound * top)
    ensures Abs(inst.MaxSuffix(w, d)) <= (|inst.rows| - d) * (bound * top)
    decreases |inst.rows| - d
  {
    var b := bound * top;
    if d < |inst.rows| {
      SuffixRange(inst, w, bound, top, d + 1);
      inst.RowBounds(w, d);
      var i :| inst.Has(d, i) && inst.MinUpTo(w, d, 3).value == inst.Term(w, d, i);
      var j :| inst.Has(d, j) && inst.MaxUpTo(w, d, 3).value == inst.Term(w, d, j);
      TermRange(inst, w, bound, top, d, i);
      TermRange(inst, w, bound, top, d, j);
      assert (|inst.rows| - d) * b == (|inst.rows| - (d + 1)) * b + b;
    }
  }

  /** A bound below 2^a, b values and costs below 2^c fit together in a + b + c bits. */
  lemma Budget(count: nat, bound: int, top: int, countBits: nat, boundBits: nat, costBits: nat)
    requires count <= Pow2(countBits) && 1 <= bound <= Pow2(boundBits) && 0 <= top < Pow2(costBits)
    ensures 0 <= count * (bound * top) < Pow2(costBits + boundBits + countBits)
  {
    MulMono(bound, Pow2(boundBits), top);
    MulStrict(top, Pow2(costBits), Pow2(boundBits));
    Pow2Add(costBits, boundBits);
    MulNonNeg(bound, top);
    MulMono(count, Pow2(countBits), bound * top);
    MulStrict(bound * top, Pow2(costBits + boundBits), Pow2(countBits));
    Pow2Add(costBits + boundBits, countBits);
    MulNonNeg(count, bound * top);
  }
}
