/**
 Encrypted cost rows and the instance hidden in them, and the ranges that the public bit budget
 guarantees for every value computed from it.
 */
module EncryptedCosts {
  import opened Wrappers
  import opened NumberTheory
  import opened Paillier
  import opened SecureProtocols
  import opened CostModel
  import opened NumericDomains
  import opened LagrangianGrids

  type CostRow = r: seq<Option<Ciphertext>> | |r| == 3 witness [None, None, None]

  // ---------------------------------------------------------------- what ciphertexts carry

  ghost predicate HoldsOption(k: Key, c: Option<Ciphertext>, v: Option<int>) {
    c.Some? == v.Some? && (c.Some? ==> k.Holds(c.value, v.value))
  }

  /** The encrypted rows carry the costs of the instance. */
  ghost predicate CostsHold(k: Key, costs: seq<CostRow>, inst: Instance) {
    && |costs| == |inst.rows|
    && forall i :: 0 <= i < |costs| ==> RowHolds(k, costs[i], inst.rows[i])
  }

  ghost predicate RowHolds(k: Key, row: CostRow, plain: Row) {
    forall j :: 0 <= j < 3 ==> HoldsOption(k, row[j], plain[j])
  }

  /** The public data of a solve fit the hidden instance. */
  ghost predicate Matches(domain: NumericDomain, threshold: int, inst: Instance) {
    && domain.AcceptedByBackend() && domain.Admits(inst)
    && inst.Valid() && inst.scale == domain.scale && inst.threshold == threshold
  }

  lemma ContributionTerm(inst: Instance, i: int, m: int)
    requires inst.Has(i, m)
    ensures inst.Term(inst.Linear(), i, m)
         == inst.Cost(i, m) * (if m < 3 then inst.scale - inst.threshold else -inst.threshold)
  {
  }

  // ---------------------------------------------------------------- ranges

  /** Coefficients up to bound leave every sum, suffix bound and row difference in range. */
  predicate Fits(domain: NumericDomain, bound: int) {
    && 1 <= bound && 1 <= domain.maxRows
    && domain.maxCostBits + CeilLog2(bound) + CeilLog2(domain.maxRows) <= OPERAND_BITS
    && domain.maxCostBits + CeilLog2(bound) + 1 <= OPERAND_BITS
  }

  ghost predicate Safe(domain: NumericDomain, w: Weight) {
    exists bound :: Fits(domain, bound) && Coefficients(w, bound)
  }

  /** What the bit budget leaves room for: a full set of rows, and one difference of two terms. */
  lemma Capacity(domain: NumericDomain, bound: int, count: nat)
    requires Fits(domain, bound) && count <= domain.maxRows
    ensures var top := Pow2(domain.maxCostBits) - 1;
      0 <= bound * top && count * (bound * top) < TWO_127 && 2 * (bound * top) < TWO_127
  {
    CapacityBelow(domain, bound, count, Pow2(domain.maxCostBits) - 1);
  }

  lemma CapacityBelow(domain: NumericDomain, bound: int, count: nat, top: int)
    requires Fits(domain, bound) && count <= domain.maxRows && 0 <= top < Pow2(domain.maxCostBits)
    ensures 0 <= bound * top && count * (bound * top) < TWO_127 && 2 * (bound * top) < TWO_127
  {
    assert Pow2(1) == 2;
    hide Pow2, CeilLog2;
    Budget(count, bound, top, CeilLog2(domain.maxRows), CeilLog2(bound), domain.maxCostBits);
    Pow2Mono(domain.maxCostBits + CeilLog2(bound) + CeilLog2(domain.maxRows), OPERAND_BITS);
    Budget(2, bound, top, 1, CeilLog2(bound), domain.maxCostBits);
    Pow2Mono(domain.maxCostBits + CeilLog2(bound) + 1, OPERAND_BITS);
    Pow2Of63();
    MulNonNeg(bound, top);
  }

  lemma SplitRange(x: int, y: int, p: nat, n: nat, b: int)
    requires 0 <= b && p <= n && Abs(x) <= p * b && Abs(y) <= (n - p) * b
    ensures Abs(x) <= n * b && Abs(x + y) <= n * b
  {
    MulMono(p, n, b);
    assert p * b + (n - p) * b == n * b;
  }

  lemma SafeSums(domain: NumericDomain, inst: Instance, w: Weight, p: Assignment)
    requires inst.Valid() && domain.Admits(inst) && inst.Partial(p) && Safe(domain, w)
    ensures InRange(inst.Sum(w, p)) && InRange(inst.LowerBound(w, p))
    ensures InRange(inst.Sum(w, p) + inst.MaxSuffix(w, |p|))
  {
    hide Pow2, Fits, Coefficients, Instance.Sum, Instance.MinSuffix, Instance.MaxSuffix;
    var bound :| Fits(domain, bound) && Coefficients(w, bound);
    var top := Pow2(domain.maxCostBits) - 1;
    SumRange(inst, w, bound, top, p);
    SuffixRange(inst, w, bound, top, |p|);
    Capacity(domain, bound, |inst.rows|);
    SplitRange(inst.Sum(w, p), inst.MinSuffix(w, |p|), |p|, |inst.rows|, bound * top);
    SplitRange(inst.Sum(w, p), inst.MaxSuffix(w, |p|), |p|, |inst.rows|, bound * top);
  }

  lemma SafeTerms(domain: NumericDomain, inst: Instance, w: Weight, i: int, m: int, m': int)
    requires inst.Valid() && domain.Admits(inst) && Safe(domain, w) && inst.Has(i, m) && inst.Has(i, m')
    ensures InRange(inst.Term(w, i, m)) && InRange(inst.Term(w, i, m'))
    ensures InRange(inst.Term(w, i, m) - inst.Term(w, i, m'))
  {
    var bound :| Fits(domain, bound) && Coefficients(w, bound);
    var top := Pow2(domain.maxCostBits) - 1;
    TermRange(inst, w, bound, top, i, m);
    TermRange(inst, w, bound, top, i, m');
    Capacity(domain, bound, 0);
  }

  lemma SafeBasics(domain: NumericDomain, inst: Instance)
    requires domain.AcceptedByBackend() && inst.Valid() && inst.scale == domain.scale
    ensures Safe(domain, TOTAL) && Safe(domain, C12) && Safe(domain, C3) && Safe(domain, inst.Linear())
  {
    assert CeilLog2(1) == 0;
    assert Fits(domain, 1) && Fits(domain, domain.scale);
    assert Coefficients(TOTAL, 1) && Coefficients(C12, 1) && Coefficients(C3, 1);
    assert Coefficients(inst.Linear(), domain.scale);
  }

  /** Every score of a grid that the builder returns is safe, and so is the scaled incumbent. */
  lemma SafeScores(domain: NumericDomain, inst: Instance, grid: Grid, i: int)
    requires inst.Valid() && inst.scale == domain.scale && GoodGrid(domain, inst.threshold, grid)
    requires 0 <= i < |grid.mu|
    ensures Safe(domain, inst.Score(grid.q, grid.mu[i])) && Safe(domain, Weight(grid.q, grid.q))
  {
    hide CoefficientBound, Fits;
    var bound := CoefficientBound(grid.q, grid.mu[i], inst.scale - inst.threshold, inst.threshold);
    SupportedFits(domain, inst.threshold, grid.q, grid.mu[i]);
    assert Coefficients(inst.Score(grid.q, grid.mu[i]), bound) && Coefficients(Weight(grid.q, grid.q), bound);
  }

  lemma SupportedFits(domain: NumericDomain, threshold: int, q: int, mu: int)
    requires 0 <= threshold < domain.scale && 0 < q && 0 <= mu && IsSupported(domain, threshold, q, mu)
    ensures var alpha := domain.scale - threshold; var bound := CoefficientBound(q, mu, alpha, threshold);
      && Fits(domain, bound) && q <= bound
      && Abs(q - mu * alpha) <= bound && Abs(q + mu * threshold) <= bound
  {
    CoefficientBoundMonotone(q, mu, mu, domain.scale - threshold, threshold);
    MulNonNeg(mu, threshold);
  }

  lemma ScaledSumInRange(domain: NumericDomain, inst: Instance, q: int, s: Assignment)
    requires inst.Valid() && domain.Admits(inst) && inst.Partial(s) && Safe(domain, Weight(q, q))
    ensures InRange(inst.Sum(TOTAL, s) * q)
  {
    hide Safe, NumericDomain.Admits;
    SafeSums(domain, inst, Weight(q, q), s);
    inst.SumScore(q, 0, s);
    assert inst.Score(q, 0) == Weight(q, q);
  }
}
