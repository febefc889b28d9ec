/**
 The integer widths of the structured solver. Its additions and products are checked and throw on
 overflow; while the largest costs of all rows sum to less than 2^63, none of them does.
 */
module CoverRanges {
  import opened NumberTheory
  import opened CostModel
  import opened CoverModels

  const INT64_MAX := 0x7fff_ffff_ffff_ffff
  const INT128_MAX := 0x7fff_ffff_ffff_ffff_ffff_ffff_ffff_ffff
  const FIXED_SCALE := 1_000_000

  /** Everything fits in a signed 64-bit or 128-bit integer. */
  predicate Fits64(v: int) {
    -INT64_MAX <= v <= INT64_MAX
  }

  predicate Fits128(v: int) {
    -INT128_MAX <= v <= INT128_MAX
  }

  /** The costs of any assignment sum to a 64-bit integer. */
  ghost predicate SumsFit64(inst: Instance) {
    inst.Valid() && inst.scale == FIXED_SCALE && inst.MaxSuffix(TOTAL, 0) <= INT64_MAX
  }

  /** Twice the largest margin. */
  const MARGIN := 2 * (FIXED_SCALE * INT64_MAX)

  lemma MarginFits(inst: Instance, s: Assignment)
    requires SumsFit64(inst) && inst.Complete(s)
    ensures 0 <= inst.Sum(TOTAL, s) <= INT64_MAX && 0 <= inst.Sum(C12, s) && 0 <= inst.Sum(C3, s)
    ensures -(FIXED_SCALE * INT64_MAX) <= inst.Sum(inst.Linear(), s) <= FIXED_SCALE * INT64_MAX
  {
    hide Instance.Sum, Instance.MaxSuffix;
    inst.SuffixBounds(TOTAL, s, 0);
    assert s[..0] == [];
    inst.SumParts(s);
    inst.LinearParts(s);
    NothingSummed(inst);
    MarginRange(inst.Sum(C12, s), inst.Sum(TOTAL, s), inst.threshold);
  }

  lemma NothingSummed(inst: Instance)
    ensures inst.Sum(TOTAL, []) == 0
  {
  }

  lemma MarginRange(c12: int, total: int, t: int)
    requires 0 <= c12 <= total <= INT64_MAX && 0 <= t < FIXED_SCALE
    ensures -(FIXED_SCALE * INT64_MAX) <= FIXED_SCALE * c12 - t * total <= FIXED_SCALE * INT64_MAX
  {
    MulMono(t, FIXED_SCALE, total);
    MulNonNeg(t, total);
  }

  // ---------------------------------------------------------------- a choice

  /** The running gain, cost and margin of a node. */
  lemma ChoiceFits(plan: Plan, bits: Bits)
    requires plan.Valid() && SumsFit64(plan.inst) && |bits| <= |plan.decisions|
    ensures Fits64(plan.Extra(bits)) && 0 <= plan.Gain(bits) <= MARGIN
    ensures Fits128(plan.g0 + plan.Gain(bits)) && Fits128(plan.g0) && 0 <= plan.required <= FIXED_SCALE * INT64_MAX
  {
    plan.ApplySums(bits);
    plan.ApplySums([]);
    MarginFits(plan.inst, plan.Apply(bits));
    MarginFits(plan.inst, plan.base);
    plan.Extending([], bits);
  }

  /** The candidate's cost, with a provider's where one is needed, and the solution's objective. */
  lemma OfferFits(plan: Plan, bits: Bits)
    requires plan.Valid() && SumsFit64(plan.inst) && plan.FirstCover(bits) && plan.Offer(bits).Some?
    ensures Fits64(plan.Offer(bits).value.extra)
    ensures Fits64(plan.inst.Sum(TOTAL, plan.base) + plan.Offer(bits).value.extra)
  {
    plan.OfferIsSolution(bits);
    MarginFits(plan.inst, plan.Offer(bits).value.choice);
    MarginFits(plan.inst, plan.base);
  }

  /** What one row changes, when it is moved from its base method to another. */
  lemma ChangeFits(plan: Plan, i: nat, m: int)
    requires plan.Valid() && SumsFit64(plan.inst) && i < |plan.base| && plan.inst.Has(i, m)
    ensures Fits64(plan.inst.Term(TOTAL, i, m) - plan.inst.Term(TOTAL, i, plan.base[i]))
    ensures var change := plan.inst.Term(plan.inst.Linear(), i, m) - plan.inst.Term(plan.inst.Linear(), i, plan.base[i]);
      -MARGIN <= change <= MARGIN
  {
    plan.inst.SumUpdate(TOTAL, plan.base, i, m);
    plan.inst.SumUpdate(plan.inst.Linear(), plan.base, i, m);
    MarginFits(plan.inst, plan.base);
    MarginFits(plan.inst, plan.base[i := m]);
  }

  /** The numbers of one decision and of one dominated row, and the test whether the latter qualifies. */
  lemma RowsFit(plan: Plan)
    requires plan.Valid() && SumsFit64(plan.inst)
    ensures forall k :: 0 <= k < |plan.decisions| ==>
      Fits64(plan.decisions[k].extra) && 0 <= plan.decisions[k].gain <= MARGIN
    ensures forall k, bits :: 0 <= k < |plan.dominated| && |bits| <= |plan.decisions| ==>
      var d := plan.dominated[k]; Fits64(d.extra) && Fits128(plan.g0 + plan.Gain(bits) - d.loss)
  {
    hide Instance.Sum, Instance.Term, Plan.Gain;
    forall k | 0 <= k < |plan.decisions|
      ensures Fits64(plan.decisions[k].extra) && 0 <= plan.decisions[k].gain <= MARGIN
    {
      var d := plan.decisions[k];
      plan.DecisionTerms(d);
      ChangeFits(plan, d.row, d.choice);
    }
    forall k, bits | 0 <= k < |plan.dominated| && |bits| <= |plan.decisions|
      ensures var d := plan.dominated[k]; Fits64(d.extra) && Fits128(plan.g0 + plan.Gain(bits) - d.loss)
    {
      var d := plan.dominated[k];
      plan.DominatedTerms(d);
      ChangeFits(plan, d.row, 3);
      ChoiceFits(plan, bits);
    }
  }

  // ---------------------------------------------------------------- the suffix tables

  lemma {:induction false} AllGains(plan: Plan, k: nat)
    requires plan.Valid() && k <= |plan.decisions|
    ensures plan.SuffixGain(k) == plan.SuffixGain(0) - plan.Gain(seq(k, _ => true))
  {
    if k > 0 {
      AllGains(plan, k - 1);
      assert seq(k, _ => true)[..k - 1] == seq(k - 1, _ => true);
    }
  }

  lemma SuffixGainFits(plan: Plan, k: nat)
    requires plan.Valid() && SumsFit64(plan.inst) && k <= |plan.decisions|
    ensures 0 <= plan.SuffixGain(k) <= MARGIN
  {
    var n := |plan.decisions|;
    AllGains(plan, n);
    ChoiceFits(plan, seq(n, _ => true));
    plan.SuffixGainNonNeg(k);
    plan.Extending([], seq(k, _ => false));
    ChoiceFits(plan, seq(k, _ => false));
  }

  /** Reduced costs are cut off at 0, so a suffix sum is no lower than minus its weighted gains. */
  lemma {:induction false} SuffixReducedAbove(plan: Plan, m: Multiplier, k: nat)
    requires plan.Valid() && k <= |plan.decisions| && 0 <= m.p && 0 < m.q
    ensures -(m.p * plan.SuffixGain(k)) <= plan.SuffixReduced(m, k) <= 0
    decreases |plan.decisions| - k
  {
    if k < |plan.decisions| {
      hide Plan.Valid, Plan.DecisionOk;
      SuffixReducedAbove(plan, m, k + 1);
      var d := plan.decisions[k];
      plan.DecisionSigns(k);
      MulNonNeg(d.extra * m.q, plan.inst.scale) by {
        MulNonNeg(d.extra, m.q);
      }
      assert m.p * (plan.SuffixGain(k + 1) + d.gain) == m.p * plan.SuffixGain(k + 1) + m.p * d.gain;
    }
  }

  lemma GridSmall(n: nat)
    requires n < |GRID|
    ensures 0 <= GRID[n].p <= 5 && 0 < GRID[n].q <= 64
  {
  }

  /** Every product and sum of a multiplier's table and of its bound at a node with this residual. */
  lemma MultiplierFits(plan: Plan, n: nat, k: nat, residual: int)
    requires plan.Valid() && SumsFit64(plan.inst) && n < |GRID| && k <= |plan.decisions|
    requires 0 <= residual <= plan.required
    ensures var m := GRID[n];
      && Fits128(plan.SuffixReduced(m, k)) && Fits128(m.p * residual) && Fits128(m.q * FIXED_SCALE)
      && Fits128(m.p * residual + plan.SuffixReduced(m, k))
    ensures k < |plan.decisions| ==>
      var (m, d) := (GRID[n], plan.decisions[k]);
      && Fits128(d.extra * m.q) && Fits128(d.extra * m.q * FIXED_SCALE)
      && Fits128(m.p * d.gain) && Fits128(plan.Reduced(m, k))
  {
    var m := GRID[n];
    GridSmall(n);
    ChoiceFits(plan, []);
    SuffixGainFits(plan, k);
    SuffixReducedAbove(plan, m, k);
    SmallFactor(m.p, residual, MARGIN);
    SmallFactor(m.p, plan.SuffixGain(k), MARGIN);
    if k < |plan.decisions| {
      var d := plan.decisions[k];
      RowsFit(plan);
      plan.DecisionSigns(k);
      SmallFactor(m.p, d.gain, MARGIN);
      MulMono(m.q, 64, d.extra);
      MulNonNeg(d.extra, m.q);
      assert m.q * d.extra == d.extra * m.q;
    }
  }

  /** The node's cost with its bound. */
  lemma BoundFits(plan: Plan, bits: Bits, n: nat)
    requires plan.Valid() && SumsFit64(plan.inst) && |bits| <= |plan.decisions| && n <= |GRID|
    requires plan.Gain(bits) <= plan.required
    ensures Fits128(plan.Extra(bits) + plan.Bound(|bits|, plan.required - plan.Gain(bits), n))
  {
    ChoiceFits(plan, bits);
    BoundBelow(plan, |bits|, plan.required - plan.Gain(bits), n);
  }

  lemma {:induction false} BoundBelow(plan: Plan, k: nat, residual: int, n: nat)
    requires plan.Valid() && SumsFit64(plan.inst) && k <= |plan.decisions| && n <= |GRID|
    requires 0 <= residual <= MARGIN
    ensures 0 <= plan.Bound(k, residual, n) <= 5 * MARGIN
  {
    if n > 0 {
      var m := GRID[n - 1];
      BoundBelow(plan, k, residual, n - 1);
      GridSmall(n - 1);
      SuffixReducedAbove(plan, m, k);
      SmallFactor(m.p, residual, MARGIN);
      MulStrict(0, m.q, plan.inst.scale);
      QuotientAtMost(m.p * residual + plan.SuffixReduced(m, k), m.q * plan.inst.scale, 5 * MARGIN);
    }
  }

  lemma QuotientAtMost(a: int, d: int, top: int)
    requires 0 < d && a <= top && 0 <= top
    ensures a / d <= top
  {
    if a / d > top {
      MulMono(1, d, a / d);
    }
  }

  lemma SmallFactor(p: int, v: int, top: int)
    requires 0 <= p <= 5 && 0 <= v <= top
    ensures 0 <= p * v <= 5 * top
  {
    MulMono(p, 5, v);
    MulNonNeg(p, v);
  }
}
