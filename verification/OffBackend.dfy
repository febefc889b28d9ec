/**
 The single-process backend of the C interface: comparison, multiplication, absolute value and the
 encrypted shift-subtract division, with the optimizer's ratio check that relies on it.
 Masks are 128-bit and non-zero here, and operands are decrypted one by one instead of packed.
 */
module OffBackend {
  import opened Wrappers
  import opened NumberTheory
  import opened Paillier
  import opened SecureProtocols
  import opened CostModel

  const RATIO_SCALE := 1_000_000
  const RATIO_BITS := 21

  method Random128() returns (r: int)
    ensures 0 < r < TWO_128
  {
    r :| 0 < r < TWO_128;
  }

  // ---------------------------------------------------------------- what a comparison reads

  /** The draws of one comparison. */
  datatype Mask = Mask(scale: int, noise: int, oriented: bool) {

    predicate Ok() {
      1 < scale < TWO_128 && IsSmallNoise(scale, noise)
    }

    /** The bit x < y as the half test reads it, for any operands. */
    predicate Reads(n: int, x: int, y: int)
      requires 0 < n
    {
      (Blinded(x, y, scale, noise, oriented, n) % n <= n / 2) != oriented
    }

    predicate Right(n: int, x: int, y: int)
      requires 0 < n
    {
      Reads(n, x, y) == (x < y)
    }
  }

  /** Every draw reads the comparison right exactly when the modulus leaves it room. */
  lemma RightExactly(n: int, x: int, y: int)
    requires 16 <= n
    ensures Comparable(n, x, y) ==> forall m: Mask :: m.Ok() ==> m.Right(n, x, y)
    ensures Distance(x, y) < n && !Comparable(n, x, y) ==> exists m: Mask :: m.Ok() && !m.Right(n, x, y)
  {
    if Comparable(n, x, y) {
      forall m: Mask | m.Ok()
        ensures m.Right(n, x, y)
      {
        HalfTest(n, x, y, m.scale, m.noise, m.oriented);
      }
    } else if Distance(x, y) < n {
      HalfTestExact(n, x, y);
      var r3, r, oriented :| 0 < r < r3 < TWO_128 && !Judges(n, x, y, r3, r, oriented);
      var m := Mask(r3, r, oriented);
      assert m.Ok() && !m.Right(n, x, y);
    }
  }

  /** soci_plus_less: the bit that the drawn mask reads; for operands with room, the bit x < y. */
  method Less(k: Key, x: Ciphertext, y: Ciphertext, ghost vx: int, ghost vy: int)
    returns (bit: Ciphertext, ghost m: Mask)
    requires k.Valid() && k.Holds(x, vx) && k.Holds(y, vy)
    ensures m.Ok() && k.Holds(bit, if m.Reads(k.n, vx, vy) then 1 else 0)
    ensures Comparable(k.n, vx, vy) ==> m.Right(k.n, vx, vy) && k.Holds(bit, if vx < vy then 1 else 0)
  {
    var r3: int :| 1 < r3 < TWO_128;
    NoiseExists(r3);
    var noise: int :| IsSmallNoise(r3, noise);
    var r4 := k.n / 2 - noise;
    var oriented: bool := *;
    m := Mask(r3, noise, oriented);
    if Comparable(k.n, vx, vy) {
      RightExactly(k.n, vx, vy);
    }
    var mask := Encrypt(k, if oriented then r4 else r3 + r4);
    var d := BlindDifference(k, x, y, r3, mask, oriented, vx, vy, noise);
    ghost var blinded := Blinded(vx, vy, r3, noise, oriented, k.n);
    k.Decrypts(d, blinded);
    hide Comparable, Key.Holds, Blinded;
    var visible := SignedFromHalf(k.Decrypt(d), k.n);
    if visible < 0 {
      visible := visible + k.n;
    }
    assert visible == blinded % k.n;
    bit := Encrypt(k, if visible > k.n / 2 then 0 else 1);
    if oriented {
      ghost var b := if visible > k.n / 2 then 0 else 1;
      var one := Encrypt(k, 1);
      var minus := CiphertextPower(k, bit, -1, b);
      bit := k.Add(one, minus);
      k.HoldsAdd(one, 1, minus, -b);
    }
  }

  /** A power whose exponent n - e stands for -e. */
  method NegativePower(k: Key, c: Ciphertext, e: int, ghost v: int) returns (r: Ciphertext)
    requires k.Valid() && k.Holds(c, v) && 0 <= e <= k.n
    ensures k.Holds(r, v * -e)
  {
    r := k.Power(c, k.n - e);
    k.HoldsPower(c, v, k.n - e);
    CongWitness(v * (k.n - e), v * -e, k.n, v);
    k.HoldsSame(r, v * (k.n - e), v * -e);
  }

  /** The signed reading differs from the value by a multiple of the modulus. */
  lemma ReadingCongruent(v: int, n: int)
    requires 0 < n
    ensures Cong(SignedFromHalf(v % n, n), v, n)
  {
    var m := v % n;
    CongMod(v, n);
    if SignedFromHalf(m, n) == m - n {
      CongWitness(m - n, m, n, -1);
      CongTrans(m - n, m, v, n);
    }
  }

  /** The product of the signed readings of two masked operands, encrypted again. */
  method MaskedProduct(k: Key, x: Ciphertext, y: Ciphertext, ghost vx: int, ghost vy: int) returns (c: Ciphertext)
    requires k.Valid() && k.Holds(x, vx) && k.Holds(y, vy)
    ensures k.Holds(c, vx * vy)
  {
    k.Decrypts(x, vx);
    k.Decrypts(y, vy);
    ReadingCongruent(vx, k.n);
    ReadingCongruent(vy, k.n);
    var readX, readY := SignedFromHalf(k.Decrypt(x), k.n), SignedFromHalf(k.Decrypt(y), k.n);
    CongMul(readX, vx, readY, vy, k.n);
    c := Encrypt(k, readX * readY);
    k.HoldsSame(c, readX * readY, vx * vy);
  }

  /** soci_plus_mul: the product modulo n, whatever the operands. */
  method Multiply(k: Key, x: Ciphertext, y: Ciphertext, ghost vx: int, ghost vy: int) returns (c: Ciphertext)
    requires k.Valid() && k.Holds(x, vx) && k.Holds(y, vy)
    ensures k.Holds(c, vx * vy)
  {
    hide Key.Holds;
    var r1 := Random128();
    var r2 := Random128();
    var e1 := Encrypt(k, r1);
    var e2 := Encrypt(k, r2);
    var maskedX, maskedY := k.Add(x, e1), k.Add(y, e2);
    k.HoldsAdd(x, vx, e1, r1);
    k.HoldsAdd(y, vy, e2, r2);
    c := MaskedProduct(k, maskedX, maskedY, vx + r1, vy + r2);
    ghost var w := (vx + r1) * (vy + r2);
    var first := NegativePower(k, x, r2, vx);
    k.HoldsAdd(c, w, first, vx * -r2);
    c := k.Add(c, first);
    w := w + vx * -r2;
    var second := NegativePower(k, y, r1, vy);
    k.HoldsAdd(c, w, second, vy * -r1);
    c := k.Add(c, second);
    var correction := Encrypt(k, -r1 * r2);
    k.HoldsAdd(c, w + vy * -r1, correction, -r1 * r2);
    c := k.Add(c, correction);
    Unmasking(vx, vy, r1, r2);
  }

  /** soci_plus_abs: 1 - 2 * sign is +1 or -1. */
  method Abs(k: Key, x: Ciphertext, ghost vx: int) returns (c: Ciphertext)
    requires k.Valid() && k.Holds(x, vx) && Comparable(k.n, vx, 0)
    ensures k.Holds(c, if vx < 0 then -vx else vx)
  {
    var zero := Encrypt(k, 0);
    var sign, mask := Less(k, x, zero, vx, 0);
    ghost var s := if vx < 0 then 1 else 0;
    var one := Encrypt(k, 1);
    var minus2 := NegativePower(k, sign, 2, s);
    var factor := k.Add(one, minus2);
    k.HoldsAdd(one, 1, minus2, s * -2);
    c := Multiply(k, factor, x, 1 + s * -2, vx);
  }

  // ---------------------------------------------------------------- the division

  /** One step of the division: subtract the shifted divisor y * p when the mask reads that it fits. */
  method SubtractShifted(k: Key, y: Ciphertext, p: nat, quotient: Ciphertext, dividend: Ciphertext,
      ghost vy: int, ghost q: int, ghost d: int)
    returns (quotient': Ciphertext, dividend': Ciphertext, ghost m: Mask)
    requires k.Valid() && k.Holds(y, vy) && k.Holds(quotient, q) && k.Holds(dividend, d)
    ensures m.Ok()
    ensures k.Holds(quotient', if m.Reads(k.n, d, vy * p) then q else q + p)
    ensures k.Holds(dividend', if m.Reads(k.n, d, vy * p) then d else d - vy * p)
  {
    hide Key.Holds, Comparable;
    ghost var s := vy * p;
    var shifted := k.Power(y, p);
    k.HoldsPower(y, vy, p);
    var less;
    less, m := Less(k, dividend, shifted, d, s);
    ghost var b := if m.Reads(k.n, d, s) then 1 else 0;
    var one := Encrypt(k, 1);
    var minusLess := NegativePower(k, less, 1, b);
    var take := k.Add(one, minusLess);
    k.HoldsAdd(one, 1, minusLess, b * -1);
    var increment := k.Power(take, p);
    k.HoldsPower(take, 1 - b, p);
    quotient' := k.Add(quotient, increment);
    k.HoldsAdd(quotient, q, increment, (1 - b) * p);
    var subtraction := Multiply(k, take, shifted, 1 - b, s);
    var minusSubtraction := NegativePower(k, subtraction, 1, (1 - b) * s);
    dividend' := k.Add(dividend, minusSubtraction);
    k.HoldsAdd(dividend, d, minusSubtraction, (1 - b) * s * -1);
  }

  /** Quotient and remainder as the masks read them, the last mask for the highest step. */
  function Steps(n: int, x: int, y: int, masks: seq<Mask>): (r: (int, int))
    requires 0 < n
    decreases |masks|
  {
    if masks == [] then (0, x) else
      var step := |masks| - 1;
      var p := Pow2(step);
      if masks[step].Reads(n, x, y * p) then Steps(n, x, y, masks[..step])
      else var (q, d) := Steps(n, x - y * p, y, masks[..step]); (q + p, d)
  }

  /** Step i of the division of x compares the remainder of the higher steps with the shifted divisor. */
  predicate RightAt(n: int, x: int, y: int, i: nat, m: Mask)
    requires 0 < n && 0 < y
  {
    m.Right(n, x % (y * Pow2(i + 1)), y * Pow2(i))
  }

  predicate RoomAt(n: int, x: int, y: int, i: nat)
    requires 0 < y
  {
    Comparable(n, x % (y * Pow2(i + 1)), y * Pow2(i))
  }

  /** Every comparison of the division has room. */
  predicate HasRoom(n: int, x: int, y: int, bits: nat)
    requires 0 < y
  {
    forall i: nat :: i < bits ==> RoomAt(n, x, y, i)
  }

  /** Whatever is read, the quotient has at most that many bits and the parts recompose the dividend. */
  lemma {:induction false} StepsRange(n: int, x: int, y: int, masks: seq<Mask>)
    requires 0 < n
    ensures var (q, d) := Steps(n, x, y, masks); 0 <= q < Pow2(|masks|) && x == q * y + d
    decreases |masks|
  {
    if masks != [] {
      var step := |masks| - 1;
      var p := Pow2(step);
      StepsRange(n, x, y, masks[..step]);
      StepsRange(n, x - y * p, y, masks[..step]);
      DivisionStep(y, Steps(n, x - y * p, y, masks[..step]).0, p);
    }
  }

  /** The quotient is right exactly when every single comparison is read right. */
  lemma {:induction false} DivisionExact(n: int, x: int, y: int, masks: seq<Mask>)
    requires 0 < n && 0 < y && 0 <= x < y * Pow2(|masks|)
    ensures Steps(n, x, y, masks).0 == x / y <==> forall i: nat :: i < |masks| ==> RightAt(n, x, y, i, masks[i])
    ensures Steps(n, x, y, masks).0 == x / y ==> Steps(n, x, y, masks).1 == x % y
    ensures Pow2(|masks|) <= n ==>
      (Steps(n, x, y, masks).0 % n == x / y % n <==> Steps(n, x, y, masks).0 == x / y)
    decreases |masks|
  {
    StepsRange(n, x, y, masks);
    QuotientRange(x, y, Pow2(|masks|));
    SameQuotient(n, x, y, Steps(n, x, y, masks).0, Steps(n, x, y, masks).1, Pow2(|masks|));
    if masks == [] {
    } else {
      var step := |masks| - 1;
      var p, lower := Pow2(step), masks[..step];
      Halving(y, p);
      SmallRemainder(x, y * Pow2(step + 1));
      assert RightAt(n, x, y, step, masks[step]) == masks[step].Right(n, x, y * p);
      if masks[step].Right(n, x, y * p) {
        var x' := if x < y * p then x else x - y * p;
        DivisionExact(n, x', y, lower);
        QuotientShift(x', y, p);
        forall i: nat | i < step
          ensures RightAt(n, x, y, i, masks[i]) == RightAt(n, x', y, i, lower[i])
        {
          RemainderShift(x', y, i, step);
        }
      } else if x < y * p {
        StepsRange(n, x - y * p, y, lower);
        QuotientRange(x, y, p);
      } else {
        StepsRange(n, x, y, lower);
        QuotientShift(x - y * p, y, p);
        QuotientRange(x - y * p, y, p);
      }
    }
  }

  lemma SameQuotient(n: int, x: int, y: int, q: int, d: int, p: int)
    requires 0 < n && 0 < y && x == q * y + d && 0 <= q < p && 0 <= x / y < p
    ensures q == x / y ==> d == x % y
    ensures p <= n ==> (q % n == x / y % n <==> q == x / y)
  {
    if p <= n {
      SmallRemainder(q, n);
      SmallRemainder(x / y, n);
    }
  }

  lemma QuotientRange(x: int, y: int, p: int)
    requires 0 < y && 0 <= x < y * p
    ensures 0 <= x / y < p
  {
    assert x == x / y * y + x % y && p * y == y * p;
    if x / y >= p {
      MulMono(p, x / y, y);
    }
    if x / y < 0 {
      MulMono(x / y, -1, y);
    }
  }

  lemma QuotientShift(x: int, y: int, p: int)
    requires 0 < y && 0 <= x
    ensures (x + y * p) / y == x / y + p && (x + y * p) % y == x % y
  {
    DivisionStep(y, x / y, p);
    QuotientIs(x + y * p, y, x / y + p, x % y);
  }

  /** Adding the divisor of a higher step does not change a lower step's remainder. */
  lemma RemainderShift(x: int, y: int, i: nat, step: nat)
    requires 0 < y && i < step
    ensures 0 < y * Pow2(i + 1) && (x + y * Pow2(step)) % (y * Pow2(i + 1)) == x % (y * Pow2(i + 1))
  {
    var m, rest := y * Pow2(i + 1), Pow2(step - i - 1);
    MulGrows(Pow2(i + 1), y);
    Pow2Add(i + 1, step - i - 1);
    assert y * Pow2(step) == m * rest by {
      MulAssociates(y, Pow2(i + 1), rest);
    }
    CongWitness(x + y * Pow2(step), x, m, rest);
    CongIffMod(x + y * Pow2(step), x, m);
  }

  lemma MulAssociates(a: int, b: int, c: int)
    ensures a * (b * c) == a * b * c
  {
  }

  lemma StepBounds(x: int, y: int, i: nat)
    requires 0 < y
    ensures 0 <= x % (y * Pow2(i + 1)) < 2 * (y * Pow2(i)) && 0 < y * Pow2(i)
  {
    Halving(y, Pow2(i));
  }

  /**
   The exact condition on the operands: for divisors whose shifts stay below the modulus, the quotient
   is right under every draw if and only if every comparison has room.
   */
  lemma DivisionNeedsRoom(n: int, x: int, y: int, bits: nat)
    requires 16 <= n && 0 < y && 0 <= x < y * Pow2(bits) && (0 < bits ==> y * Pow2(bits - 1) < n)
    ensures HasRoom(n, x, y, bits) <==>
      forall masks: seq<Mask> :: |masks| == bits && (forall i :: 0 <= i < bits ==> masks[i].Ok()) ==>
        Steps(n, x, y, masks).0 == x / y
  {
    hide Comparable;
    if HasRoom(n, x, y, bits) {
      forall masks: seq<Mask> | |masks| == bits && (forall i :: 0 <= i < bits ==> masks[i].Ok())
        ensures Steps(n, x, y, masks).0 == x / y
      {
        RoomIsRight(n, x, y, masks);
      }
    } else {
      var i: nat :| i < bits && !RoomAt(n, x, y, i);
      var m := WrongAt(n, x, y, bits, i);
      hide Steps, RoomAt, RightAt, Mask.Ok;
      var masks := seq(bits, _ => m);
      assert !RightAt(n, x, y, i, masks[i]);
      DivisionExact(n, x, y, masks);
    }
  }

  lemma WrongAt(n: int, x: int, y: int, bits: nat, i: nat) returns (m: Mask)
    requires 16 <= n && 0 < y && i < bits && y * Pow2(bits - 1) < n && !RoomAt(n, x, y, i)
    ensures m.Ok() && !RightAt(n, x, y, i, m)
  {
    hide Comparable, Mask.Ok, Mask.Right;
    StepBounds(x, y, i);
    Pow2Mono(i, bits - 1);
    MulMono(Pow2(i), Pow2(bits - 1), y);
    RightExactly(n, x % (y * Pow2(i + 1)), y * Pow2(i));
    m :| m.Ok() && !m.Right(n, x % (y * Pow2(i + 1)), y * Pow2(i));
  }

  lemma RoomIsRight(n: int, x: int, y: int, masks: seq<Mask>)
    requires 16 <= n && 0 < y && 0 <= x < y * Pow2(|masks|) && HasRoom(n, x, y, |masks|)
    requires forall i :: 0 <= i < |masks| ==> masks[i].Ok()
    ensures Steps(n, x, y, masks) == (x / y, x % y)
  {
    hide Comparable;
    forall i: nat | i < |masks|
      ensures RightAt(n, x, y, i, masks[i])
    {
      assert RoomAt(n, x, y, i);
      RightExactly(n, x % (y * Pow2(i + 1)), y * Pow2(i));
    }
    DivisionExact(n, x, y, masks);
  }

  /**
   soci_plus_div: the loop carries what its masks read, whatever the operands. For 0 <= x < y * 2^bits
   with room for every comparison, that is the quotient and the remainder.
   */
  method Divide(k: Key, x: Ciphertext, y: Ciphertext, bits: nat, ghost vx: int, ghost vy: int)
    returns (quotient: Ciphertext, dividend: Ciphertext, ghost masks: seq<Mask>)
    requires k.Valid() && k.Holds(x, vx) && k.Holds(y, vy)
    ensures |masks| == bits && forall i :: 0 <= i < bits ==> masks[i].Ok()
    ensures k.Holds(quotient, Steps(k.n, vx, vy, masks).0) && k.Holds(dividend, Steps(k.n, vx, vy, masks).1)
    ensures 0 < vy && 0 <= vx < vy * Pow2(bits) && HasRoom(k.n, vx, vy, bits) ==>
      k.Holds(quotient, vx / vy) && k.Holds(dividend, vx % vy)
  {
    hide Key.Holds, HasRoom, Continues, Mask.Ok, Mask.Reads;
    quotient := Encrypt(k, 0);
    dividend := x;
    ghost var q, d := 0, vx;
    masks := [];
    ContinuesFirst(k.n, vx, vy, bits);
    var step := bits;
    while step > 0
      invariant 0 <= step <= bits && |masks| == bits - step
      invariant forall i :: 0 <= i < |masks| ==> masks[i].Ok()
      invariant k.Holds(quotient, q) && k.Holds(dividend, d)
      invariant Continues(k.n, vx, vy, q, d, step, masks)
    {
      step := step - 1;
      var p := Pow2(step);
      ghost var m;
      quotient, dividend, m := SubtractShifted(k, y, p, quotient, dividend, vy, q, d);
      ContinuesWith(k.n, vx, vy, q, d, step, masks, m);
      if !m.Reads(k.n, d, vy * p) {
        q, d := q + p, d - vy * p;
      }
      masks := [m] + masks;
    }
    ContinuesLast(k.n, vx, vy, q, d, masks);
    if 0 < vy && 0 <= vx < vy * Pow2(bits) && HasRoom(k.n, vx, vy, bits) {
      RoomIsRight(k.n, vx, vy, masks);
    }
  }

  /** The remaining steps, with any masks, finish the division from its present state. */
  ghost predicate Continues(n: int, x: int, y: int, q: int, d: int, step: nat, masks: seq<Mask>)
    requires 0 < n
  {
    forall lower: seq<Mask> :: |lower| == step ==>
      Steps(n, x, y, lower + masks) == (q + Steps(n, d, y, lower).0, Steps(n, d, y, lower).1)
  }

  lemma ContinuesFirst(n: int, x: int, y: int, bits: nat)
    requires 0 < n
    ensures Continues(n, x, y, 0, x, bits, [])
  {
    forall lower: seq<Mask> | |lower| == bits
      ensures lower + [] == lower
    {
    }
  }

  lemma ContinuesLast(n: int, x: int, y: int, q: int, d: int, masks: seq<Mask>)
    requires 0 < n && Continues(n, x, y, q, d, 0, masks)
    ensures Steps(n, x, y, masks) == (q, d)
  {
    assert [] + masks == masks;
    assert Steps(n, d, y, []) == (0, d);
  }

  lemma ContinuesWith(n: int, x: int, y: int, q: int, d: int, step: nat, masks: seq<Mask>, m: Mask)
    requires 0 < n && Continues(n, x, y, q, d, step + 1, masks)
    ensures var s := y * Pow2(step);
      if m.Reads(n, d, s) then Continues(n, x, y, q, d, step, [m] + masks)
      else Continues(n, x, y, q + Pow2(step), d - s, step, [m] + masks)
  {
    hide Steps, Mask.Reads;
    forall lower: seq<Mask> | |lower| == step
      ensures Steps(n, x, y, lower + ([m] + masks)) == Steps(n, x, y, (lower + [m]) + masks)
    {
      assert lower + ([m] + masks) == (lower + [m]) + masks;
    }
    forall lower: seq<Mask> | |lower| == step
      ensures Steps(n, d, y, lower + [m]) == Taken(n, d, y, lower, m)
    {
      OneStep(n, d, y, lower, m);
    }
  }

  /** What the steps make of d when the mask of the highest of them is m. */
  function Taken(n: int, d: int, y: int, lower: seq<Mask>, m: Mask): (int, int)
    requires 0 < n
  {
    var p := Pow2(|lower|);
    if m.Reads(n, d, y * p) then Steps(n, d, y, lower)
    else var (q, r) := Steps(n, d - y * p, y, lower); (q + p, r)
  }

  lemma OneStep(n: int, d: int, y: int, lower: seq<Mask>, m: Mask)
    requires 0 < n
    ensures Steps(n, d, y, lower + [m]) == Taken(n, d, y, lower, m)
  {
    assert (lower + [m])[..|lower|] == lower;
  }

  /** soci_secure_div: a divisor that is read as below 1 is refused, then 21 steps are made. */
  method SecureDivide(k: Key, x: Ciphertext, y: Ciphertext, ghost vx: int, ghost vy: int)
    returns (r: Option<(Ciphertext, Ciphertext)>)
    requires k.Valid() && k.Holds(x, vx) && k.Holds(y, vy)
    ensures Comparable(k.n, vy, 1) ==> (r.Some? <==> 0 < vy)
    ensures r.Some? && 0 < vy && 0 <= vx < vy * Pow2(RATIO_BITS) && HasRoom(k.n, vx, vy, RATIO_BITS) ==>
      k.Holds(r.value.0, vx / vy) && k.Holds(r.value.1, vx % vy)
  {
    hide Key.Holds, Comparable, HasRoom;
    var one := Encrypt(k, 1);
    var below, m := Less(k, y, one, vy, 1);
    ghost var b := if m.Reads(k.n, vy, 1) then 1 else 0;
    k.Decrypts(below, b);
    SmallRemainder(b, k.n);
    if SignedFromHalf(k.Decrypt(below), k.n) != 0 {
      return None;
    }
    var quotient, remainder, masks := Divide(k, x, y, RATIO_BITS, vx, vy);
    r := Some((quotient, remainder));
  }

  lemma Halving(y: int, p: int)
    requires 0 < y && 1 <= p
    ensures y * (2 * p) == 2 * (y * p) && 0 < y * p
  {
    MulGrows(p, y);
  }

  lemma DivisionStep(y: int, q: int, p: int)
    ensures (q + p) * y == q * y + y * p
  {
  }

  lemma QuotientIs(x: int, y: int, q: int, d: int)
    requires 0 < y && x == q * y + d && 0 <= d < y
    ensures x / y == q && x % y == d
  {
    CongWitness(x, d, y, q);
    ModIs(x, d, y);
    assert (x / y - q) * y == x / y * y - q * y == 0;
    SmallMultiple(x / y - q, y);
  }

  /** The scaled ratio of a part of a total always fits the 21 quotient bits of the division. */
  lemma RatioFits(part: int, total: int)
    requires 0 <= part <= total && 0 < total
    ensures part * RATIO_SCALE < total * Pow2(RATIO_BITS)
    ensures Pow2(RATIO_BITS) == 0x20_0000
  {
    assert Pow2(5) == 32;
    assert Pow2(9) == 16 * Pow2(5);
    assert Pow2(13) == 16 * Pow2(9);
    assert Pow2(17) == 16 * Pow2(13);
    assert Pow2(21) == 16 * Pow2(17);
  }

  /** The ratio division never lacks room. */
  lemma RatioHasRoom(n: int, x: int, total: int)
    requires MODULUS_FLOOR <= n && 0 <= x && 0 < total <= 0x800_0000_0000_0000
    ensures HasRoom(n, x, total, RATIO_BITS) && Comparable(n, total, 1)
  {
    hide Pow2, RoomAt;
    forall i: nat | i < RATIO_BITS
      ensures RoomAt(n, x, total, i)
    {
      RatioRoomAt(n, x, total, i);
    }
  }

  lemma RatioRoomAt(n: int, x: int, total: int, i: nat)
    requires MODULUS_FLOOR <= n && 0 <= x && 0 < total <= 0x800_0000_0000_0000 && i < RATIO_BITS
    ensures RoomAt(n, x, total, i)
  {
    RatioFits(0, total);
    Pow2Add(20, 1);
    assert Pow2(20) == 0x10_0000;
    hide Pow2;
    Pow2Mono(i, 20);
    StepBounds(x, total, i);
    MulMono(Pow2(i), 0x10_0000, total);
    var s, d := total * Pow2(i), x % (total * Pow2(i + 1));
    assert Distance(d, s) <= s <= 0x10_0000 * total;
  }

  /**
   The optimizer's final check of the ratio: the quotient that the encrypted division finds may differ
   by one from the fixed-point ratio of the plain sums; a divisor below 1 is refused.
   */
  method RatioCheck(k: Key, encryptedPart: Ciphertext, encryptedTotal: Ciphertext, expectedPart: int, expectedTotal: int,
      ghost part: int, ghost total: int)
    returns (ok: bool)
    requires k.Valid() && k.Holds(encryptedPart, part) && k.Holds(encryptedTotal, total)
    requires 0 <= part <= total <= 0x800_0000_0000_0000 && (0 < total ==> 0 < expectedTotal)
    ensures ok <==> 0 < total && -1 <= part * 1_000_000 / total - 1_000_000 * expectedPart / expectedTotal <= 1
  {
    hide Key.Holds;
    var scaled := k.Power(encryptedPart, RATIO_SCALE);
    k.HoldsPower(encryptedPart, part, RATIO_SCALE);
    assert Comparable(k.n, total, 1);
    if 0 < total {
      RatioFits(part, total);
      RatioHasRoom(k.n, part * RATIO_SCALE, total);
    }
    var division := SecureDivide(k, scaled, encryptedTotal, part * RATIO_SCALE, total);
    if division.None? {
      return false;
    }
    var quotient := division.value.0;
    k.Decrypts(quotient, part * RATIO_SCALE / total);
    RatioBounds(part * RATIO_SCALE, total);
    SignedReadings(part * RATIO_SCALE / total, k.n);
    var ratio := SignedFromHalf(k.Decrypt(quotient), k.n);
    var expected := RATIO_SCALE * expectedPart / expectedTotal;
    ok := -1 <= ratio - expected <= 1;
  }

  lemma RatioBounds(x: int, y: int)
    requires 0 <= x && 0 < y
    ensures 0 <= x / y <= x
  {
    assert x == x / y * y + x % y;
    if x / y > x {
      MulMono(1, y, x / y);
    }
    if x / y < 0 {
      MulMono(x / y, -1, y);
    }
  }

  // ---------------------------------------------------------------- the optimizer's own verification

  /** The encrypted totals of a solution, summed up from its encrypted costs. */
  method EncryptedTotals(k: Key, chosen: seq<Ciphertext>, s: Assignment, ghost inst: Instance)
    returns (total: Ciphertext, c12: Ciphertext, c3: Ciphertext)
    requires k.Valid() && inst.Complete(s) && |chosen| == |s|
    requires forall i :: 0 <= i < |s| ==> k.Holds(chosen[i], inst.Cost(i, s[i]))
    ensures k.Holds(total, inst.Sum(TOTAL, s)) && k.Holds(c12, inst.Sum(C12, s)) && k.Holds(c3, inst.Sum(C3, s))
  {
    hide Key.Holds;
    total := Encrypt(k, 0);
    c12 := Encrypt(k, 0);
    c3 := Encrypt(k, 0);
    for i := 0 to |s|
      invariant k.Holds(total, inst.Sum(TOTAL, s[..i]))
      invariant k.Holds(c12, inst.Sum(C12, s[..i])) && k.Holds(c3, inst.Sum(C3, s[..i]))
    {
      ghost var c := inst.Cost(i, s[i]);
      assert s[..i + 1][..i] == s[..i];
      k.HoldsAdd(total, inst.Sum(TOTAL, s[..i]), chosen[i], c);
      total := k.Add(total, chosen[i]);
      if s[i] < 3 {
        k.HoldsAdd(c12, inst.Sum(C12, s[..i]), chosen[i], c);
        c12 := k.Add(c12, chosen[i]);
      } else {
        k.HoldsAdd(c3, inst.Sum(C3, s[..i]), chosen[i], c);
        c3 := k.Add(c3, chosen[i]);
      }
    }
    assert s[..|s|] == s;
  }

  /** Reading back a value far below half the modulus. */
  method Reveal(k: Key, c: Ciphertext, ghost v: int) returns (m: int)
    requires k.Valid() && k.Holds(c, v) && InRange(v)
    ensures m == v
  {
    k.Decrypts(c, v);
    SignedReadings(v, k.n);
    m := SignedFromHalf(k.Decrypt(c), k.n);
  }

  /** The two sides of the ratio constraint, as products of public factors and sums. */
  lemma RatioSides(inst: Instance, s: Assignment)
    requires 0 <= inst.threshold < inst.scale == RATIO_SCALE && inst.Complete(s)
    requires inst.Sum(TOTAL, s) <= 0x800_0000_0000_0000
    ensures var lhs, rhs := inst.Sum(C12, s) * (inst.scale - inst.threshold), inst.Sum(C3, s) * inst.threshold;
      InRange(lhs) && InRange(rhs) && InRange(lhs - rhs) && lhs - rhs == inst.Sum(inst.Linear(), s)
    ensures 0 <= inst.Sum(C12, s) <= inst.Sum(TOTAL, s)
  {
    hide Instance.Sum;
    inst.SumParts(s);
    inst.LinearParts(s);
    SidesInRange(inst.Sum(C12, s), inst.Sum(C3, s), inst.scale, inst.threshold);
  }

  lemma SidesInRange(a: int, b: int, scale: int, t: int)
    requires 0 <= a && 0 <= b && a + b <= 0x800_0000_0000_0000 && 0 <= t < scale == RATIO_SCALE
    ensures a * (scale - t) - b * t == scale * a - t * (a + b)
    ensures InRange(a * (scale - t)) && InRange(b * t) && InRange(a * (scale - t) - b * t)
  {
    MulNonNeg(b, t);
    MulNonNeg(a, scale - t);
    MulMono(scale - t, scale, a);
    MulMono(t, scale, b);
    assert (scale - t) * a == a * (scale - t) && t * b == b * t;
  }

  /** std::stoll throws above this. */
  const LLONG_MAX := 0x7fff_ffff_ffff_ffff

  /** What the check of an answer finds out about the costs that its ciphertexts carry. */
  ghost predicate Verified(inst: Instance, carried: Instance, s: Assignment, protocol: bool)
    requires inst.Complete(s) && carried.Complete(s)
  {
    var (total, margin) := (carried.Sum(TOTAL, s), carried.Sum(carried.Linear(), s));
    && 0 <= margin && total == inst.Sum(TOTAL, s)
    && (protocol ==>
          0 < total && -1 <= carried.Sum(C12, s) * 1_000_000 / total - 1_000_000 * inst.Sum(C12, s) / total <= 1)
    && (!protocol ==> margin <= LLONG_MAX)
  }

  /** The two sides of the ratio constraint and their difference, under encryption. */
  method Sides(k: Key, c12: Ciphertext, c3: Ciphertext, alpha: int, threshold: int, ghost v12: int, ghost v3: int)
    returns (lhs: Ciphertext, rhs: Ciphertext, evidence: Ciphertext)
    requires k.Valid() && k.Holds(c12, v12) && k.Holds(c3, v3)
    ensures k.Holds(lhs, v12 * alpha) && k.Holds(rhs, v3 * threshold)
    ensures k.Holds(evidence, v12 * alpha - v3 * threshold)
  {
    hide Key.Holds;
    lhs := CiphertextPower(k, c12, alpha, v12);
    rhs := CiphertextPower(k, c3, threshold, v3);
    var minus := CiphertextPower(k, rhs, -1, v3 * threshold);
    evidence := k.Add(lhs, minus);
    k.HoldsAdd(lhs, v12 * alpha, minus, v3 * threshold * -1);
  }

  /**
   The verification at the end of Optimizer::optimize, for ciphertexts that carry any costs of the
   chosen methods: it accepts exactly when these costs meet the ratio constraint, sum to the expected
   total, and have the expected ratio up to one unit. Without the comparison protocol the margin is
   read as a 64-bit integer instead, and the ratio is not checked.
   */
  method VerifyResult(k: Key, chosen: seq<Ciphertext>, inst: Instance, s: Assignment, protocol: bool,
      ghost carried: Instance)
    returns (ok: bool)
    requires k.Valid() && 0 <= inst.threshold < inst.scale == RATIO_SCALE && inst.Complete(s)
    requires carried.scale == inst.scale && carried.threshold == inst.threshold && carried.Complete(s)
    requires |chosen| == |s| && forall i :: 0 <= i < |s| ==> k.Holds(chosen[i], carried.Cost(i, s[i]))
    requires carried.Sum(TOTAL, s) <= 0x800_0000_0000_0000
    ensures ok <==> Verified(inst, carried, s, protocol)
  {
    hide Key.Holds, Key.Valid, Instance.Sum, Comparable;
    assert 0 < k.n by {
      LargeModulus(k);
    }
    var total, c12, c3 := EncryptedTotals(k, chosen, s, carried);
    RatioSides(carried, s);
    ghost var left := carried.Sum(C12, s) * (inst.scale - inst.threshold);
    ghost var right := carried.Sum(C3, s) * inst.threshold;
    var lhs, rhs, evidence := Sides(k, c12, c3, inst.scale - inst.threshold, inst.threshold,
                                    carried.Sum(C12, s), carried.Sum(C3, s));
    assert Comparable(k.n, left, right) by {
      LargeModulus(k);
      RangeComparable(k.n, left, right);
    }
    if protocol {
      var invalid, mask := Less(k, lhs, rhs, left, right);
      var bit := Reveal(k, invalid, if left < right then 1 else 0);
      if bit != 0 {
        return false;
      }
    }
    if !protocol {
      var margin := Reveal(k, evidence, left - right);
      if LLONG_MAX < margin || margin < 0 {
        return false;
      }
    }
    var revealed := Reveal(k, total, carried.Sum(TOTAL, s));
    var expected := inst.Sum(TOTAL, s);
    if revealed != expected {
      return false;
    }
    ok := true;
    if protocol {
      ok := RatioCheck(k, c12, total, inst.Sum(C12, s), expected, carried.Sum(C12, s), carried.Sum(TOTAL, s));
    }
  }

  /** What the check says of a feasible solution on its own ciphertexts: it is accepted when its margin can be read. */
  lemma HonestVerifies(inst: Instance, s: Assignment)
    requires inst.Valid() && inst.Feasible(s)
    ensures 0 <= inst.Sum(inst.Linear(), s) && 0 < inst.Sum(TOTAL, s)
  {
    inst.SumParts(s);
  }
}
