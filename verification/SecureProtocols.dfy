/**
 The two-party protocols over ciphertexts: secure multiplication (mask, pack, split, unmask) and
 secure comparison (mask, orient at random, test the half), in the batch form in which the
 threshold backend runs them.

 Masks, nonces and orientations are drawn by `:|` or `*`: what is proved holds for every draw.
 Ghost parameters name the integers that the operands carry.
 */
module SecureProtocols {
  import opened Wrappers
  import opened NumberTheory
  import opened Paillier

  const TWO_127 := 0x8000_0000_0000_0000_0000_0000_0000_0000
  const TWO_128 := 2 * TWO_127
  const PACKING_BASE := 8 * TWO_127
  const MAX_BATCH := 32

  datatype ProtocolError =
    | InvalidBatchSize
    | InvalidBatchItem
    | DecryptFailed
    | InvalidCiphertext
    | BadPredicate

  /** The operands the secure protocols are sound for. */
  predicate InRange(v: int) {
    -TWO_127 < v < TWO_127
  }

  predicate BatchSizeOk(count: nat) {
    0 < count <= MAX_BATCH
  }

  /** Every ciphertext carries the value listed for it. */
  ghost predicate HoldsAll(k: Key, cs: seq<Ciphertext>, vs: seq<int>) {
    |cs| == |vs| && forall i :: 0 <= i < |cs| ==> k.Holds(cs[i], vs[i])
  }

  ghost predicate HoldsPairs(k: Key, cs: seq<(Ciphertext, Ciphertext)>, vs: seq<(int, int)>) {
    && |cs| == |vs|
    && forall i :: 0 <= i < |cs| ==>
      && k.Holds(cs[i].0, vs[i].0) && k.Holds(cs[i].1, vs[i].1)
      && InRange(vs[i].0) && InRange(vs[i].1)
  }

  // ---------------------------------------------------------------- arithmetic of the exchanges

  /** The packed plaintext never wraps modulo n, and splits back into the masked operands. */
  lemma PackingSplits(n: int, a: int, b: int, r1: int, r2: int)
    requires MODULUS_FLOOR <= n && InRange(a) && InRange(b)
    requires TWO_127 <= r1 < TWO_128 && TWO_127 <= r2 < TWO_128
    ensures var packed := (a + r1) * PACKING_BASE + (b + r2);
      packed % n == packed && packed / PACKING_BASE == a + r1 && packed % PACKING_BASE == b + r2
  {
  }

  lemma Unmasking(a: int, b: int, r1: int, r2: int)
    ensures (a + r1) * (b + r2) + a * -r2 + b * -r1 + -r1 * r2 == a * b
  {
    assert (a + r1) * (b + r2) == a * b + a * r2 + r1 * b + r1 * r2;
  }

  /** What the comparison masks a difference x - y to, for each orientation. */
  function Blinded(x: int, y: int, r3: int, r: int, oriented: bool, n: int): int {
    if oriented then (y - x) * r3 + (n / 2 - r) else (x - y) * r3 + (r3 + (n / 2 - r))
  }

  /** The largest factor by which a mask multiplies: the difference, or one more when it is not negative. */
  function Distance(x: int, y: int): int {
    if x < y then y - x else x - y + 1
  }

  /** The modulus leaves room for the masked difference under every mask. */
  predicate Comparable(n: int, x: int, y: int) {
    Distance(x, y) * (TWO_128 - 1) <= n - n / 2
  }

  /** The operands of the protocols are close enough. */
  lemma RangeComparable(n: int, x: int, y: int)
    requires MODULUS_FLOOR <= n && InRange(x) && InRange(y)
    ensures Comparable(n, x, y)
  {
  }

  /**
   The half test reads off the comparison: in the plain orientation the blinded value stays at or
   below n/2 exactly when x < y, in the other exactly when it is not so. Nothing wraps.
   */
  lemma HalfTest(n: int, x: int, y: int, r3: int, r: int, oriented: bool)
    requires 0 < n && Comparable(n, x, y) && 0 < r < r3 < TWO_128
    ensures var d := Blinded(x, y, r3, r, oriented, n);
      d % n == d && (d <= n / 2 <==> (x < y) != oriented)
  {
    var diff := if oriented then y - x else x - y + 1;
    ScaledDifference(diff, r3, Distance(x, y));
    OneMoreTimes(x - y, r3);
    HalfWindow(n, diff * r3, r3, r);
  }

  lemma HalfWindow(n: int, t: int, r3: int, r: int)
    requires 0 < n && 0 < r < r3 && n / 2 - n <= t - r3 && t <= n - n / 2 && (t <= 0 || r3 <= t)
    ensures (t + n / 2 - r) % n == t + n / 2 - r
    ensures t + n / 2 - r <= n / 2 <==> t <= 0
  {
    ModIs2(t + n / 2 - r, t + n / 2 - r, n);
  }

  /** The half test of the decrypted value gives the right answer under these masks. */
  predicate Judges(n: int, x: int, y: int, r3: int, r: int, oriented: bool)
    requires 0 < n
  {
    Blinded(x, y, r3, r, oriented, n) % n <= n / 2 <==> (x < y) != oriented
  }

  /** The exact condition: for operands less than n apart, every mask judges right only with that room. */
  lemma HalfTestExact(n: int, x: int, y: int)
    requires 16 <= n && Distance(x, y) < n
    ensures Comparable(n, x, y) <==>
      forall r3, r, oriented :: 0 < r < r3 < TWO_128 ==> Judges(n, x, y, r3, r, oriented)
  {
    if Comparable(n, x, y) {
      forall r3, r, oriented | 0 < r < r3 < TWO_128
        ensures Judges(n, x, y, r3, r, oriented)
      {
        HalfTest(n, x, y, r3, r, oriented);
      }
    } else {
      var r3 := WrongMask(n, x, y);
    }
  }

  /** Without the room some scale, with the least noise, wraps the masked difference past the modulus. */
  lemma WrongMask(n: int, x: int, y: int) returns (r3: int)
    requires 16 <= n && Distance(x, y) < n && !Comparable(n, x, y)
    ensures 1 < r3 < TWO_128 && !Judges(n, x, y, r3, 1, x < y)
  {
    var c, h := Distance(x, y), n - n / 2;
    var wraps := 1;
    if c <= h {
      r3 := h / c + 1;
      JustAbove(h, c, TWO_128 - 1);
    } else {
      r3, wraps := SmallScale(n, c);
    }
    OneMoreTimes(x - y, r3);
    var d := Blinded(x, y, r3, 1, x < y, n);
    assert d == c * r3 + n / 2 - 1;
    WrapsTo(d, n, wraps);
  }

  lemma WrapsTo(d: int, n: int, wraps: int)
    requires 0 <= d - wraps * n < n
    ensures d % n == d - wraps * n
  {
    CongWitness(d, d - wraps * n, n, wraps);
    ModIs(d, d - wraps * n, n);
  }

  /** For distances above n / 2 a scale of 2, 3 or 4 wraps to the lower half. */
  lemma SmallScale(n: int, c: int) returns (r3: int, wraps: int)
    requires 16 <= n && n - n / 2 < c < n
    ensures 2 <= r3 <= 4 && 0 <= c * r3 + n / 2 - 1 - wraps * n <= n / 2
  {
    var e := n - c;
    if 2 * e <= n / 2 - 1 {
      r3, wraps := 2, 2;
    } else if 3 * e >= n - 1 {
      r3, wraps := 3, 2;
    } else {
      r3, wraps := 4, 3;
    }
  }

  /** The least multiple of c above h. */
  lemma JustAbove(h: int, c: int, top: int)
    requires 0 < c <= h && h < c * top
    ensures 1 < h / c + 1 <= top && h < c * (h / c + 1) <= h + c
  {
    var q := h / c;
    assert h == q * c + h % c;
    assert c * (q + 1) == q * c + c;
    if q < 1 {
      MulMono(q, 0, c);
    }
    assert c * top == top * c;
    if top <= q {
      MulMono(top, q, c);
    }
  }

  lemma OneMoreTimes(d: int, r3: int)
    ensures d * r3 + r3 == (d + 1) * r3
  {
  }

  lemma ScaledDifference(diff: int, r3: int, top: int)
    requires 1 - top <= diff <= top && 0 < r3 < TWO_128 && 0 < top
    ensures -(top * (TWO_128 - 1)) <= diff * r3 - r3 && diff * r3 <= top * (TWO_128 - 1)
    ensures if diff <= 0 then diff * r3 <= 0 else r3 <= diff * r3
  {
    MulMono(-top, diff - 1, r3);
    MulMono(diff, top, r3);
    MulMono(r3, TWO_128 - 1, top);
    assert -top * r3 == -(top * r3) && (diff - 1) * r3 == diff * r3 - r3;
    assert r3 * top == top * r3;
    if diff <= 0 {
      MulMono(diff, 0, r3);
    } else {
      MulMono(1, diff, r3);
    }
  }

  // ---------------------------------------------------------------- which noise can be drawn

  /** The noise of the threshold protocol: a mask below the scale. */
  predicate IsNoise(r3: int, r: int) {
    TWO_127 <= r < TWO_128 && r < r3
  }

  /** The noise of the single-party comparison: non-zero and below the scale. */
  predicate IsSmallNoise(r3: int, r: int) {
    0 < r < TWO_128 && r < r3
  }

  /** The loops that draw noise can end exactly for scales above the least mask. */
  lemma NoiseExists(r3: int)
    requires r3 < TWO_128
    ensures TWO_127 < r3 <==> exists r :: IsNoise(r3, r)
    ensures 1 < r3 <==> exists r :: IsSmallNoise(r3, r)
  {
    if TWO_127 < r3 {
      assert IsNoise(r3, TWO_127);
    }
    if 1 < r3 {
      assert IsSmallNoise(r3, 1);
    }
  }

  // ---------------------------------------------------------------- drawing and encrypting

  method RandomMask() returns (r: int)
    ensures TWO_127 <= r < TWO_128
  {
    r :| TWO_127 <= r < TWO_128;
  }

  /** The two masks of a comparison: r is drawn again until it is below r3, which a scale of 2^127 never allows. */
  method ComparisonMasks() returns (r3: int, r: int)
    ensures TWO_127 < r3 < TWO_128 && IsNoise(r3, r)
  {
    r3 :| TWO_127 < r3 < TWO_128;
    NoiseExists(r3);
    r :| IsNoise(r3, r);
  }

  method Encrypt(k: Key, m: int) returns (c: Ciphertext)
    requires k.Valid()
    ensures k.Holds(c, m)
  {
    assert Coprime(1, k.n);
    var nonce: int :| 0 < nonce < k.n && Coprime(nonce, k.n);
    c := k.Encrypt(m, nonce);
    k.HoldsEncrypt(m, nonce);
  }

  method EncryptBatch(k: Key, plaintexts: seq<int>) returns (cs: seq<Ciphertext>)
    requires k.Valid()
    ensures HoldsAll(k, cs, plaintexts)
  {
    cs := [];
    for i := 0 to |plaintexts|
      invariant HoldsAll(k, cs, plaintexts[..i])
    {
      var c := Encrypt(k, plaintexts[i]);
      cs := cs + [c];
    }
  }

  /** A power with a signed exponent: negative exponents invert the base first. */
  method CiphertextPower(k: Key, c: Ciphertext, exponent: int, ghost v: int) returns (r: Ciphertext)
    requires k.Valid() && k.Holds(c, v)
    ensures k.Holds(r, v * exponent)
  {
    var base, power := c, exponent;
    ghost var w := v;
    if power < 0 {
      k.InverseExists(c, v);
      var inverse: int :| k.IsInverse(c, inverse);
      k.HoldsInverse(c, v, inverse);
      base, power, w := inverse, -power, -v;
    }
    r := k.Power(base, power);
    k.HoldsPower(base, w, power);
    assert w * power == v * exponent by {
      if exponent < 0 {
        assert -v * -exponent == v * exponent;
      }
    }
  }

  // ---------------------------------------------------------------- the CSP's side

  /** The batch enclave call: all items are decrypted, or the call fails. */
  method ThresholdDecryptBatch(k: Key, cs: seq<Ciphertext>, shares: seq<int>) returns (r: Result<seq<int>, ProtocolError>)
    requires 0 < k.n && |shares| == |cs|
    ensures r.Success? <==>
      BatchSizeOk(|cs|) && forall i :: 0 <= i < |cs| ==> k.ThresholdDecrypt(cs[i], shares[i]).Some?
    ensures r.Success? ==>
      |r.value| == |cs| && forall i :: 0 <= i < |cs| ==> k.ThresholdDecrypt(cs[i], shares[i]) == Some(r.value[i])
    ensures r.Failure? ==> r.error == if BatchSizeOk(|cs|) then DecryptFailed else InvalidBatchSize
  {
    if !BatchSizeOk(|cs|) {
      return Failure(InvalidBatchSize);
    }
    var plain := [];
    for i := 0 to |cs|
      invariant |plain| == i
      invariant forall j :: 0 <= j < i ==> k.ThresholdDecrypt(cs[j], shares[j]) == Some(plain[j])
    {
      var m := k.ThresholdDecrypt(cs[i], shares[i]);
      if m.None? {
        return Failure(DecryptFailed);
      }
      plain := plain + [m.value];
    }
    r := Success(plain);
  }

  /** Ciphertexts that carry values, with the client's honest shares, pass every check. */
  lemma HonestItems(k: Key, cs: seq<Ciphertext>, shares: seq<int>, vs: seq<int>)
    requires k.Valid() && HoldsAll(k, cs, vs) && |shares| == |cs|
    requires forall i :: 0 <= i < |cs| ==> shares[i] == k.PartialDecrypt(k.lambda1, cs[i])
    ensures forall i :: 0 <= i < |cs| ==> 0 < cs[i] < k.Nsq()
    ensures forall i :: 0 <= i < |cs| ==> k.ThresholdDecrypt(cs[i], shares[i]) == Some(vs[i] % k.n)
  {
    forall i | 0 <= i < |cs|
      ensures 0 < cs[i] < k.Nsq() && k.ThresholdDecrypt(cs[i], shares[i]) == Some(vs[i] % k.n)
    {
      k.HoldsUnit(cs[i], vs[i]);
      k.ThresholdDecrypts(cs[i], vs[i]);
    }
  }

  /** The CP's partial decryptions of a batch. */
  method PartialDecryptBatch(k: Key, cs: seq<Ciphertext>) returns (shares: seq<int>)
    requires k.Valid()
    ensures |shares| == |cs|
    ensures forall i :: 0 <= i < |cs| ==> shares[i] == k.PartialDecrypt(k.lambda1, cs[i])
  {
    shares := [];
    for i := 0 to |cs|
      invariant |shares| == i
      invariant forall j :: 0 <= j < i ==> shares[j] == k.PartialDecrypt(k.lambda1, cs[j])
    {
      shares := shares + [k.PartialDecrypt(k.lambda1, cs[i])];
    }
  }

  /** Every ciphertext of a request is a residue modulo n^2. */
  predicate ItemsOk(k: Key, cs: seq<Ciphertext>) {
    forall i :: 0 <= i < |cs| ==> 0 < cs[i] < k.Nsq()
  }

  predicate BasesOk(bases: seq<int>) {
    forall i :: 0 <= i < |bases| ==> 1 < bases[i]
  }

  /** How a batch request fails, if it does. */
  function BatchFailure(k: Key, cs: seq<Ciphertext>, shares: seq<int>, legal: bool): Option<ProtocolError>
    requires 0 < k.n && |shares| == |cs|
  {
    if !BatchSizeOk(|cs|) then Some(InvalidBatchSize)
    else if !legal || !ItemsOk(k, cs) then Some(InvalidBatchItem)
    else if exists i :: 0 <= i < |cs| && k.ThresholdDecrypt(cs[i], shares[i]).None? then Some(DecryptFailed)
    else None
  }

  /** The checks of a batch request, and the decryption of its items. */
  method DecryptRequest(k: Key, cs: seq<Ciphertext>, shares: seq<int>, legal: bool)
    returns (r: Result<seq<int>, ProtocolError>)
    requires 0 < k.n && |shares| == |cs|
    ensures match BatchFailure(k, cs, shares, legal)
      case Some(e) => r == Failure(e)
      case None =>
        && r.Success? && |r.value| == |cs|
        && forall i :: 0 <= i < |cs| ==> k.ThresholdDecrypt(cs[i], shares[i]) == Some(r.value[i])
  {
    if !BatchSizeOk(|cs|) {
      return Failure(InvalidBatchSize);
    }
    for i := 0 to |cs|
      invariant legal || i == 0
      invariant forall j :: 0 <= j < i ==> 0 < cs[j] < k.Nsq()
    {
      if cs[i] <= 0 || k.Nsq() <= cs[i] || !legal {
        return Failure(InvalidBatchItem);
      }
    }
    r := ThresholdDecryptBatch(k, cs, shares);
  }

  /** The CSP multiplies the two halves of every packed plaintext, or rejects the whole request. */
  method CspMultiplyBatch(k: Key, packed: seq<Ciphertext>, shares: seq<int>, bases: seq<int>)
    returns (r: Result<seq<Ciphertext>, ProtocolError>)
    requires k.Valid() && |shares| == |bases| == |packed|
    ensures match BatchFailure(k, packed, shares, BasesOk(bases))
      case Some(e) => r == Failure(e)
      case None =>
        && r.Success? && |r.value| == |packed|
        && forall i :: 0 <= i < |packed| ==>
             var m := k.ThresholdDecrypt(packed[i], shares[i]).value;
             1 < bases[i] && k.Holds(r.value[i], m / bases[i] * (m % bases[i]))
  {
    hide Key.Holds, Key.ThresholdDecrypt;
    var plainResult := DecryptRequest(k, packed, shares, BasesOk(bases));
    match plainResult
    case Failure(e) =>
      return Failure(e);
    case Success(plain) =>
    var products := [];
    for i := 0 to |packed|
      invariant |products| == i
      invariant forall j :: 0 <= j < i ==> products[j] == plain[j] / bases[j] * (plain[j] % bases[j])
    {
      products := products + [plain[i] / bases[i] * (plain[i] % bases[i])];
    }
    var results := EncryptBatch(k, products);
    r := Success(results);
  }

  /** The CSP's half test on every blinded difference, or the rejection of the whole request. */
  method CspCompareBatch(k: Key, blinded: seq<Ciphertext>, shares: seq<int>)
    returns (r: Result<seq<Ciphertext>, ProtocolError>)
    requires k.Valid() && |shares| == |blinded|
    ensures match BatchFailure(k, blinded, shares, true)
      case Some(e) => r == Failure(e)
      case None =>
        && r.Success? && |r.value| == |blinded|
        && forall i :: 0 <= i < |blinded| ==>
             var m := k.ThresholdDecrypt(blinded[i], shares[i]).value; k.Holds(r.value[i], if m > k.n / 2 then 0 else 1)
  {
    hide Key.Holds, Key.ThresholdDecrypt;
    var plainResult := DecryptRequest(k, blinded, shares, true);
    match plainResult
    case Failure(e) =>
      return Failure(e);
    case Success(plain) =>
    var bits := [];
    for i := 0 to |blinded|
      invariant |bits| == i
      invariant forall j :: 0 <= j < i ==> bits[j] == if plain[j] > k.n / 2 then 0 else 1
    {
      bits := bits + [if plain[i] > k.n / 2 then 0 else 1];
    }
    var results := EncryptBatch(k, bits);
    r := Success(results);
  }

  // ---------------------------------------------------------------- the client's side

  /** The client's masking and packing of one pair of operands. */
  method MaskAndPack(k: Key, a: Ciphertext, b: Ciphertext, mask1: Ciphertext, mask2: Ciphertext,
      ghost va: int, ghost vb: int, ghost r1: int, ghost r2: int)
    returns (packed: Ciphertext)
    requires k.Valid() && k.Holds(a, va) && k.Holds(b, vb) && k.Holds(mask1, r1) && k.Holds(mask2, r2)
    ensures k.Holds(packed, (va + r1) * PACKING_BASE + (vb + r2))
  {
    var ma, mb := k.Add(a, mask1), k.Add(b, mask2);
    k.HoldsAdd(a, va, mask1, r1);
    k.HoldsAdd(b, vb, mask2, r2);
    var shifted := CiphertextPower(k, ma, PACKING_BASE, va + r1);
    packed := k.Add(shifted, mb);
    k.HoldsAdd(shifted, (va + r1) * PACKING_BASE, mb, vb + r2);
  }

  /** The client's removal of the masks from one returned product. */
  method Unmask(k: Key, a: Ciphertext, b: Ciphertext, product: Ciphertext, correction: Ciphertext,
      r1: int, r2: int, ghost va: int, ghost vb: int)
    returns (c: Ciphertext)
    requires k.Valid() && k.Holds(a, va) && k.Holds(b, vb)
    requires k.Holds(product, (va + r1) * (vb + r2)) && k.Holds(correction, -r1 * r2)
    ensures k.Holds(c, va * vb)
  {
    var first := CiphertextPower(k, a, -r2, va);
    c := k.Add(product, first);
    k.HoldsAdd(product, (va + r1) * (vb + r2), first, va * -r2);
    ghost var w := (va + r1) * (vb + r2) + va * -r2;
    var second := CiphertextPower(k, b, -r1, vb);
    k.HoldsAdd(c, w, second, vb * -r1);
    c := k.Add(c, second);
    k.HoldsAdd(c, w + vb * -r1, correction, -r1 * r2);
    c := k.Add(c, correction);
    Unmasking(va, vb, r1, r2);
  }

  /** Secure multiplication of a batch: for all masks, the results carry the products. */
  method SecureMultiplyBatch(k: Key, items: seq<(Ciphertext, Ciphertext)>, ghost vs: seq<(int, int)>)
    returns (r: Result<seq<Ciphertext>, ProtocolError>)
    requires k.Valid() && HoldsPairs(k, items, vs)
    ensures BatchSizeOk(|items|) ==>
      && r.Success? && |r.value| == |items|
      && forall i :: 0 <= i < |items| ==> k.Holds(r.value[i], vs[i].0 * vs[i].1)
    ensures !BatchSizeOk(|items|) ==> r == Failure(InvalidBatchSize)
  {
    hide Key.Holds, Key.Valid, Key.ThresholdDecrypt;
    if !BatchSizeOk(|items|) {
      return Failure(InvalidBatchSize);
    }
    var r1, r2, encryptedMasks := DrawMasks(k, |items|);
    var packed: seq<Ciphertext> := [];
    ghost var plain: seq<int> := seq(|items|, i requires 0 <= i < |items| =>
      (vs[i].0 + r1[i]) * PACKING_BASE + (vs[i].1 + r2[i]));
    for i := 0 to |items|
      invariant HoldsAll(k, packed, plain[..i])
    {
      var p := MaskAndPack(k, items[i].0, items[i].1, encryptedMasks[2 * i], encryptedMasks[2 * i + 1],
                           vs[i].0, vs[i].1, r1[i], r2[i]);
      packed := packed + [p];
    }
    assert plain[..|items|] == plain;
    var shares := PartialDecryptBatch(k, packed);
    HonestItems(k, packed, shares, plain);
    var productsResult := CspMultiplyBatch(k, packed, shares, seq(|items|, _ => PACKING_BASE));
    match productsResult
    case Failure(e) =>
      return Failure(e);
    case Success(products) =>
    var corrections := [];
    for i := 0 to |items|
      invariant |corrections| == i && forall j :: 0 <= j < i ==> corrections[j] == -r1[j] * r2[j]
    {
      corrections := corrections + [-r1[i] * r2[i]];
    }
    var encryptedCorrections := EncryptBatch(k, corrections);
    var output: seq<Ciphertext> := [];
    for i := 0 to |items|
      invariant |output| == i && forall j :: 0 <= j < i ==> k.Holds(output[j], vs[j].0 * vs[j].1)
    {
      LargeModulus(k);
      PackingSplits(k.n, vs[i].0, vs[i].1, r1[i], r2[i]);
      var c := Unmask(k, items[i].0, items[i].1, products[i], encryptedCorrections[i], r1[i], r2[i],
                      vs[i].0, vs[i].1);
      output := output + [c];
    }
    r := Success(output);
  }

  lemma LargeModulus(k: Key)
    requires k.Valid()
    ensures MODULUS_FLOOR <= k.n
  {
  }

  /** Two masks for every item, encrypted in one batch. */
  method DrawMasks(k: Key, count: nat) returns (r1: seq<int>, r2: seq<int>, encrypted: seq<Ciphertext>)
    requires k.Valid()
    ensures |r1| == |r2| == count && |encrypted| == 2 * count
    ensures forall j :: 0 <= j < count ==>
      && TWO_127 <= r1[j] < TWO_128 && TWO_127 <= r2[j] < TWO_128
      && k.Holds(encrypted[2 * j], r1[j]) && k.Holds(encrypted[2 * j + 1], r2[j])
  {
    hide Key.Holds, Key.Valid;
    var masks := [];
    r1, r2 := [], [];
    for i := 0 to count
      invariant |r1| == |r2| == i && |masks| == 2 * i
      invariant forall j :: 0 <= j < i ==> TWO_127 <= r1[j] < TWO_128 && TWO_127 <= r2[j] < TWO_128
      invariant forall j :: 0 <= j < i ==> masks[2 * j] == r1[j] && masks[2 * j + 1] == r2[j]
    {
      var m1 := RandomMask();
      var m2 := RandomMask();
      r1, r2, masks := r1 + [m1], r2 + [m2], masks + [m1, m2];
    }
    encrypted := EncryptBatch(k, masks);
    forall j | 0 <= j < count
      ensures k.Holds(encrypted[2 * j], r1[j]) && k.Holds(encrypted[2 * j + 1], r2[j])
    {
      assert k.Holds(encrypted[2 * j], masks[2 * j]);
      assert k.Holds(encrypted[2 * j + 1], masks[2 * j + 1]);
    }
  }

  /** The difference of one comparison x < y, in the direction of its orientation. */
  method OrientedDifference(k: Key, x: Ciphertext, y: Ciphertext, oriented: bool, ghost vx: int, ghost vy: int)
    returns (d: Ciphertext)
    requires k.Valid() && k.Holds(x, vx) && k.Holds(y, vy)
    ensures k.Holds(d, if oriented then vy - vx else vx - vy)
  {
    hide Key.Holds;
    if !oriented {
      var minus := CiphertextPower(k, y, k.n - 1, vy);
      CongWitness(vy * (k.n - 1), -vy, k.n, vy);
      k.HoldsSame(minus, vy * (k.n - 1), -vy);
      d := k.Add(x, minus);
      k.HoldsAdd(x, vx, minus, -vy);
    } else {
      var minus := CiphertextPower(k, x, -1, vx);
      d := k.Add(y, minus);
      k.HoldsAdd(y, vy, minus, -vx);
    }
  }

  /** The difference, scaled and masked. */
  method BlindDifference(k: Key, x: Ciphertext, y: Ciphertext, r3: int, mask: Ciphertext, oriented: bool,
      ghost vx: int, ghost vy: int, ghost r: int)
    returns (d: Ciphertext)
    requires k.Valid() && k.Holds(x, vx) && k.Holds(y, vy)
    requires k.Holds(mask, if oriented then k.n / 2 - r else r3 + (k.n / 2 - r))
    ensures k.Holds(d, Blinded(vx, vy, r3, r, oriented, k.n))
  {
    hide Key.Holds;
    d := OrientedDifference(k, x, y, oriented, vx, vy);
    ghost var diff := if oriented then vy - vx else vx - vy;
    var scaled := CiphertextPower(k, d, r3, diff);
    d := k.Add(scaled, mask);
    k.HoldsAdd(scaled, diff * r3, mask, if oriented then k.n / 2 - r else r3 + (k.n / 2 - r));
  }

  /**
   The blinding common to a batch of comparisons and to a fused predicate: for items (a, b) it
   prepares the half test of b < a, checking every ciphertext before it leaves the client.
   */
  method BlindBatch(k: Key, items: seq<(Ciphertext, Ciphertext)>, ghost vs: seq<(int, int)>)
    returns (r: Result<seq<Ciphertext>, ProtocolError>, orientations: seq<bool>, ghost blinded: seq<int>)
    requires k.Valid() && HoldsPairs(k, items, vs)
    ensures r.Success? && HoldsAll(k, r.value, blinded)
    ensures |orientations| == |blinded| == |items|
    ensures forall i :: 0 <= i < |items| ==>
      (blinded[i] % k.n <= k.n / 2 <==> (vs[i].0 > vs[i].1) != orientations[i])
  {
    var r3s, rs, masks := [], [], [];
    orientations := [];
    for i := 0 to |items|
      invariant |r3s| == |rs| == |masks| == |orientations| == i
      invariant forall j :: 0 <= j < i ==> TWO_127 <= rs[j] < r3s[j] < TWO_128
      invariant forall j :: 0 <= j < i ==>
        masks[j] == if orientations[j] then k.n / 2 - rs[j] else r3s[j] + (k.n / 2 - rs[j])
    {
      var r3, rr := ComparisonMasks();
      var o: bool := *;
      orientations, r3s, rs := orientations + [o], r3s + [r3], rs + [rr];
      masks := masks + [if o then k.n / 2 - rr else r3 + (k.n / 2 - rr)];
    }
    var encryptedMasks := EncryptBatch(k, masks);
    blinded := seq(|items|, i requires 0 <= i < |items| =>
      Blinded(vs[i].1, vs[i].0, r3s[i], rs[i], orientations[i], k.n));
    var differences: seq<Ciphertext> := [];
    for i := 0 to |items|
      invariant HoldsAll(k, differences, blinded[..i])
      invariant forall j :: 0 <= j < i ==>
        (blinded[j] % k.n <= k.n / 2 <==> (vs[j].0 > vs[j].1) != orientations[j])
    {
      var d := BlindDifference(k, items[i].1, items[i].0, r3s[i], encryptedMasks[i], orientations[i],
                               vs[i].1, vs[i].0, rs[i]);
      RangeComparable(k.n, vs[i].1, vs[i].0);
      HalfTest(k.n, vs[i].1, vs[i].0, r3s[i], rs[i], orientations[i]);
      k.HoldsUnit(d, blinded[i]);
      if d <= 0 || k.Nsq() <= d || !Coprime(d, k.n) {
        r := Failure(InvalidCiphertext);
        return;
      }
      differences := differences + [d];
    }
    r := Success(differences);
  }

  /** Secure comparison of a batch: for all masks and orientations, the results carry a > b as a bit. */
  method GreaterThanBatch(k: Key, items: seq<(Ciphertext, Ciphertext)>, ghost vs: seq<(int, int)>)
    returns (r: Result<seq<Ciphertext>, ProtocolError>)
    requires k.Valid() && HoldsPairs(k, items, vs)
    ensures BatchSizeOk(|items|) ==>
      && r.Success? && |r.value| == |items|
      && forall i :: 0 <= i < |items| ==> k.Holds(r.value[i], if vs[i].0 > vs[i].1 then 1 else 0)
    ensures !BatchSizeOk(|items|) ==> r == Failure(InvalidBatchSize)
  {
    if !BatchSizeOk(|items|) {
      return Failure(InvalidBatchSize);
    }
    var attempt, orientations, blinded := BlindBatch(k, items, vs);
    match attempt
    case Failure(e) =>
      return Failure(e);
    case Success(differences) =>
    var shares := PartialDecryptBatch(k, differences);
    HonestItems(k, differences, shares, blinded);
    var bitsResult := CspCompareBatch(k, differences, shares);
    match bitsResult
    case Failure(e) =>
      return Failure(e);
    case Success(bits) =>
    var output: seq<Ciphertext> := [];
    for i := 0 to |items|
      invariant |output| == i
      invariant forall j :: 0 <= j < i ==> k.Holds(output[j], if vs[j].0 > vs[j].1 then 1 else 0)
    {
      var bit := bits[i];
      if orientations[i] {
        ghost var b := if blinded[i] % k.n > k.n / 2 then 0 else 1;
        var one := Encrypt(k, 1);
        var minus := CiphertextPower(k, bit, -1, b);
        bit := k.Add(one, minus);
        k.HoldsAdd(one, 1, minus, -b);
      }
      output := output + [bit];
    }
    r := Success(output);
  }
}
