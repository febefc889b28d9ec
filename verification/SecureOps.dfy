/** The operations that solvers and predicates are written in, derived from the secure protocols. */
module SecureOps {
  import opened Wrappers
  import NumberTheory
  import opened Paillier
  import opened SecureProtocols

  function BitValue(b: bool): int {
    if b then 1 else 0
  }

  ghost predicate HoldsBit(k: Key, c: Ciphertext, b: bool) {
    k.Holds(c, BitValue(b))
  }

  ghost predicate HoldsBits(k: Key, cs: seq<Ciphertext>, bs: seq<bool>) {
    |cs| == |bs| && forall i :: 0 <= i < |cs| ==> HoldsBit(k, cs[i], bs[i])
  }

  ghost predicate HoldsBitPairs(k: Key, cs: seq<(Ciphertext, Ciphertext)>, bs: seq<(bool, bool)>) {
    |cs| == |bs| &&
    forall i :: 0 <= i < |cs| ==> HoldsBit(k, cs[i].0, bs[i].0) && HoldsBit(k, cs[i].1, bs[i].1)
  }

  method EncryptConstant(k: Key, m: int) returns (c: Ciphertext)
    requires k.Valid()
    ensures k.Holds(c, m)
  {
    c := Encrypt(k, m);
  }

  method Add(k: Key, a: Ciphertext, b: Ciphertext, ghost va: int, ghost vb: int) returns (c: Ciphertext)
    requires k.Valid() && k.Holds(a, va) && k.Holds(b, vb)
    ensures k.Holds(c, va + vb)
  {
    c := k.Add(a, b);
    k.HoldsAdd(a, va, b, vb);
  }

  method ScalarMul(k: Key, a: Ciphertext, scalar: int, ghost va: int) returns (c: Ciphertext)
    requires k.Valid() && k.Holds(a, va)
    ensures k.Holds(c, va * scalar)
  {
    c := CiphertextPower(k, a, scalar, va);
  }

  method Sub(k: Key, a: Ciphertext, b: Ciphertext, ghost va: int, ghost vb: int) returns (c: Ciphertext)
    requires k.Valid() && k.Holds(a, va) && k.Holds(b, vb)
    ensures k.Holds(c, va - vb)
  {
    var minus := ScalarMul(k, b, -1, vb);
    c := Add(k, a, minus, va, -vb);
  }

  method SecureMul(k: Key, a: Ciphertext, b: Ciphertext, ghost va: int, ghost vb: int) returns (c: Ciphertext)
    requires k.Valid() && k.Holds(a, va) && k.Holds(b, vb) && InRange(va) && InRange(vb)
    ensures k.Holds(c, va * vb)
  {
    var products := SecureMultiplyBatch(k, [(a, b)], [(va, vb)]);
    c := products.value[0];
  }

  method GreaterThan(k: Key, a: Ciphertext, b: Ciphertext, ghost va: int, ghost vb: int) returns (c: Ciphertext)
    requires k.Valid() && k.Holds(a, va) && k.Holds(b, vb) && InRange(va) && InRange(vb)
    ensures HoldsBit(k, c, va > vb)
  {
    var bits := GreaterThanBatch(k, [(a, b)], [(va, vb)]);
    c := bits.value[0];
  }

  method BitNot(k: Key, a: Ciphertext, ghost p: bool) returns (c: Ciphertext)
    requires k.Valid() && HoldsBit(k, a, p)
    ensures HoldsBit(k, c, !p)
  {
    var one := EncryptConstant(k, 1);
    c := Sub(k, one, a, 1, BitValue(p));
  }

  method BitAnd(k: Key, a: Ciphertext, b: Ciphertext, ghost p: bool, ghost q: bool) returns (c: Ciphertext)
    requires k.Valid() && HoldsBit(k, a, p) && HoldsBit(k, b, q)
    ensures HoldsBit(k, c, p && q)
  {
    c := SecureMul(k, a, b, BitValue(p), BitValue(q));
  }

  method BitOr(k: Key, a: Ciphertext, b: Ciphertext, ghost p: bool, ghost q: bool) returns (c: Ciphertext)
    requires k.Valid() && HoldsBit(k, a, p) && HoldsBit(k, b, q)
    ensures HoldsBit(k, c, p || q)
  {
    var product := SecureMul(k, a, b, BitValue(p), BitValue(q));
    var sum := Add(k, a, b, BitValue(p), BitValue(q));
    c := Sub(k, sum, product, BitValue(p) + BitValue(q), BitValue(p) * BitValue(q));
  }

  /** Addition as OR: a bit again only because the caller knows the operands to be exclusive. */
  method BitOrExclusive(k: Key, a: Ciphertext, b: Ciphertext, ghost p: bool, ghost q: bool)
    returns (c: Ciphertext)
    requires k.Valid() && HoldsBit(k, a, p) && HoldsBit(k, b, q)
    requires !(p && q)
    ensures HoldsBit(k, c, p || q)
  {
    c := Add(k, a, b, BitValue(p), BitValue(q));
  }

  method BitOrBatch(k: Key, items: seq<(Ciphertext, Ciphertext)>, ghost bs: seq<(bool, bool)>)
    returns (r: Result<seq<Ciphertext>, ProtocolError>)
    requires k.Valid() && HoldsBitPairs(k, items, bs)
    ensures BatchSizeOk(|items|) ==>
      && r.Success? && |r.value| == |items|
      && forall i :: 0 <= i < |items| ==> HoldsBit(k, r.value[i], bs[i].0 || bs[i].1)
    ensures !BatchSizeOk(|items|) ==> r == Failure(InvalidBatchSize)
  {
    ghost var vs := seq(|items|, i requires 0 <= i < |items| => (BitValue(bs[i].0), BitValue(bs[i].1)));
    var products := SecureMultiplyBatch(k, items, vs);
    match products
    case Failure(e) =>
      return Failure(e);
    case Success(ps) =>
    var output: seq<Ciphertext> := [];
    for i := 0 to |items|
      invariant |output| == i
      invariant forall j :: 0 <= j < i ==> HoldsBit(k, output[j], bs[j].0 || bs[j].1)
    {
      var sum := Add(k, items[i].0, items[i].1, vs[i].0, vs[i].1);
      var c := Sub(k, sum, ps[i], vs[i].0 + vs[i].1, vs[i].0 * vs[i].1);
      output := output + [c];
    }
    r := Success(output);
  }

  /** The multiplexer: the difference of the two values must itself be in range. */
  method Select(k: Key, condition: Ciphertext, a: Ciphertext, b: Ciphertext,
      ghost p: bool, ghost va: int, ghost vb: int)
    returns (c: Ciphertext)
    requires k.Valid() && HoldsBit(k, condition, p) && k.Holds(a, va) && k.Holds(b, vb)
    requires InRange(va - vb)
    ensures k.Holds(c, if p then va else vb)
  {
    var delta := Sub(k, a, b, va, vb);
    var scaled := SecureMul(k, condition, delta, BitValue(p), va - vb);
    c := Add(k, b, scaled, vb, BitValue(p) * (va - vb));
  }

  method Min(k: Key, a: Ciphertext, b: Ciphertext, ghost va: int, ghost vb: int) returns (c: Ciphertext)
    requires k.Valid() && k.Holds(a, va) && k.Holds(b, vb)
    requires InRange(va) && InRange(vb) && InRange(va - vb)
    ensures k.Holds(c, NumberTheory.MinOf(va, vb))
  {
    var less := GreaterThan(k, b, a, vb, va);
    c := Select(k, less, a, b, va < vb, va, vb);
  }

  method Max(k: Key, a: Ciphertext, b: Ciphertext, ghost va: int, ghost vb: int) returns (c: Ciphertext)
    requires k.Valid() && k.Holds(a, va) && k.Holds(b, vb)
    requires InRange(va) && InRange(vb) && InRange(va - vb)
    ensures k.Holds(c, NumberTheory.MaxOf(va, vb))
  {
    var greater := GreaterThan(k, a, b, va, vb);
    c := Select(k, greater, a, b, va > vb, va, vb);
  }
}
