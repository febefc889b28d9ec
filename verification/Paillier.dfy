/**
 The Paillier scheme with its decryption exponent split between two parties, as the key
 generator, the client and the two enclaves use it.

 `Key.Holds(c, v)` says that the ciphertext c carries the integer v. It is stated through the
 secret exponent, so that every homomorphic step is a step of congruences modulo n^2;
 HoldsIffDecrypts says that it means what a reader expects.
 */
module Paillier {
  import opened Wrappers
  import opened NumberTheory

  // Every modulus the key generators accept (3072 bits and more) is far above this floor,
  // which is all the protocols need.
  const MODULUS_FLOOR := 0x1_0000_0000_0000_0000_0000_0000_0000_0000_0000_0000_0000_0000_0000_0000_0000_0000_00

  type Ciphertext = int

  /** gcd(a, b) == 1, by trial of the divisors of a. */
  predicate Coprime(a: int, b: int) {
    forall d :: 2 <= d <= a && a % d == 0 ==> b % d != 0
  }

  datatype Key = Key(n: int, lambda1: nat, lambda2: nat, mu: int) {

    function Nsq(): int {
      n * n
    }

    function Lambda(): nat {
      lambda1 + lambda2
    }

    /** The facts about a generated key that number theory would supply. */
    ghost predicate Valid() {
      && MODULUS_FLOOR <= n
      && 0 < lambda1 && 0 < lambda2
      && (Lambda() * mu) % n == 1
      && forall r :: 0 < r < n && Coprime(r, n) ==> Pow(Pow(r, n), Lambda()) % Nsq() == 1
    }

    function Encrypt(m: int, nonce: int): Ciphertext
      requires 0 < n
    {
      (1 + m % n * n) * (Pow(nonce, n) % Nsq()) % Nsq()
    }

    /** The quotient (u - 1) / n that both decryptions take. */
    function Log(u: int): int
      requires 0 < n
    {
      (u - 1) / n
    }

    function Decrypt(c: Ciphertext): int
      requires 0 < n
    {
      Log(Pow(c, Lambda()) % Nsq()) * mu % n
    }

    function PartialDecrypt(share: nat, c: Ciphertext): int
      requires 0 < n
    {
      Pow(c, share) % Nsq()
    }

    /** The combining enclave: multiply the shares, check divisibility, divide, unblind. */
    function Combine(u1: int, u2: int): Option<int>
      requires 0 < n
    {
      var u := u1 * u2 % Nsq() - 1;
      if u % n == 0 then Some(u / n * mu % n) else None
    }

    /** One item of the batch enclave call: both inputs are range-checked first. */
    function ThresholdDecrypt(c: Ciphertext, u1: int): Option<int>
      requires 0 < n
    {
      if 0 < c < Nsq() && 0 < u1 < Nsq() then Combine(u1, PartialDecrypt(lambda2, c)) else None
    }

    /**
     Exactly which items decrypt, and to what: both inputs strictly between 0 and n^2, and the product of
     the client's share and the server's power 1 modulo n.
     */
    lemma DecryptsExactly(c: Ciphertext, u1: int)
      requires 0 < n
      ensures var u := u1 * (Pow(c, lambda2) % (n * n)) % (n * n) - 1;
        ThresholdDecrypt(c, u1) ==
          if 0 < c < n * n && 0 < u1 < n * n && u % n == 0 then Some(u / n * mu % n) else None
    {
      hide Pow;
    }

    function Add(a: Ciphertext, b: Ciphertext): Ciphertext
      requires 0 < n
    {
      a * b % Nsq()
    }

    function Power(c: Ciphertext, e: nat): Ciphertext
      requires 0 < n
    {
      Pow(c, e) % Nsq()
    }

    predicate IsInverse(c: Ciphertext, inverse: Ciphertext)
      requires 0 < n
    {
      0 <= inverse < Nsq() && c * inverse % Nsq() == 1
    }

    /** Ciphertext c carries the integer v (modulo n). */
    ghost predicate Holds(c: Ciphertext, v: int) {
      0 <= c < Nsq() && Cong(Pow(c, Lambda()), 1 + v * Lambda() * n, Nsq())
    }

    lemma ModulusSquare()
      requires Valid()
      ensures 1 < n < Nsq()
    {
      MulStrict(1, n, n);
    }

    lemma HoldsSame(c: Ciphertext, v: int, w: int)
      requires Valid() && Holds(c, v) && Cong(v, w, n)
      ensures Holds(c, w)
    {
      CongScale(v, w, Lambda(), n);
      OnePlusCong(v * Lambda(), w * Lambda(), n);
      CongTrans(Pow(c, Lambda()), 1 + v * Lambda() * n, 1 + w * Lambda() * n, Nsq());
    }

    /** A residue modulo n^2 carries v when something in its class does. */
    lemma HoldsResidue(x: int, v: int)
      requires Valid() && Cong(Pow(x, Lambda()), 1 + v * Lambda() * n, Nsq())
      ensures Holds(x % Nsq(), v)
    {
      ModulusSquare();
      CongMod(x, Nsq());
      CongPow(x % Nsq(), x, Lambda(), Nsq());
      CongTrans(Pow(x % Nsq(), Lambda()), Pow(x, Lambda()), 1 + v * Lambda() * n, Nsq());
    }

    /** Multiplying ciphertexts adds what they carry. */
    lemma HoldsAdd(a: Ciphertext, v: int, b: Ciphertext, w: int)
      requires Valid() && Holds(a, v) && Holds(b, w)
      ensures Holds(Add(a, b), v + w)
    {
      var l := Lambda();
      PowMulBase(a, b, l);
      CongMul(Pow(a, l), 1 + v * l * n, Pow(b, l), 1 + w * l * n, Nsq());
      OnePlusMul(v * l, w * l, n);
      assert v * l + w * l == (v + w) * l;
      CongTrans(Pow(a * b, l), (1 + v * l * n) * (1 + w * l * n), 1 + (v + w) * l * n, Nsq());
      HoldsResidue(a * b, v + w);
    }

    /** Raising a ciphertext to a power scales what it carries. */
    lemma HoldsPower(c: Ciphertext, v: int, e: nat)
      requires Valid() && Holds(c, v)
      ensures Holds(Power(c, e), v * e)
    {
      var l := Lambda();
      PowPow(c, e, l);
      PowPow(c, l, e);
      assert e * l == l * e;
      CongPow(Pow(c, l), 1 + v * l * n, e, Nsq());
      OnePlusPow(v * l, n, e);
      assert e * (v * l) == v * e * l;
      CongTrans(Pow(Pow(c, e), l), Pow(1 + v * l * n, e), 1 + v * e * l * n, Nsq());
      HoldsResidue(Pow(c, e), v * e);
    }

    /** The inverse of a ciphertext carries the opposite. */
    lemma HoldsInverse(c: Ciphertext, v: int, inverse: Ciphertext)
      requires Valid() && Holds(c, v) && IsInverse(c, inverse)
      ensures Holds(inverse, -v)
    {
      var l := Lambda();
      var x, y := v * l, Pow(inverse, l);
      ModulusSquare();
      CongMod(c * inverse, Nsq());
      CongPow(c * inverse, 1, l, Nsq());
      PowMulBase(c, inverse, l);
      PowOne(l);
      CongScale(Pow(c, l), 1 + x * n, y, Nsq());
      CongSym(Pow(c, l) * y, (1 + x * n) * y, Nsq());
      CongTrans((1 + x * n) * y, Pow(c, l) * y, 1, Nsq());
      CancelOnePlus(x, y);
      assert -x == -v * l;
    }

    lemma CancelOnePlus(x: int, y: int)
      requires Cong((1 + x * n) * y, 1, Nsq())
      ensures Cong(y, 1 + -x * n, Nsq())
    {
      var plus, minus := 1 + x * n, 1 + -x * n;
      CongScale(plus * y, 1, minus, Nsq());
      OnePlusMul(x, -x, n);
      CongScale(plus * minus, 1, y, Nsq());
      MulExchange(plus, y, minus);
      CongSym(plus * minus * y, y, Nsq());
      CongTrans(y, plus * y * minus, minus, Nsq());
    }

    /** Every carrying ciphertext is invertible, so the client's inversion never fails. */
    lemma InverseExists(c: Ciphertext, v: int)
      requires Valid() && Holds(c, v)
      ensures exists inverse :: IsInverse(c, inverse)
    {
      var l := Lambda();
      ModulusSquare();
      PowPow(c, l, n);
      CongPow(Pow(c, l), 1 + v * l * n, n, Nsq());
      OnePlusPow(v * l, n, n);
      assert 1 + n * (v * l) * n == 1 + v * l * (n * n);
      CongWitness(1 + n * (v * l) * n, 1, Nsq(), v * l);
      CongTrans(Pow(c, l * n), Pow(1 + v * l * n, n), 1 + n * (v * l) * n, Nsq());
      CongTrans(Pow(c, l * n), 1 + n * (v * l) * n, 1, Nsq());
      MulGrows(l, n);
      var p := Pow(c, l * n - 1);
      assert c * p == Pow(c, l * n);
      CongMod(p, Nsq());
      CongScale(p % Nsq(), p, c, Nsq());
      CongTrans(p % Nsq() * c, p * c, 1, Nsq());
      ModIs(c * (p % Nsq()), 1, Nsq());
      assert IsInverse(c, p % Nsq());
    }

    /** A carrying ciphertext passes the range and gcd checks made before decryption. */
    lemma HoldsUnit(c: Ciphertext, v: int)
      requires Valid() && Holds(c, v)
      ensures 0 < c < Nsq() && Coprime(c, n) && Coprime(n, c)
    {
      ModulusSquare();
      var l := Lambda();
      CongFactor(Pow(c, l), 1 + v * l * n, n, n);
      CongWitness(1 + v * l * n, 1, n, v * l);
      CongTrans(Pow(c, l), 1 + v * l * n, 1, n);
      if c == 0 {
        NoCommonDivisor(c, n);
      }
      forall d | 2 <= d && c % d == 0
        ensures n % d != 0
      {
        NoCommonDivisor(c, d);
      }
    }

    lemma NoCommonDivisor(c: int, d: int)
      requires 2 <= d && c % d == 0 && 0 < Lambda() && Cong(Pow(c, Lambda()), 1, n)
      ensures n % d != 0
    {
      if n % d == 0 {
        var q := n / d;
        assert n == q * d;
        CongFactor(Pow(c, Lambda()), 1, q, d);
        CongIffMod(Pow(c, Lambda()), 1, d);
        CongIffMod(c, 0, d);
        CongScale(c, 0, Pow(c, Lambda() - 1), d);
        CongIffMod(Pow(c, Lambda()), 0, d);
        assert false;
      }
    }

    /** A fresh encryption carries its plaintext. */
    lemma HoldsEncrypt(m: int, nonce: int)
      requires Valid() && 0 < nonce < n && Coprime(nonce, n)
      ensures Holds(Encrypt(m, nonce), m)
    {
      ModulusSquare();
      var l, x, y := Lambda(), 1 + m % n * n, Pow(nonce, n);
      OnePlusPow(m % n, n, l);
      CongMod(y, Nsq());
      CongPow(y % Nsq(), y, l, Nsq());
      CongMod(Pow(y, l), Nsq());
      CongTrans(Pow(y % Nsq(), l), Pow(y, l), 1, Nsq());
      PowMulBase(x, y % Nsq(), l);
      CongMul(Pow(x, l), 1 + l * (m % n) * n, Pow(y % Nsq(), l), 1, Nsq());
      assert l * (m % n) == m % n * l;
      HoldsResidue(x * (y % Nsq()), m % n);
      CongMod(m, n);
      HoldsSame(Encrypt(m, nonce), m % n, m);
    }

    /** The value both decryption paths compute from 1 + v * lambda * n modulo n^2. */
    lemma Unblind(u: int, v: int)
      requires Valid() && Cong(u, 1 + v * Lambda() * n, Nsq())
      ensures u % Nsq() == 1 + v * Lambda() % n * n
      ensures (u % Nsq() - 1) % n == 0
      ensures Log(u % Nsq()) * mu % n == v % n
    {
      var x := v * Lambda();
      OnePlusResidue(u, x, n);
      CongMod(x, n);
      Quotient(x % n);
      CongScale(x % n, x, mu, n);
      CongMod(Lambda() * mu, n);
      CongScale(Lambda() * mu, 1, v, n);
      assert x * mu == Lambda() * mu * v;
      CongTrans(x % n * mu, x * mu, v, n);
      CongIffMod(x % n * mu, v, n);
    }

    lemma Quotient(q: int)
      requires 0 < n
      ensures q * n / n == q && q * n % n == 0
    {
      CongWitness(q * n, 0, n, q);
      ModIs(q * n, 0, n);
      var d := q * n / n - q;
      assert d * n == q * n / n * n - q * n == 0;
      SmallMultiple(d, n);
    }

    /** Full decryption returns the carried value. */
    lemma Decrypts(c: Ciphertext, v: int)
      requires Valid() && Holds(c, v)
      ensures Decrypt(c) == v % n
    {
      Unblind(Pow(c, Lambda()), v);
    }

    /**
     The two partial decryptions always pass the combining check, and the combined result is
     the full decryption, for every split of lambda. The range checks of the batch call pass too.
     */
    lemma ThresholdDecrypts(c: Ciphertext, v: int)
      requires Valid() && Holds(c, v)
      ensures Combine(PartialDecrypt(lambda1, c), PartialDecrypt(lambda2, c)) == Some(Decrypt(c))
      ensures ThresholdDecrypt(c, PartialDecrypt(lambda1, c)) == Some(Decrypt(c))
      ensures Decrypt(c) == v % n
    {
      ModulusSquare();
      HoldsUnit(c, v);
      PartialPositive(c, v);
      Decrypts(c, v);
      var u1, u2 := Pow(c, lambda1), Pow(c, lambda2);
      PowAdd(c, lambda1, lambda2);
      CongMod(u1, Nsq());
      CongMod(u2, Nsq());
      CongMul(u1 % Nsq(), u1, u2 % Nsq(), u2, Nsq());
      CongTrans(u1 % Nsq() * (u2 % Nsq()), u1 * u2, 1 + v * Lambda() * n, Nsq());
      Unblind(u1 % Nsq() * (u2 % Nsq()), v);
    }

    lemma PartialPositive(c: Ciphertext, v: int)
      requires Valid() && Holds(c, v)
      ensures 0 < PartialDecrypt(lambda1, c) < Nsq()
    {
      ModulusSquare();
      var u1, u2 := Pow(c, lambda1), Pow(c, lambda2);
      if u1 % Nsq() == 0 {
        PowAdd(c, lambda1, lambda2);
        CongIffMod(u1, 0, Nsq());
        CongScale(u1, 0, u2, Nsq());
        CongIffMod(Pow(c, Lambda()), 0, Nsq());
        Unblind(Pow(c, Lambda()), v);
        MulNonNeg(v * Lambda() % n, n);
      }
    }

    /**
     For a ciphertext whose class is 1 modulo n (a unit, raised to lambda), carrying v is the
     same as decrypting to v modulo n.
     */
    lemma HoldsIffDecrypts(c: Ciphertext, v: int)
      requires Valid() && 0 <= c < Nsq() && Pow(c, Lambda()) % n == 1
      ensures Holds(c, v) <==> Decrypt(c) == v % n
    {
      var w := Log(Pow(c, Lambda()) % Nsq()) * mu;
      CarriesLog(c);
      assert Decrypt(c) == w % n;
      if Decrypt(c) == v % n {
        HoldsCongruent(c, w, v);
      }
      if Holds(c, v) {
        Decrypts(c, v);
      }
    }

    lemma HoldsCongruent(c: Ciphertext, w: int, v: int)
      requires Valid() && Holds(c, w) && w % n == v % n
      ensures Holds(c, v)
    {
      CongIffMod(w, v, n);
      HoldsSame(c, w, v);
    }

    /** A unit modulo n carries what its logarithm says. */
    lemma CarriesLog(c: Ciphertext)
      requires Valid() && 0 <= c < Nsq() && Pow(c, Lambda()) % n == 1
      ensures Holds(c, Log(Pow(c, Lambda()) % Nsq()) * mu)
    {
      ModulusSquare();
      var u := Pow(c, Lambda());
      var log := Log(u % Nsq());
      CongMod(u, Nsq());
      CongFactor(u % Nsq(), u, n, n);
      CongIffMod(u % Nsq(), u, n);
      assert u % Nsq() == 1 + log * n by { OneMore(u % Nsq()); }
      Unscaled(log);
      CongTrans(u, u % Nsq(), 1 + log * mu * Lambda() * n, Nsq());
    }

    lemma Unscaled(log: int)
      requires Valid()
      ensures Cong(1 + log * n, 1 + log * mu * Lambda() * n, Nsq())
    {
      var w := log * mu;
      CongMod(Lambda() * mu, n);
      CongScale(Lambda() * mu, 1, log, n);
      assert w * Lambda() == Lambda() * mu * log;
      CongSym(w * Lambda(), log, n);
      OnePlusCong(log, w * Lambda(), n);
    }

    lemma OneMore(u: int)
      requires 1 < n && u % n == 1
      ensures u == 1 + (u - 1) / n * n
    {
      CongIffMod(u, 1, n);
      var k :| u == 1 + k * n;
      Quotient(k);
    }
  }

  lemma OnePlusResidue(u: int, x: int, n: int)
    requires 1 < n && Cong(u, 1 + x * n, n * n)
    ensures u % (n * n) == 1 + x % n * n
  {
    CongMod(x, n);
    OnePlusCong(x, x % n, n);
    CongTrans(u, 1 + x * n, 1 + x % n * n, n * n);
    MulMono(x % n, n - 1, n);
    assert (n - 1) * n == n * n - n;
    MulNonNeg(x % n, n);
    ModIs(u, 1 + x % n * n, n * n);
  }

  /** The generator's mu, the inverse of Log((1 + n)^lambda), is the inverse of lambda. */
  lemma GeneratedMu(k: Key)
    requires 1 < k.n
    requires k.Log(Pow(1 + k.n, k.Lambda()) % k.Nsq()) * k.mu % k.n == 1
    ensures k.Lambda() * k.mu % k.n == 1
  {
    var n, l := k.n, k.Lambda();
    OnePlusPow(1, n, l);
    OnePlusResidue(Pow(1 + n, l), l, n);
    CongMod(l, n);
    k.Quotient(l % n);
    CongScale(l % n, l, k.mu, n);
    CongIffMod(l % n * k.mu, l * k.mu, n);
  }

  /** crypto.cpp's signed reading: residues from n/2 up stand for negatives. */
  function SignedFromHalf(m: int, n: int): int {
    if m >= n / 2 then m - n else m
  }

  /** The threshold client's signed reading: residues above n/2 stand for negatives. */
  function SignedAboveHalf(m: int, n: int): int {
    if m > n / 2 then m - n else m
  }

  /** Both readings undo reduction modulo n on their whole range of signed values... */
  lemma SignedReadings(v: int, n: int)
    requires 2 <= n
    ensures n / 2 - n <= v < n / 2 <==> SignedFromHalf(v % n, n) == v
    ensures n / 2 - n < v <= n / 2 <==> SignedAboveHalf(v % n, n) == v
  {
    if 0 <= v < n {
      ModIs2(v, v, n);
    } else if -n <= v < 0 {
      ModIs2(v, v + n, n);
    }
  }

  lemma ModIs2(v: int, r: int, n: int)
    requires 0 <= r < n && (r == v || r == v + n)
    ensures v % n == r
  {
    CongWitness(v, r, n, if r == v then 0 else -1);
    ModIs(v, r, n);
  }

  /** ...and they disagree at one residue only. */
  lemma SignedReadingsDiffer(m: int, n: int)
    requires 2 <= n && 0 <= m < n
    ensures SignedFromHalf(m, n) != SignedAboveHalf(m, n) <==> m == n / 2
  {
  }
}
