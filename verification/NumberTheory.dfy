/** Congruences and powers: what Paillier's scheme needs from the integers. */
module NumberTheory {

  function MinOf(a: int, b: int): int {
    if a < b then a else b
  }

  function MaxOf(a: int, b: int): int {
    if a < b then b else a
  }

  /** b to the power e. */
  function Pow(b: int, e: nat): int {
    if e == 0 then 1 else b * Pow(b, e - 1)
  }

  /** a and b leave the same remainder; stated by a multiple so that sums and products are easy. */
  ghost predicate Cong(a: int, b: int, m: int) {
    exists k: int :: a == b + k * m
  }

  lemma CongWitness(a: int, b: int, m: int, k: int)
    requires a == b + k * m
    ensures Cong(a, b, m)
  {
  }

  lemma CongRefl(a: int, m: int)
    ensures Cong(a, a, m)
  {
    CongWitness(a, a, m, 0);
  }

  lemma CongSym(a: int, b: int, m: int)
    requires Cong(a, b, m)
    ensures Cong(b, a, m)
  {
    var k :| a == b + k * m;
    assert b == a + (-k) * m;
  }

  lemma CongTrans(a: int, b: int, c: int, m: int)
    requires Cong(a, b, m) && Cong(b, c, m)
    ensures Cong(a, c, m)
  {
    var k :| a == b + k * m;
    var l :| b == c + l * m;
    assert a == c + (k + l) * m;
  }

  lemma CongMul(a: int, b: int, c: int, d: int, m: int)
    requires Cong(a, b, m) && Cong(c, d, m)
    ensures Cong(a * c, b * d, m)
  {
    var k :| a == b + k * m;
    var l :| c == d + l * m;
    calc {
      a * c;
      (b + k * m) * (d + l * m);
      b * d + b * (l * m) + (k * m) * d + (k * m) * (l * m);
      b * d + (b * l + k * d + k * l * m) * m;
    }
  }

  lemma CongAdd(a: int, b: int, c: int, d: int, m: int)
    requires Cong(a, b, m) && Cong(c, d, m)
    ensures Cong(a + c, b + d, m)
  {
    var k :| a == b + k * m;
    var l :| c == d + l * m;
    assert a + c == b + d + (k + l) * m;
  }

  lemma CongScale(a: int, b: int, c: int, m: int)
    requires Cong(a, b, m)
    ensures Cong(a * c, b * c, m)
  {
    CongRefl(c, m);
    CongMul(a, b, c, c, m);
  }

  /** Reducing modulo m stays in the class. */
  lemma CongMod(a: int, m: int)
    requires 0 < m
    ensures Cong(a % m, a, m) && Cong(a, a % m, m)
  {
    assert a == a / m * m + a % m;
    CongWitness(a, a % m, m, a / m);
    CongSym(a, a % m, m);
  }

  /** Two residues in the same class are equal. */
  lemma CongUnique(a: int, b: int, m: int)
    requires 0 <= a < m && 0 <= b < m && Cong(a, b, m)
    ensures a == b
  {
    var k :| a == b + k * m;
    SmallMultiple(k, m);
  }

  lemma SmallMultiple(k: int, m: int)
    requires -m < k * m < m
    ensures k == 0
  {
    if k >= 1 {
      MulGrows(k, m);
    }
    if k <= -1 {
      MulGrows(-k, m);
    }
  }

  lemma MulGrows(k: int, m: int)
    requires 1 <= k && 0 <= m
    ensures k * m >= m
  {
    assert k * m == (k - 1) * m + m;
    assert (k - 1) * m >= 0 by { MulNonNeg(k - 1, m); }
  }

  lemma SmallRemainder(a: int, m: int)
    requires 0 <= a < m
    ensures a % m == a
  {
  }

  lemma MulNonNeg(a: int, b: int)
    requires 0 <= a && 0 <= b
    ensures 0 <= a * b
  {
  }

  lemma MulMono(a: int, b: int, c: int)
    requires a <= b && 0 <= c
    ensures a * c <= b * c
  {
    MulNonNeg(b - a, c);
    assert (b - a) * c == b * c - a * c;
  }

  lemma MulStrict(a: int, b: int, c: int)
    requires a < b && 0 < c
    ensures a * c < b * c
  {
    MulMono(a + 1, b, c);
    assert (a + 1) * c == a * c + c;
  }

  /** Congruence is equality of remainders. */
  lemma CongIffMod(a: int, b: int, m: int)
    requires 0 < m
    ensures Cong(a, b, m) <==> a % m == b % m
  {
    CongMod(a, m);
    CongMod(b, m);
    if Cong(a, b, m) {
      CongTrans(a % m, a, b, m);
      CongTrans(a % m, b, b % m, m);
      CongUnique(a % m, b % m, m);
    }
    if a % m == b % m {
      CongTrans(a, a % m, b, m);
    }
  }

  /** The remainder is the only residue in its class. */
  lemma ModIs(a: int, r: int, m: int)
    requires 0 <= r < m && Cong(a, r, m)
    ensures a % m == r
  {
    CongMod(a, m);
    CongTrans(a % m, a, r, m);
    CongUnique(a % m, r, m);
  }

  /** A congruence modulo d * m is one modulo m. */
  lemma CongFactor(a: int, b: int, d: int, m: int)
    requires Cong(a, b, d * m)
    ensures Cong(a, b, m)
  {
    var k :| a == b + k * (d * m);
    assert k * (d * m) == (k * d) * m;
    CongWitness(a, b, m, k * d);
  }

  lemma {:induction false} PowAdd(b: int, x: nat, y: nat)
    ensures Pow(b, x + y) == Pow(b, x) * Pow(b, y)
  {
    if x == 0 {
    } else {
      PowAdd(b, x - 1, y);
      assert Pow(b, x + y) == b * Pow(b, (x - 1) + y);
      assert b * (Pow(b, x - 1) * Pow(b, y)) == (b * Pow(b, x - 1)) * Pow(b, y);
    }
  }

  lemma MulSwap(a: int, b: int, p: int, q: int)
    ensures (a * b) * (p * q) == (a * p) * (b * q)
  {
    var bp := b * p;
    assert (a * b) * (p * q) == a * (b * p) * q;
    assert (a * p) * (b * q) == a * (p * b) * q;
  }

  lemma MulExchange(p: int, y: int, q: int)
    ensures p * y * q == p * q * y
  {
  }

  lemma {:induction false} PowMulBase(a: int, b: int, e: nat)
    ensures Pow(a * b, e) == Pow(a, e) * Pow(b, e)
  {
    if e == 0 {
    } else {
      PowMulBase(a, b, e - 1);
      MulSwap(a, b, Pow(a, e - 1), Pow(b, e - 1));
    }
  }

  lemma {:induction false} PowPow(b: int, x: nat, y: nat)
    ensures 0 <= x * y && Pow(Pow(b, x), y) == Pow(b, x * y)
  {
    if y == 0 {
      assert x * y == 0;
    } else {
      PowPow(b, x, y - 1);
      assert x * y == x + x * (y - 1);
      PowAdd(b, x, x * (y - 1));
    }
  }

  lemma {:induction false} PowOne(e: nat)
    ensures Pow(1, e) == 1
  {
    if e > 0 {
      PowOne(e - 1);
    }
  }

  lemma {:induction false} CongPow(a: int, b: int, e: nat, m: int)
    requires Cong(a, b, m)
    ensures Cong(Pow(a, e), Pow(b, e), m)
  {
    if e == 0 {
      CongRefl(1, m);
    } else {
      CongPow(a, b, e - 1, m);
      CongMul(a, b, Pow(a, e - 1), Pow(b, e - 1), m);
    }
  }

  /** The binomial collapse modulo n^2 on which Paillier rests. */
  lemma {:induction false} OnePlusPow(k: int, n: int, e: nat)
    ensures Cong(Pow(1 + k * n, e), 1 + (e * k) * n, n * n)
  {
    var m := n * n;
    if e == 0 {
      assert (e * k) * n == 0;
      CongRefl(1, m);
    } else {
      OnePlusPow(k, n, e - 1);
      var d := e - 1;
      CongRefl(1 + k * n, m);
      CongMul(1 + k * n, 1 + k * n, Pow(1 + k * n, d), 1 + (d * k) * n, m);
      OnePlusMul(k, d * k, n);
      assert k + d * k == e * k;
      CongTrans(Pow(1 + k * n, e), (1 + k * n) * (1 + (d * k) * n), 1 + (e * k) * n, m);
    }
  }

  /** (1 + an)(1 + bn) = 1 + (a+b)n modulo n^2. */
  lemma OnePlusMul(a: int, b: int, n: int)
    ensures Cong((1 + a * n) * (1 + b * n), 1 + (a + b) * n, n * n)
  {
    assert (1 + a * n) * (1 + b * n) == 1 + (a + b) * n + (a * b) * (n * n) by {
      assert (a * n) * (b * n) == (a * b) * (n * n);
      assert (a + b) * n == a * n + b * n;
    }
    CongWitness((1 + a * n) * (1 + b * n), 1 + (a + b) * n, n * n, a * b);
  }

  /** Congruent exponents of 1 + n give congruent elements. */
  lemma OnePlusCong(a: int, b: int, n: int)
    requires Cong(a, b, n)
    ensures Cong(1 + a * n, 1 + b * n, n * n)
  {
    var k :| a == b + k * n;
    assert 1 + a * n == 1 + b * n + k * (n * n) by {
      assert (b + k * n) * n == b * n + k * (n * n);
    }
    CongWitness(1 + a * n, 1 + b * n, n * n, k);
  }

  function Pow2(e: nat): (p: int)
    ensures 1 <= p
  {
    if e == 0 then 1 else 2 * Pow2(e - 1)
  }

  /** The bits of a positive number: mpz_sizeinbase(n, 2), or a word's bits without the leading zeros. */
  function BitLength(n: nat): nat {
    if n < 2 then 1 else 1 + BitLength(n / 2)
  }

  lemma {:induction false} BitLengthOfPow2(e: nat)
    ensures BitLength(Pow2(e)) == e + 1
  {
    if e > 0 {
      BitLengthOfPow2(e - 1);
    }
  }

  lemma {:induction false} BelowBitLength(n: nat)
    ensures n < Pow2(BitLength(n))
  {
    if n < 2 {
      assert Pow2(1) == 2 * Pow2(0);
    } else {
      BelowBitLength(n / 2);
    }
  }

  lemma {:induction false} Pow2Add(a: nat, b: nat)
    ensures Pow2(a + b) == Pow2(a) * Pow2(b)
  {
    if a > 0 {
      Pow2Add(a - 1, b);
      assert Pow2(a + b) == 2 * Pow2(a - 1 + b);
      assert 2 * (Pow2(a - 1) * Pow2(b)) == 2 * Pow2(a - 1) * Pow2(b);
    }
  }

  lemma {:induction false} Pow2Mono(a: nat, b: nat)
    requires a <= b
    ensures Pow2(a) <= Pow2(b)
  {
    if a < b {
      Pow2Mono(a, b - 1);
    }
  }

  lemma Pow2Of63()
    ensures Pow2(63) == 0x8000_0000_0000_0000
    ensures Pow2(127) == 0x8000_0000_0000_0000_0000_0000_0000_0000
  {
    assert Pow2(1) == 2 && Pow2(7) == 128;
    hide Pow2;
    Pow2Add(7, 7);
    assert Pow2(14) == 0x4000;
    Pow2Add(14, 7);
    assert Pow2(21) == 0x20_0000;
    Pow2Add(21, 21);
    assert Pow2(42) == 0x400_0000_0000;
    Pow2Add(42, 21);
    Pow2Add(63, 63);
    Pow2Add(126, 1);
  }

  /** The least number of bits b with v <= 2^b. */
  function CeilLog2(v: int): (b: nat)
    requires 1 <= v
    ensures v <= Pow2(b)
    ensures 0 < b ==> Pow2(b - 1) < v
  {
    if v == 1 then 0 else
      var b := 1 + CeilLog2((v + 1) / 2);
      b
  }

  lemma CeilLog2Least(v: int, b: nat)
    requires 1 <= v
    ensures CeilLog2(v) <= b <==> v <= Pow2(b)
  {
    if CeilLog2(v) <= b {
      Pow2Mono(CeilLog2(v), b);
    } else {
      Pow2Mono(b, CeilLog2(v) - 1);
    }
  }

  lemma CeilLog2Mono(v: int, w: int)
    requires 1 <= v <= w
    ensures CeilLog2(v) <= CeilLog2(w)
  {
    CeilLog2Least(v, CeilLog2(w));
  }
}
