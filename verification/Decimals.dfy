/**
 Decimal text to fixed point: the parser of costs and thresholds. It is proved against a grammar of
 decimal numerals and the value that a numeral writes, in millionths.
 */
module Decimals {
  import opened Wrappers
  import NumberTheory

  datatype ParseError = BadDecimal | OutOfRange

  const MICROS := 1_000_000
  const PLACES := 6
  const LLONG_MAX := 0x7fff_ffff_ffff_ffff
  const FIXED_SAFE := 0x7ff_ffff_ffff_ffff  // LLONG_MAX / 16

  predicate Blank(c: char) {
    c == ' ' || '\t' <= c <= '\r'
  }

  predicate Digits(s: string) {
    forall i :: 0 <= i < |s| ==> '0' <= s[i] <= '9'
  }

  predicate Blanks(s: string) {
    forall i :: 0 <= i < |s| ==> Blank(s[i])
  }

  predicate Zeros(s: string) {
    forall i :: 0 <= i < |s| ==> s[i] == '0'
  }

  /** The number that digits write. */
  function Number(s: string): nat
    requires Digits(s)
  {
    if s == [] then 0 else 10 * Number(s[..|s| - 1]) + (s[|s| - 1] as int - '0' as int)
  }

  function Pow10(e: nat): (p: nat)
    ensures 1 <= p
  {
    if e == 0 then 1 else 10 * Pow10(e - 1)
  }

  // ---------------------------------------------------------------- the parser

  function TrimLeft(s: string): string {
    if s != [] && Blank(s[0]) then TrimLeft(s[1..]) else s
  }

  function TrimRight(s: string): string {
    if s != [] && Blank(s[|s| - 1]) then TrimRight(s[..|s| - 1]) else s
  }

  /** Where the first point is, or the length. */
  function Point(s: string): (i: nat)
    ensures i <= |s| && '.' !in s[..i] && (i < |s| ==> s[i] == '.')
  {
    if s == [] || s[0] == '.' then 0 else
      var i := Point(s[1..]);
      assert s[..i + 1] == [s[0]] + s[1..][..i];
      i + 1
  }

  function Whole(s: string): string {
    s[..Point(s)]
  }

  function Fraction(s: string): string {
    if Point(s) < |s| then s[Point(s) + 1..] else []
  }

  /** The fraction, cut or padded to six places. */
  function SixPlaces(f: string): (r: string)
    requires Digits(f)
    ensures Digits(r) && |r| == PLACES
    decreases PLACES - |f|
  {
    if PLACES <= |f| then f[..PLACES] else SixPlaces(f + ['0'])
  }

  /** Nothing is cut off but zeros. */
  predicate Exact(f: string) {
    |f| <= PLACES || Zeros(f[PLACES..])
  }

  /** The checks and the value once the text is split. */
  function FromParts(whole: string, fraction: string, threshold: bool): (r: Result<nat, ParseError>)
    ensures r.Success? ==> r.value <= FIXED_SAFE && (threshold ==> r.value < MICROS)
  {
    if !Digits(whole) || !Digits(fraction) || !Exact(fraction) then Failure(BadDecimal)
    else
      var w, f := Number(whole), Number(SixPlaces(fraction));
      if LLONG_MAX < w || w > (FIXED_SAFE - f) / MICROS then Failure(OutOfRange)
      else if threshold && MICROS <= w * MICROS + f then Failure(BadDecimal)
      else Success(w * MICROS + f)
  }

  function Parse(input: string, threshold: bool): (r: Result<nat, ParseError>)
    ensures r.Success? ==> r.value <= FIXED_SAFE && (threshold ==> r.value < MICROS)
  {
    ParseCore(TrimRight(TrimLeft(input)), threshold)
  }

  function ParseCore(t: string, threshold: bool): (r: Result<nat, ParseError>)
    ensures r.Success? ==> r.value <= FIXED_SAFE && (threshold ==> r.value < MICROS)
  {
    if t == [] || t[0] == '-' then Failure(BadDecimal)
    else
      var s := if t[0] == '+' then t[1..] else t;
      if '.' in Fraction(s) then Failure(BadDecimal)
      else FromParts(if Whole(s) == [] then "0" else Whole(s), Fraction(s), threshold)
  }

  // ---------------------------------------------------------------- the grammar

  /** The characters of the grammar: space and the five other blanks, and the ten digits with their values. */
  lemma Characters(c: char)
    ensures Blank(c) <==> c as int == 32 || 9 <= c as int <= 13
    ensures Digits([c]) <==> 48 <= c as int <= 57
    ensures Digits([c]) ==> Number([c]) == c as int - 48
  {
    assert [c][0] == c && [c][..0] == [];
  }

  /** A way to write a decimal: blanks, an optional plus, digits, an optional point with digits, blanks. */
  datatype Numeral = Numeral(before: string, plus: bool, whole: string, point: bool, fraction: string, after: string) {

    predicate Ok() {
      && Blanks(before) && Blanks(after) && Digits(whole) && Digits(fraction)
      && (!point ==> fraction == []) && (plus || point || whole != [])
    }

    function Unsigned(): string {
      whole + (if point then "." else "") + fraction
    }

    function Core(): string {
      (if plus then "+" else "") + Unsigned()
    }

    function Text(): string {
      before + Core() + after
    }

    /** The numeral writes v millionths: v / 10^6 = (whole fraction) / 10^|fraction|. */
    predicate Worth(v: nat)
      requires Ok()
    {
      v * Pow10(|fraction|) == MICROS * Number(whole + fraction)
    }
  }

  lemma {:induction false} TrimsLeft(b: string, c: string)
    requires Blanks(b) && c != [] && !Blank(c[0])
    ensures TrimLeft(b + c) == c
  {
    if b == [] {
      assert b + c == c;
    } else {
      TrimsLeft(b[1..], c);
      assert (b + c)[1..] == b[1..] + c;
    }
  }

  lemma {:induction false} TrimsRight(c: string, b: string)
    requires Blanks(b) && c != [] && !Blank(c[|c| - 1])
    ensures TrimRight(c + b) == c
  {
    if b == [] {
      assert c + b == c;
    } else {
      TrimsRight(c, b[..|b| - 1]);
      assert (c + b)[..|c + b| - 1] == c + b[..|b| - 1];
    }
  }

  lemma {:induction false} PointBehind(w: string, rest: string)
    requires Digits(w) && (rest != [] ==> rest[0] == '.')
    ensures Point(w + rest) == |w|
  {
    if w == [] {
      assert w + rest == rest;
    } else {
      PointBehind(w[1..], rest);
      assert (w + rest)[1..] == w[1..] + rest;
    }
  }

  /** Every numeral is read as its parts. */
  lemma NumeralParses(n: Numeral, threshold: bool)
    requires n.Ok()
    ensures Parse(n.Text(), threshold) == FromParts(n.whole, n.fraction, threshold)
  {
    CoreTrimmed(n);
    CoreSplits(n);
    WholeOfNothing(n.fraction, threshold);
    hide Numeral.Text, Numeral.Core, TrimLeft, TrimRight, Point, FromParts;
    assert '.' !in n.fraction;
  }

  /** The blanks go. */
  lemma CoreTrimmed(n: Numeral)
    requires n.Ok()
    ensures TrimRight(TrimLeft(n.Text())) == n.Core()
  {
    CoreEnds(n);
    hide Numeral.Core, TrimLeft, TrimRight, Numeral.Ok;
    var core := n.Core();
    assert n.Text() == n.before + (core + n.after);
    assert (core + n.after)[0] == core[0];
    TrimsLeft(n.before, core + n.after);
    TrimsRight(core, n.after);
  }

  lemma CoreEnds(n: Numeral)
    requires n.Ok()
    ensures Blanks(n.before) && Blanks(n.after)
    ensures n.Core() != [] && !Blank(n.Core()[0]) && !Blank(n.Core()[|n.Core()| - 1])
  {
    forall i | 0 <= i < |n.Core()|
      ensures !Blank(n.Core()[i])
    {
      var c := n.Core()[i];
      assert c == '+' || c == '.' || c in n.whole || c in n.fraction;
    }
  }

  /** The sign goes, and the parts are told apart. */
  lemma CoreSplits(n: Numeral)
    requires n.Ok()
    ensures var core := n.Core();
      && core != [] && core[0] != '-'
      && var s := if core[0] == '+' then core[1..] else core; Whole(s) == n.whole && Fraction(s) == n.fraction
  {
    var core, s := n.Core(), n.Unsigned();
    if n.plus {
      assert core == ['+'] + s && core[1..] == s;
    } else {
      assert core == s && (core[0] == '.' || core[0] in n.whole);
    }
    var rest := (if n.point then "." else "") + n.fraction;
    assert s == n.whole + rest;
    PointBehind(n.whole, rest);
  }

  /** A missing whole part reads as 0. */
  lemma WholeOfNothing(fraction: string, threshold: bool)
    ensures FromParts("0", fraction, threshold) == FromParts("", fraction, threshold)
  {
    assert "0"[..0] == "";
    assert Number("0") == 0;
  }

  lemma {:induction false} LeftBlanks(s: string) returns (b: string)
    ensures Blanks(b) && s == b + TrimLeft(s)
  {
    b := [];
    if s != [] && Blank(s[0]) {
      var rest := LeftBlanks(s[1..]);
      b := [s[0]] + rest;
    }
  }

  lemma {:induction false} RightBlanks(s: string) returns (b: string)
    ensures Blanks(b) && s == TrimRight(s) + b
  {
    b := [];
    if s != [] && Blank(s[|s| - 1]) {
      var rest := RightBlanks(s[..|s| - 1]);
      b := rest + [s[|s| - 1]];
    }
  }

  /** What passes the parser's checks of the form is a numeral. */
  lemma ReadsNumeral(input: string, threshold: bool) returns (n: Numeral)
    requires Parse(input, threshold) != Failure(BadDecimal)
    ensures n.Ok() && n.Text() == input
  {
    hide TrimLeft, TrimRight, ParseCore, Numeral.Ok, Numeral.Core;
    var before := LeftBlanks(input);
    var after := RightBlanks(TrimLeft(input));
    n := CoreNumeral(TrimRight(TrimLeft(input)), before, after, threshold);
    Joined(input, n.before, TrimLeft(input), n.Core(), n.after);
  }

  lemma Joined(input: string, before: string, left: string, core: string, after: string)
    requires input == before + left && left == core + after
    ensures input == before + core + after
  {
  }

  lemma CoreNumeral(t: string, before: string, after: string, threshold: bool) returns (n: Numeral)
    requires ParseCore(t, threshold) != Failure(BadDecimal) && Blanks(before) && Blanks(after)
    ensures n.Ok() && n.Core() == t && n.before == before && n.after == after
  {
    hide Numeral.Core, Point, FromParts, Whole, Fraction, Blanks, Digits;
    var s := if t[0] == '+' then t[1..] else t;
    WholeOfNothing(Fraction(s), threshold);
    FormChecked(Whole(s), Fraction(s), threshold);
    PartsJoin(s);
    n := Numeral(before, t[0] == '+', Whole(s), Point(s) < |s|, Fraction(s), after);
    PlusJoin(t);
    CoreIs(n, s);
  }

  lemma PlusJoin(t: string)
    ensures t != [] && t[0] == '+' ==> t == "+" + t[1..]
  {
  }

  lemma CoreIs(n: Numeral, s: string)
    requires if n.point then s == n.whole + "." + n.fraction else s == n.whole && n.fraction == []
    ensures n.Core() == if n.plus then "+" + s else s
  {
    assert n.Unsigned() == s;
  }

  lemma PartsJoin(s: string)
    ensures Point(s) < |s| ==> s == Whole(s) + "." + Fraction(s)
    ensures Point(s) == |s| ==> s == Whole(s) && Fraction(s) == []
    ensures Point(s) <= |s|
  {
    var i := Point(s);
    if i < |s| {
      Rejoin(s, i);
    }
  }

  lemma Rejoin(s: string, i: nat)
    requires i < |s| && s[i] == '.'
    ensures s == s[..i] + "." + s[i + 1..]
  {
  }

  lemma FormChecked(whole: string, fraction: string, threshold: bool)
    requires FromParts(whole, fraction, threshold) != Failure(BadDecimal)
    ensures Digits(whole) && Digits(fraction)
  {
  }

  // ---------------------------------------------------------------- the value

  lemma {:induction false} NumberConcat(a: string, b: string)
    requires Digits(a) && Digits(b)
    ensures Number(a + b) == Number(a) * Pow10(|b|) + Number(b) && Number(b) < Pow10(|b|)
  {
    if b == [] {
      assert a + b == a;
    } else {
      var d := |b| - 1;
      NumberConcat(a, b[..d]);
      NumberLast(b);
      NumberLast(a + b);
      PowerStep(d);
      hide Number, Pow10;
      assert (a + b)[..|a + b| - 1] == a + b[..d];
      ConcatStep(Number(a), Pow10(d), Number(b[..d]), b[d] as int - '0' as int);
    }
  }

  lemma ConcatStep(a: nat, p: nat, b: nat, digit: nat)
    requires b < p && digit <= 9
    ensures 10 * (a * p + b) + digit == a * (10 * p) + (10 * b + digit) && 10 * b + digit < 10 * p
  {
  }

  lemma NumberLast(s: string)
    requires Digits(s) && s != []
    ensures Number(s) == 10 * Number(s[..|s| - 1]) + (s[|s| - 1] as int - '0' as int)
  {
  }

  lemma PowerStep(e: nat)
    ensures Pow10(e + 1) == 10 * Pow10(e)
  {
  }

  lemma {:induction false} ZeroNumber(t: string)
    requires Digits(t)
    ensures Number(t) == 0 <==> Zeros(t)
  {
    if t != [] {
      ZeroNumber(t[..|t| - 1]);
      assert t == t[..|t| - 1] + [t[|t| - 1]];
    }
  }

  lemma {:induction false} Pow10Add(a: nat, b: nat)
    ensures Pow10(a + b) == Pow10(a) * Pow10(b)
  {
    if a > 0 {
      Pow10Add(a - 1, b);
    }
  }

  /** The value of parts: only exact fractions have one, and it is the one that is computed. */
  lemma {:induction false} WorthIs(w: string, f: string, v: nat)
    requires Digits(w) && Digits(f)
    ensures v * Pow10(|f|) == MICROS * Number(w + f) <==> Exact(f) && v == Number(w) * MICROS + Number(SixPlaces(f))
    decreases PLACES - |f|
  {
    if |f| < PLACES {
      var g := f + ['0'];
      WorthIs(w, g, v);
      Padded(w, f, v);
      assert Exact(g);
    } else {
      var g, t := f[..PLACES], f[PLACES..];
      assert f == g + t && w + f == (w + g) + t;
      NumberConcat(w + g, t);
      NumberConcat(w, g);
      Pow10Add(PLACES, |t|);
      SixIsMicros();
      ZeroNumber(t);
      Shifted(v, Number(w) * MICROS + Number(g), Number(t), Pow10(|t|));
    }
  }

  /** Another zero of the fraction changes nothing. */
  lemma Padded(w: string, f: string, v: nat)
    requires Digits(w) && Digits(f)
    ensures var g := f + ['0'];
      v * Pow10(|g|) == MICROS * Number(w + g) <==> v * Pow10(|f|) == MICROS * Number(w + f)
  {
    var g := f + ['0'];
    assert w + g == (w + f) + ['0'];
    NumberLast(w + g);
    PowerStep(|f|);
    hide Number, Pow10;
    assert (w + g)[..|w + g| - 1] == w + f;
    TenTimes(v, Pow10(|f|), Number(w + f));
  }

  lemma TenTimes(v: nat, p: nat, u: nat)
    ensures v * (10 * p) == MICROS * (10 * u) <==> v * p == MICROS * u
  {
    assert v * (10 * p) == 10 * (v * p);
  }

  lemma SixIsMicros()
    ensures Pow10(PLACES) == MICROS
  {
    assert Pow10(2) == 10 * Pow10(1) == 100 * Pow10(0);
    assert Pow10(4) == 10 * Pow10(3) == 100 * Pow10(2);
    assert Pow10(6) == 10 * Pow10(5) == 100 * Pow10(4);
  }

  lemma Shifted(v: nat, u: nat, t: nat, p: nat)
    requires t < p
    ensures v * (MICROS * p) == MICROS * (u * p + t) <==> t == 0 && v == u
  {
    assert v * (MICROS * p) == MICROS * (v * p);
    if v * p == u * p + t {
      assert (v - u) * p == t;
      NumberTheory.SmallMultiple(v - u, p);
    }
  }

  /** An input has this value when some numeral writes both. */
  predicate Writes(input: string, n: Numeral, v: nat) {
    n.Ok() && n.Text() == input && n.Worth(v)
  }

  /**
   The parser is exact: it returns v for a numeral that is worth v millionths within the safe range,
   and below 1 for a threshold; it reports the range exactly for numerals worth more, and calls
   everything else invalid.
   */
  lemma ParseExact(input: string, threshold: bool)
    ensures forall v: nat :: Parse(input, threshold) == Success(v) <==>
      (v <= FIXED_SAFE && (threshold ==> v < MICROS) && exists n :: Writes(input, n, v))
    ensures Parse(input, threshold) == Failure(OutOfRange) <==>
      (exists n: Numeral, v: nat :: FIXED_SAFE < v && Writes(input, n, v))
  {
    forall n: Numeral, v: nat | Writes(input, n, v)
      ensures Parse(input, threshold) == Verdict(v, threshold)
    {
      WrittenParses(input, threshold, n, v);
    }
    if Parse(input, threshold) != Failure(BadDecimal) {
      var n, v := ParsedWrites(input, threshold);
    }
  }

  function Verdict(v: nat, threshold: bool): Result<nat, ParseError> {
    if FIXED_SAFE < v then Failure(OutOfRange)
    else if threshold && MICROS <= v then Failure(BadDecimal) else Success(v)
  }

  lemma WrittenParses(input: string, threshold: bool, n: Numeral, v: nat)
    requires Writes(input, n, v)
    ensures Parse(input, threshold) == Verdict(v, threshold)
  {
    hide Parse, Number, SixPlaces, Numeral.Text;
    NumeralParses(n, threshold);
    WorthIs(n.whole, n.fraction, v);
    RangeTest(Number(n.whole), Number(SixPlaces(n.fraction)));
  }

  /** Two values of one text are equal. */
  lemma ValueUnique(input: string, n: Numeral, m: Numeral, v: nat, w: nat)
    requires Writes(input, n, v) && Writes(input, m, w)
    ensures v == w
  {
    hide Numeral.Text, Numeral.Core, Whole, Fraction, Number, TrimLeft, TrimRight, SixPlaces, Exact;
    CoreTrimmed(n);
    CoreTrimmed(m);
    CoreSplits(n);
    CoreSplits(m);
    WorthIs(n.whole, n.fraction, v);
    WorthIs(m.whole, m.fraction, w);
  }

  lemma ParsedWrites(input: string, threshold: bool) returns (n: Numeral, v: nat)
    requires Parse(input, threshold) != Failure(BadDecimal)
    ensures Writes(input, n, v) && Parse(input, threshold) == Verdict(v, threshold)
  {
    hide Parse, Number, SixPlaces, Numeral.Text;
    n := ReadsNumeral(input, threshold);
    NumeralParses(n, threshold);
    v := Number(n.whole) * MICROS + Number(SixPlaces(n.fraction));
    WorthIs(n.whole, n.fraction, v);
    assert Writes(input, n, v);
    WrittenParses(input, threshold, n, v);
  }

  /** A sign or a point without digits, as in "+" or ".", is a numeral and worth nothing. */
  lemma NoDigitsIsZero(n: Numeral, threshold: bool)
    requires n.Ok() && n.whole == [] && n.fraction == []
    ensures Parse(n.Text(), threshold) == Success(0)
  {
    hide Parse, Numeral.Text, Numeral.Ok;
    assert n.whole + n.fraction == [];
    WrittenParses(n.Text(), threshold, n, 0);
  }

  lemma RangeTest(w: nat, f: nat)
    ensures LLONG_MAX < w || w > (FIXED_SAFE - f) / MICROS <==> FIXED_SAFE < w * MICROS + f
  {
  }
}
