/** Integers and ciphertexts on the wire, and the frames that carry them. */
module Codecs {
  import opened Wrappers

  type Byte = b: int | 0 <= b < 256 witness 0
  type Bytes = seq<Byte>

  const UINT32_MAX := 0xffff_ffff
  const SIZE_MAX := 0xffff_ffff_ffff_ffff
  const FRAME_LIMIT := 4 * 1024 * 1024

  datatype CodecError =
    | IntegerTooLarge | ShortInteger | BadInteger
    | ExportFailed | BadHeader | BadLength | NotCanonical
    | FrameTooLarge | SocketClosed

  // ---------------------------------------------------------------- magnitudes

  /** mpz_export: the big-endian bytes of a magnitude, none for 0. */
  function Magnitude(v: nat): (s: Bytes)
    ensures s != [] ==> s[0] != 0
  {
    if v == 0 then [] else Magnitude(v / 256) + [v % 256]
  }

  /** mpz_import. */
  function Value(s: Bytes): nat {
    if s == [] then 0 else Value(s[..|s| - 1]) * 256 + s[|s| - 1]
  }

  /** mpz_sizeinbase with base 2; it is 1 for 0. */
  function SizeInBase2(v: nat): nat {
    if v < 2 then 1 else 1 + SizeInBase2(v / 2)
  }

  function ByteSize(v: nat): nat {
    (SizeInBase2(v) + 7) / 8
  }

  lemma {:induction false} ValueOfMagnitude(v: nat)
    ensures Value(Magnitude(v)) == v
  {
    if v > 0 {
      ValueOfMagnitude(v / 256);
      assert Magnitude(v)[..|Magnitude(v)| - 1] == Magnitude(v / 256);
    }
  }

  /** Only the shortest bytes are the magnitude of their value. */
  lemma {:induction false} MagnitudeOfValue(s: Bytes)
    ensures Magnitude(Value(s)) == s <==> s == [] || s[0] != 0
  {
    if s != [] && s[0] != 0 {
      ShortestBytes(s);
    }
  }

  lemma {:induction false} ShortestBytes(s: Bytes)
    requires s != [] && s[0] != 0
    ensures Magnitude(Value(s)) == s
  {
    var t, last := s[..|s| - 1], s[|s| - 1];
    LeadingByte(s);
    LowByte(Value(t), last);
    if t != [] {
      ShortestBytes(t);
    }
    assert s == t + [last];
  }

  lemma LowByte(high: nat, low: Byte)
    ensures (high * 256 + low) / 256 == high && (high * 256 + low) % 256 == low
  {
  }

  lemma {:induction false} LeadingByte(s: Bytes)
    requires s != [] && s[0] != 0
    ensures Value(s) > 0
  {
    if |s| > 1 {
      LeadingByte(s[..|s| - 1]);
    }
  }

  /** The size computed from the bit length is the number of bytes exported. */
  lemma {:induction false} SizesAgree(v: nat)
    requires v > 0
    ensures |Magnitude(v)| == ByteSize(v)
  {
    if v < 256 {
      assert Magnitude(v / 256) == [];
      assert SizeInBase2(v) <= 8 by {
        SmallSize(v, 8, 256);
      }
    } else {
      SizesAgree(v / 256);
      EightBits(v);
    }
  }

  lemma {:induction false} SmallSize(v: nat, bits: nat, limit: nat)
    requires 1 <= bits <= 8 && v < limit && limit == [2, 4, 8, 16, 32, 64, 128, 256][bits - 1]
    ensures SizeInBase2(v) <= bits
    decreases bits
  {
    if v >= 2 {
      SmallSize(v / 2, bits - 1, limit / 2);
    }
  }

  lemma EightBits(v: nat)
    requires v >= 256
    ensures SizeInBase2(v) == 8 + SizeInBase2(v / 256)
  {
    var a := v / 2;
    var b := a / 2;
    var c := b / 2;
    var d := c / 2;
    assert SizeInBase2(c) == 1 + SizeInBase2(d);
    assert SizeInBase2(b) == 2 + SizeInBase2(d);
    assert SizeInBase2(v) == 4 + SizeInBase2(d);
    var e := d / 2;
    var f := e / 2;
    var g := f / 2;
    assert SizeInBase2(f) == 1 + SizeInBase2(g);
    assert SizeInBase2(d) == 3 + SizeInBase2(g);
    assert SizeInBase2(g) == 1 + SizeInBase2(g / 2);
    assert g / 2 == v / 256;
  }

  // ---------------------------------------------------------------- 32-bit words

  function WordBytes(n: nat): (s: Bytes)
    ensures |s| == 4
  {
    [n / 0x100_0000 % 256, n / 0x1_0000 % 256, n / 0x100 % 256, n % 256]
  }

  lemma FourBytes(s: Bytes)
    requires |s| == 4
    ensures var a: int, b: int, c: int, d: int := s[0], s[1], s[2], s[3];
      Value(s) == a * 0x100_0000 + b * 0x1_0000 + c * 0x100 + d
  {
    var a: int, b: int, c: int := s[0], s[1], s[2];
    assert s[..3][..2] == s[..2] && s[..2][..1] == s[..1] && s[..1][..0] == [];
    assert Value(s[..1]) == a;
    assert Value(s[..2]) == a * 256 + b;
    assert Value(s[..3]) == a * 0x1_0000 + b * 256 + c;
  }

  /** readU32 undoes writeU32 up to the width of the word. */
  lemma WordValue(n: nat)
    ensures Value(WordBytes(n)) == n % 0x1_0000_0000
  {
    FourBytes(WordBytes(n));
    var a, b, c := n / 0x100, n / 0x1_0000, n / 0x100_0000;
    assert n == a * 0x100 + n % 0x100 && a / 0x100 == b && b / 0x100 == c;
    assert a == b * 0x100 + a % 0x100 && b == c * 0x100 + b % 0x100;
    assert n == c / 0x100 * 0x1_0000_0000 + Value(WordBytes(n));
  }

  lemma WordDigits(a: nat, b: nat, c: nat, d: nat, n: nat)
    requires a < 256 && b < 256 && c < 256 && d < 256 && n == a * 0x100_0000 + b * 0x1_0000 + c * 0x100 + d
    ensures n / 0x100_0000 % 256 == a && n / 0x1_0000 % 256 == b && n / 0x100 % 256 == c && n % 256 == d
    ensures n <= UINT32_MAX
  {
    assert n / 0x100 == a * 0x1_0000 + b * 0x100 + c;
    assert n / 0x1_0000 == a * 0x100 + b;
    assert n / 0x100_0000 == a;
  }

  /** The bytes of a word are determined by its value. */
  lemma WordOf(s: Bytes)
    requires |s| == 4
    ensures WordBytes(Value(s)) == s && Value(s) <= UINT32_MAX
  {
    FourBytes(s);
    var n := Value(s);
    hide Value;
    WordDigits(s[0], s[1], s[2], s[3], n);
    assert s == [s[0], s[1], s[2], s[3]];
  }

  // ---------------------------------------------------------------- integers

  function Zeros(n: nat): (s: Bytes)
    ensures |s| == n
  {
    seq(n, _ => 0)
  }

  /** An integer as it appears on the wire: its size, then its bytes; a single zero byte for 0. */
  function Wire(v: nat): Bytes {
    WordBytes(ByteSize(v)) + Body(v)
  }

  function Body(v: nat): Bytes {
    if v == 0 then [0] else Magnitude(v)
  }

  lemma BodyOf(v: nat)
    ensures |Body(v)| == ByteSize(v) && Value(Body(v)) == v
  {
    if v > 0 {
      SizesAgree(v);
      ValueOfMagnitude(v);
    } else {
      assert Body(0)[..0] == [];
    }
  }

  function WireAll(vs: seq<nat>): Bytes {
    if vs == [] then [] else Wire(vs[0]) + WireAll(vs[1..])
  }

  /** appendInteger: room for the size and the bytes, then both are written into it. */
  method AppendInteger(output: Bytes, v: nat) returns (r: Result<Bytes, CodecError>)
    ensures r.Success? <==> ByteSize(v) <= UINT32_MAX && |output| + 4 + ByteSize(v) <= SIZE_MAX
    ensures r.Success? ==> r.value == output + Wire(v)
  {
    var size := ByteSize(v);
    if size == 0 || size > UINT32_MAX || |output| > SIZE_MAX - 4 - size {
      return Failure(IntegerTooLarge);
    }
    var grown := output + Zeros(4 + size);
    var word, bytes := WordBytes(size), Magnitude(v);
    if v > 0 {
      SizesAgree(v);
    }
    grown := grown[..|output|] + word + grown[|output| + 4..];
    grown := grown[..|output| + 4] + bytes + grown[|output| + 4 + |bytes|..];
    r := Success(grown);
  }

  /** takeInteger: the value and the offset behind it. */
  method TakeInteger(input: Bytes, offset: nat) returns (r: Result<nat, CodecError>, next: nat)
    ensures (r, next) == Taken(input, offset)
  {
    if offset + 4 > |input| {
      return Failure(ShortInteger), offset;
    }
    var size := Value(input[offset..offset + 4]);
    next := offset + 4;
    if size == 0 || size > |input| - next {
      return Failure(BadInteger), next;
    }
    r := Success(Value(input[next..next + size]));
    next := next + size;
  }

  function Taken(input: Bytes, offset: nat): (Result<nat, CodecError>, nat) {
    if offset + 4 > |input| then (Failure(ShortInteger), offset) else
      var size := Value(input[offset..offset + 4]);
      if size == 0 || size > |input| - (offset + 4) then (Failure(BadInteger), offset + 4)
      else (Success(Value(input[offset + 4..offset + 4 + size])), offset + 4 + size)
  }

  /** Exactly what taking an integer gives, and where it leaves the offset. */
  lemma TakenExactly(input: Bytes, offset: nat)
    ensures |input| < offset + 4 ==> Taken(input, offset) == (Failure(ShortInteger), offset)
    ensures offset + 4 <= |input| ==>
      var size := Value(input[offset..offset + 4]);
      if size == 0 || |input| < offset + 4 + size then Taken(input, offset) == (Failure(BadInteger), offset + 4)
      else Taken(input, offset) == (Success(Value(input[offset + 4..offset + 4 + size])), offset + 4 + size)
  {
    hide Value;
  }

  /** count integers in a row, with the offset behind the last. */
  function TakenAll(input: Bytes, offset: nat, count: nat): Option<(seq<nat>, nat)>
    decreases count
  {
    if count == 0 then Some(([], offset)) else
      var first := Taken(input, offset);
      if first.0.Failure? then None else
        var rest := TakenAll(input, first.1, count - 1);
        if rest.None? then None else Some(([first.0.value] + rest.value.0, rest.value.1))
  }

  /** An integer is read back wherever it was written. */
  lemma TakesBack(prefix: Bytes, v: nat, suffix: Bytes)
    requires ByteSize(v) <= UINT32_MAX
    ensures Taken(prefix + Wire(v) + suffix, |prefix|) == (Success(v), |prefix| + |Wire(v)|)
  {
    hide Taken, WordBytes, Value, Body;
    BodyOf(v);
    WordValue(ByteSize(v));
    assert 0 < ByteSize(v);
    hide ByteSize;
    TakesAt(prefix, WordBytes(ByteSize(v)), Body(v), suffix);
  }

  lemma TakesAt(prefix: Bytes, word: Bytes, body: Bytes, suffix: Bytes)
    requires |word| == 4 && 0 < |body| == Value(word)
    ensures Taken(prefix + (word + body) + suffix, |prefix|) == (Success(Value(body)), |prefix| + |word + body|)
  {
    hide Value;
    var input, o := prefix + (word + body) + suffix, |prefix|;
    assert input[o..o + 4] == word;
    assert input[o + 4..o + 4 + |body|] == body;
  }

  /** Any list of integers is read back in order, with the offset at its end. */
  lemma {:induction false} TakesAllBack(prefix: Bytes, vs: seq<nat>, suffix: Bytes)
    requires forall i :: 0 <= i < |vs| ==> ByteSize(vs[i]) <= UINT32_MAX
    ensures TakenAll(prefix + WireAll(vs) + suffix, |prefix|, |vs|) == Some((vs, |prefix| + |WireAll(vs)|))
    decreases |vs|
  {
    hide Wire, Taken;
    if vs != [] {
      var first := Wire(vs[0]);
      TakesBack(prefix, vs[0], WireAll(vs[1..]) + suffix);
      TakesAllBack(prefix + first, vs[1..], suffix);
      assert prefix + WireAll(vs) + suffix == prefix + first + (WireAll(vs[1..]) + suffix)
          == (prefix + first) + WireAll(vs[1..]) + suffix;
      assert vs == [vs[0]] + vs[1..];
    }
  }

  // ---------------------------------------------------------------- canonical ciphertexts

  /** "SOCI", version 1, type 1, the mode, and a zero. */
  function Header(mode: Byte): Bytes {
    [83, 79, 67, 73, 1, 1, mode, 0]
  }

  /** encodeCanonicalCiphertext; the length field keeps the low 32 bits of the size. */
  function Encode(mode: Byte, v: nat): Result<Bytes, CodecError> {
    if |Magnitude(v)| != ByteSize(v) then Failure(ExportFailed)
    else Success(Header(mode) + WordBytes(ByteSize(v)) + Magnitude(v))
  }

  /** decodeCanonicalCiphertext */
  function Decode(data: Bytes, mode: Byte): Result<nat, CodecError> {
    if |data| < 12 || data[..8] != Header(mode) then Failure(BadHeader)
    else if Value(data[8..12]) != |data| - 12 then Failure(BadLength)
    else if Value(data[8..12]) == 0 || data[12] == 0 then Failure(NotCanonical)
    else Success(Value(data[12..]))
  }

  /** The bytes of an encoding: the letters SOCI, 1, 1, the mode, 0, the size in four bytes, the magnitude. */
  lemma EncodesTo(mode: Byte, v: nat)
    requires v > 0
    ensures Encode(mode, v).Success?
    ensures var data := Encode(mode, v).value;
      && |data| == 12 + ByteSize(v)
      && data[0] == 'S' as Byte && data[1] == 'O' as Byte && data[2] == 'C' as Byte && data[3] == 'I' as Byte
      && data[4] == 1 && data[5] == 1 && data[6] == mode && data[7] == 0
      && Value(data[8..12]) == ByteSize(v) % 0x1_0000_0000
      && data[12] != 0 && Value(data[12..]) == v
  {
    SizesAgree(v);
    WordValue(ByteSize(v));
    ValueOfMagnitude(v);
    var data := Encode(mode, v).value;
    assert data[8..12] == WordBytes(ByteSize(v)) && data[12..] == Magnitude(v);
  }

  /** Values are written most significant byte first. */
  lemma ValueIsBigEndian(bs: Bytes, b: Byte)
    ensures Value([]) == 0 && Value(bs + [b]) == 256 * Value(bs) + b as int
  {
    assert (bs + [b])[..|bs|] == bs;
  }

  /** Exactly which bytes are refused, and why: header, then length, then form. */
  lemma DecodeRefuses(data: Bytes, mode: Byte)
    ensures var named := 12 <= |data|
      && data[0] == 'S' as Byte && data[1] == 'O' as Byte && data[2] == 'C' as Byte && data[3] == 'I' as Byte
      && data[4] == 1 && data[5] == 1 && data[6] == mode && data[7] == 0;
      && (Decode(data, mode) == Failure(BadHeader) <==> !named)
      && (Decode(data, mode) == Failure(BadLength) <==> named && Value(data[8..12]) != |data| - 12)
      && (Decode(data, mode) == Failure(NotCanonical) <==>
            named && Value(data[8..12]) == |data| - 12 && (|data| == 12 || data[12] == 0))
      && (Decode(data, mode).Success? <==> named && Value(data[8..12]) == |data| - 12 && 12 < |data| && data[12] != 0)
  {
    hide Value;
    if 12 <= |data| {
      assert data[..8] == Header(mode) <==> forall i :: 0 <= i < 8 ==> data[i] == Header(mode)[i];
    }
  }

  /** Decoding inverts encoding exactly for the positive values whose size fits the length field. */
  lemma DecodesBack(mode: Byte, v: nat)
    ensures Encode(mode, v).Success? <==> v > 0
    ensures v > 0 ==> (Decode(Encode(mode, v).value, mode) == Success(v) <==> ByteSize(v) <= UINT32_MAX)
  {
    if v > 0 {
      SizesAgree(v);
      WordValue(ByteSize(v));
      ValueOfMagnitude(v);
      WordFits(ByteSize(v));
      hide Value, WordBytes, ByteSize, Decode;
      DecodesParts(mode, WordBytes(ByteSize(v)), Magnitude(v));
    }
  }

  lemma WordFits(n: nat)
    ensures n % 0x1_0000_0000 == n <==> n <= UINT32_MAX
  {
  }

  lemma DecodesParts(mode: Byte, word: Bytes, body: Bytes)
    requires |word| == 4 && body != [] && body[0] != 0
    ensures Decode(Header(mode) + word + body, mode)
         == if Value(word) == |body| then Success(Value(body)) else Failure(BadLength)
  {
    hide Value;
    var data := Header(mode) + word + body;
    assert data[..8] == Header(mode) && data[8..12] == word && data[12..] == body;
  }

  /** What is accepted is what encoding its value produces: every value has one encoding. */
  lemma AcceptsOnlyCanonical(data: Bytes, mode: Byte)
    requires Decode(data, mode).Success?
    ensures var v := Decode(data, mode).value; v > 0 && Encode(mode, v) == Success(data)
  {
    var body := data[12..];
    var v := Value(body);
    MagnitudeOfValue(body);
    LeadingByte(body);
    SizesAgree(v);
    WordOf(data[8..12]);
    assert data == data[..8] + data[8..12] + body;
  }

  // ---------------------------------------------------------------- frames

  /** A socket that takes as much of each message as the next of its grants says. */
  class Socket {
    const grants: seq<nat>
    var calls: nat
    var wire: Bytes
    var refused: bool

    constructor (grants: seq<nat>)
      ensures this.grants == grants && calls == 0 && wire == [] && !refused
    {
      this.grants := grants;
      calls, wire, refused := 0, [], false;
    }

    /** The bytes that the socket takes before it refuses. */
    ghost function Room(): nat
      reads this`calls
    {
      GrantsFrom(grants, calls)
    }

    /** sendmsg: some of the data goes out, or nothing and the call fails. */
    method SendMessage(data: Bytes) returns (sent: int)
      modifies this
      ensures sent <= |data|
      ensures if sent <= 0 then refused && wire == old(wire) else refused == old(refused) && wire == old(wire) + data[..sent]
      ensures data != [] ==> (sent <= 0 <==> old(Room()) == 0)
      ensures 0 < sent < |data| ==> old(Room()) == sent + Room()
      ensures 0 < sent == |data| ==> |data| <= old(Room())
    {
      if calls >= |grants| || grants[calls] == 0 || data == [] {
        refused := true;
        return -1;
      }
      sent := if grants[calls] < |data| then grants[calls] else |data|;
      calls := calls + 1;
      wire := wire + data[..sent];
    }
  }

  /** The sum of the grants from a call on, up to the first that is 0. */
  ghost function GrantsFrom(grants: seq<nat>, from: nat): nat
    decreases |grants| - from
  {
    if from >= |grants| || grants[from] == 0 then 0 else grants[from] + GrantsFrom(grants, from + 1)
  }

  function Frame(payload: Bytes): Bytes {
    WordBytes(|payload|) + payload
  }

  /** What the two vectors still hold from index on. */
  function Pending(vectors: seq<Bytes>, index: nat): Bytes
    requires |vectors| == 2
  {
    if index == 0 then vectors[0] + vectors[1] else if index == 1 then vectors[1] else []
  }

  /**
   sendFrame: whatever part of each message the socket takes, header and payload go out once and in
   order. An oversized payload is refused before anything goes out; any other is sent exactly when the
   socket takes as many bytes as the frame has.
   */
  method SendFrame(socket: Socket, payload: Bytes) returns (r: Result<(), CodecError>)
    modifies socket
    ensures UINT32_MAX < |payload| ==>
      r == Failure(FrameTooLarge) && socket.wire == old(socket.wire) && socket.refused == old(socket.refused)
    ensures |payload| <= UINT32_MAX ==>
      if |Frame(payload)| <= old(socket.Room()) then
        r == Success(()) && socket.wire == old(socket.wire) + Frame(payload) && socket.refused == old(socket.refused)
      else r == Failure(SocketClosed) && socket.refused
    ensures exists n :: 0 <= n <= |Frame(payload)| && socket.wire == old(socket.wire) + Frame(payload)[..n]
  {
    ghost var start, frame := socket.wire, Frame(payload);
    if |payload| > UINT32_MAX {
      assert frame[..0] == [] && socket.wire == start + frame[..0];
      return Failure(FrameTooLarge);
    }
    var vectors := [WordBytes(|payload|), payload];
    var index := 0;
    ghost var gone, room := 0, socket.Room();
    while index < 2
      invariant 0 <= index <= 2 && |vectors| == 2 && (index < 2 ==> Pending(vectors, index) != [])
      invariant 0 <= gone <= |frame| && Pending(vectors, index) == frame[gone..]
      invariant socket.wire == start + frame[..gone] && socket.refused == old(socket.refused)
      invariant if gone < |frame| then room == gone + socket.Room() else |frame| <= room
      decreases |frame| - gone
    {
      var data := Pending(vectors, index);
      var sent := socket.SendMessage(data);
      if sent <= 0 {
        return Failure(SocketClosed);
      }
      assert frame[..gone] + data[..sent] == frame[..gone + sent];
      gone := gone + sent;
      vectors, index := Advance(vectors, index, sent);
      assert data[sent..] == frame[gone..];
    }
    assert gone == |frame| && frame[..gone] == frame;
    r := Success(());
  }

  /** Drop what was sent from the front of the vectors. */
  method Advance(before: seq<Bytes>, first: nat, sent: nat) returns (vectors: seq<Bytes>, index: nat)
    requires |before| == 2 && first < 2 && sent <= |Pending(before, first)|
    ensures |vectors| == 2 && first <= index <= 2
    ensures Pending(vectors, index) == Pending(before, first)[sent..]
    ensures index < 2 ==> Pending(vectors, index) != []
  {
    vectors, index := before, first;
    var remaining := sent;
    while index < 2 && remaining >= |vectors[index]|
      invariant first <= index <= 2 && 0 <= remaining <= |Pending(vectors, index)|
      invariant Pending(vectors, index)[remaining..] == Pending(before, first)[sent..]
    {
      remaining := remaining - |vectors[index]|;
      index := index + 1;
    }
    if index < 2 && remaining != 0 {
      vectors := vectors[index := vectors[index][remaining..]];
    }
  }

  /** receiveFrame on everything the peer has sent: the payload and what follows it. */
  function Received(stream: Bytes): Result<(Bytes, Bytes), CodecError> {
    if |stream| < 4 then Failure(SocketClosed) else
      var size := Value(stream[..4]);
      if size > FRAME_LIMIT then Failure(FrameTooLarge)
      else if size > |stream| - 4 then Failure(SocketClosed)
      else Success((stream[4..4 + size], stream[4 + size..]))
  }

  /** Exactly what a stream gives: the length in four bytes, at most 4 MiB, and as many bytes. */
  lemma ReceivedExactly(stream: Bytes)
    ensures |stream| < 4 ==> Received(stream) == Failure(SocketClosed)
    ensures 4 <= |stream| ==>
      var size := Value(stream[..4]);
      && (size > 4 * 1024 * 1024 ==> Received(stream) == Failure(FrameTooLarge))
      && (size <= 4 * 1024 * 1024 && |stream| < 4 + size ==> Received(stream) == Failure(SocketClosed))
      && (size <= 4 * 1024 * 1024 && 4 + size <= |stream| ==>
            Received(stream) == Success((stream[4..4 + size], stream[4 + size..])))
  {
    hide Value;
  }

  /** A sent frame is received whole exactly when it is within the receiver's limit, below the sender's. */
  lemma FrameReceived(payload: Bytes, suffix: Bytes)
    requires |payload| <= UINT32_MAX
    ensures |payload| <= FRAME_LIMIT <==> Received(Frame(payload) + suffix) == Success((payload, suffix))
    ensures |payload| > FRAME_LIMIT ==> Received(Frame(payload) + suffix) == Failure(FrameTooLarge)
  {
    WordValue(|payload|);
    hide Value, WordBytes;
    var stream := Frame(payload) + suffix;
    assert stream[..4] == WordBytes(|payload|);
    assert stream[4..4 + |payload|] == payload && stream[4 + |payload|..] == suffix;
  }
}
