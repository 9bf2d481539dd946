/**
 The MQTT field encodings of packet_datatypes.c, on byte sequences.

 For each field there is a writer `Put...` and a reader `Get...`, and a lemma saying
 that the reader accepts exactly what the writer produces.
 */
module Wire {

  type byte = x: int | 0 <= x < 256
  type uint16 = x: int | 0 <= x < 0x1_0000
  type uint32 = x: int | 0 <= x < 0x1_0000_0000

  const VARINT_LIMIT := 0x1000_0000

  datatype Rc =
    | Success
    | MalformedPacket
    | MalformedUtf8
    | Protocol
    | DuplicateProperty
    | PayloadSize
    | OversizePacket
    | Inval

  /** The result of a reader: the value and the bytes that follow it. */
  datatype Parse<+T> = Parsed(value: T, rest: seq<byte>) | Failed(rc: Rc) {
    predicate IsFailure() { Failed? }
    function PropagateFailure<U>(): Parse<U> requires Failed? { Failed(rc) }
    function Extract(): (T, seq<byte>) requires Parsed? { (value, rest) }
  }

  /** Unsigned 32-bit subtraction, which wraps around. */
  function Sub32(a: uint32, b: uint32): uint32 {
    if a >= b then a - b else a - b + 0x1_0000_0000
  }

  lemma Sub32Twice(a: uint32, b: uint32, c: uint32)
    requires b + c < 0x1_0000_0000
    ensures Sub32(Sub32(a, b), c) == Sub32(a, b + c)
  {
  }

  // ----- Fixed-width integers

  function GetByte(s: seq<byte>): Parse<byte> {
    if |s| < 1 then Failed(MalformedPacket) else Parsed(s[0], s[1..])
  }

  function Word(msb: int, lsb: int): int {
    msb * 0x100 + lsb
  }

  function PutUint16(w: uint16): (s: seq<byte>)
    ensures |s| == 2
  {
    [w / 0x100, w % 0x100]
  }

  function GetUint16(s: seq<byte>): Parse<uint16> {
    if |s| < 2 then Failed(MalformedPacket) else Parsed(Word(s[0], s[1]), s[2..])
  }

  lemma Uint16Exact(s: seq<byte>, w: uint16, rest: seq<byte>)
    ensures GetUint16(s) == Parsed(w, rest) <==> s == PutUint16(w) + rest
  {
    if |s| >= 2 {
      assert s == [s[0], s[1]] + s[2..];
    }
  }

  function PutUint32(w: uint32): (s: seq<byte>)
    ensures |s| == 4
  {
    [w / 0x100 / 0x100 / 0x100, w / 0x100 / 0x100 % 0x100, w / 0x100 % 0x100, w % 0x100]
  }

  function GetUint32(s: seq<byte>): Parse<uint32> {
    if |s| < 4 then Failed(MalformedPacket)
    else Parsed(Word(Word(Word(Word(0, s[0]), s[1]), s[2]), s[3]), s[4..])
  }

  lemma Uint32Exact(s: seq<byte>, w: uint32, rest: seq<byte>)
    ensures GetUint32(s) == Parsed(w, rest) <==> s == PutUint32(w) + rest
  {
    if GetUint32(s) == Parsed(w, rest) {
      assert s[..4] == PutUint32(w);
      assert s == s[..4] + s[4..];
    }
  }

  // ----- Variable byte integers, section 1.5.5 of MQTT v5.0

  function PutVarint(n: nat): (s: seq<byte>)
    ensures |s| >= 1
  {
    if n < 128 then [n] else [n % 128 + 128] + PutVarint(n / 128)
  }

  /** packet__varint_bytes */
  function VarintBytes(n: uint32): (bytes: nat)
    ensures bytes <= 4 <==> n < VARINT_LIMIT
  {
    if n < 128 then 1 else if n < 0x4000 then 2 else if n < 0x20_0000 then 3 else if n < VARINT_LIMIT then 4 else 5
  }

  lemma VarintSize(n: uint32)
    ensures |PutVarint(n)| == VarintBytes(n)
  {
    assert |PutVarint(n / 128)| == if n < 128 then 1 else VarintBytes(n) - 1 by {
      var a, b, c := n / 128, n / 128 / 128, n / 128 / 128 / 128;
      assert |PutVarint(c / 128)| == 1;
      assert |PutVarint(c)| == if c < 128 then 1 else 2;
      assert |PutVarint(b)| == if b < 128 then 1 else if b < 0x4000 then 2 else 3;
    }
  }

  function Power128(k: nat): (p: nat)
    ensures p >= 1
  {
    if k == 0 then 1 else 128 * Power128(k - 1)
  }

  /** `left` digits may still be read; all but the first digit of an encoding must not be a final zero. */
  function GetDigits(s: seq<byte>, left: nat, first: bool): (r: Parse<nat>)
    ensures r.Parsed? ==> r.value < Power128(left)
    decreases left
  {
    if left == 0 || s == [] then Failed(MalformedPacket)
    else if s[0] >= 128 then
      var (high, rest) :- GetDigits(s[1..], left - 1, false);
      Parsed(s[0] - 128 + 128 * high, rest)
    else if !first && s[0] == 0 then Failed(MalformedPacket)
    else Parsed(s[0], s[1..])
  }

  function GetVarint(s: seq<byte>): (r: Parse<nat>)
    ensures r.Parsed? ==> r.value < VARINT_LIMIT
  {
    assert Power128(4) == 128 * Power128(3) == VARINT_LIMIT;
    GetDigits(s, 4, true)
  }

  /** What is read is the shortest encoding of the value returned. */
  lemma {:induction false} DigitsSound(s: seq<byte>, left: nat, first: bool)
    ensures var r := GetDigits(s, left, first);
            r.Parsed? ==> (first || r.value > 0) && s == PutVarint(r.value) + r.rest
    decreases left
  {
    if left > 0 && s != [] && s[0] >= 128 {
      DigitsSound(s[1..], left - 1, false);
    }
  }

  /** The shortest encoding of any value that fits is read back. */
  lemma {:induction false} DigitsComplete(n: nat, left: nat, first: bool, rest: seq<byte>)
    requires n < Power128(left) && (first || n > 0) && left > 0
    ensures GetDigits(PutVarint(n) + rest, left, first) == Parsed(n, rest)
    decreases left
  {
    var s := PutVarint(n) + rest;
    if n < 128 {
      assert s[1..] == rest;
    } else {
      assert s[1..] == PutVarint(n / 128) + rest;
      DigitsComplete(n / 128, left - 1, false, rest);
    }
  }

  /** Values below 2^28 and their shortest encodings are in bijection; nothing else is read. */
  lemma VarintExact(s: seq<byte>, n: nat, rest: seq<byte>)
    ensures GetVarint(s) == Parsed(n, rest) <==> n < VARINT_LIMIT && s == PutVarint(n) + rest
  {
    assert Power128(4) == 128 * Power128(3) == VARINT_LIMIT;
    DigitsSound(s, 4, true);
    if n < VARINT_LIMIT {
      DigitsComplete(n, 4, true, rest);
    }
  }

  // ----- Length-prefixed fields

  function PutBinary(d: seq<byte>): (s: seq<byte>)
    requires |d| < 0x1_0000
    ensures |s| == 2 + |d|
  {
    PutUint16(|d|) + d
  }

  function GetBinary(s: seq<byte>): (r: Parse<seq<byte>>)
    ensures r.Parsed? ==> |r.value| < 0x1_0000
  {
    var (len, rest) :- GetUint16(s);
    if len > |rest| then Failed(MalformedPacket) else Parsed(rest[..len], rest[len..])
  }

  lemma BinaryExact(s: seq<byte>, d: seq<byte>, rest: seq<byte>)
    ensures GetBinary(s) == Parsed(d, rest) <==> |d| < 0x1_0000 && s == PutBinary(d) + rest
  {
    hide PutUint16, GetUint16;
    match GetUint16(s)
    case Failed(_) =>
      if |d| < 0x1_0000 && s == PutBinary(d) + rest {
        assert s == PutUint16(|d|) + (d + rest);
        Uint16Exact(s, |d|, d + rest);
      }
    case Parsed(len, tail) =>
      Uint16Exact(s, len, tail);
      if GetBinary(s) == Parsed(d, rest) {
        assert tail == d + rest;
        assert s == PutUint16(len) + d + rest;
      }
      if |d| < 0x1_0000 && s == PutBinary(d) + rest {
        assert s == PutUint16(|d|) + (d + rest);
        Uint16Exact(s, |d|, d + rest);
      }
  }

  function GetString(s: seq<byte>): (r: Parse<seq<byte>>)
    ensures r.Parsed? ==> |r.value| < 0x1_0000
  {
    var (d, rest) :- GetBinary(s);
    if ValidUtf8(d) then Parsed(d, rest) else Failed(MalformedUtf8)
  }

  lemma StringExact(s: seq<byte>, d: seq<byte>, rest: seq<byte>)
    ensures GetString(s) == Parsed(d, rest) <==> |d| < 0x1_0000 && ValidUtf8(d) && s == PutBinary(d) + rest
  {
    BinaryExact(s, d, rest);
  }

  // ----- utf8_mosq.c

  /** Number of bytes announced by a lead byte; 0 for a byte that cannot lead. */
  function LeadLength(b: byte): nat {
    if b == 0 then 0
    else if b <= 0x7F then 1
    else if b < 0xC2 then 0
    else if b < 0xE0 then 2
    else if b < 0xF0 then 3
    else if b <= 0xF4 then 4
    else 0
  }

  function LeadBits(b: int): int {
    if b <= 0x7F then b else if b < 0xE0 then b - 0xC0 else if b < 0xF0 then b - 0xE0 else b - 0xF0
  }

  predicate Continuation(b: byte) {
    0x80 <= b < 0xC0
  }

  function Codepoint(s: seq<int>, acc: int): int {
    if s == [] then acc else Codepoint(s[1..], acc * 64 + s[0] - 0x80)
  }

  /** The code points the validator lets through, given the length they were written with. */
  predicate AllowedCodepoint(c: int, len: nat) {
    && !(0xD800 <= c <= 0xDFFF)
    && (len == 3 ==> c >= 0x800)
    && (len == 4 ==> 0x1_0000 <= c <= 0x10_FFFF)
    && !(0xFDD0 <= c <= 0xFDEF)
    && c % 0x1_0000 != 0xFFFE && c % 0x1_0000 != 0xFFFF
    && c > 0x1F && !(0x7F <= c <= 0x9F)
  }

  predicate ValidUtf8(s: seq<byte>)
    decreases |s|
  {
    s == [] ||
    var len := LeadLength(s[0]);
    && 0 < len <= |s|
    && (forall i :: 1 <= i < len ==> Continuation(s[i]))
    && AllowedCodepoint(Codepoint(s[1..len], LeadBits(s[0])), len)
    && ValidUtf8(s[len..])
  }
}
