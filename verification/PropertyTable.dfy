/**
 The properties of MQTT v5.0 (section 2.2.2.2) byte by byte: which bytes stand for which
 property, without the readers, the writers or the table they share.
 */
module PropertyTable {
  import opened Wire
  import P = Property

  // ----- What the bytes mean

  /** A 16-bit length, most significant byte first, and as many bytes. */
  predicate FieldBytes(d: seq<int>, w: seq<int>) {
    |w| >= 2 && |d| == 256 * w[0] + w[1] && w == [w[0], w[1]] + d
  }

  predicate WordBytes(n: int, w: seq<int>) {
    |w| == 2 && n == 256 * w[0] + w[1]
  }

  predicate LongBytes(n: int, w: seq<int>) {
    |w| == 4 && n == 16777216 * w[0] + 65536 * w[1] + 256 * w[2] + w[3]
  }

  /** Base 128, least significant digit first; every digit but the last one has its top bit set. */
  predicate DigitBytes(n: nat, w: seq<int>) {
    || (|w| == 1 && w[0] < 128 && n == w[0])
    || (|w| == 2 && w[0] >= 128 && 1 <= w[1] < 128 && n == w[0] - 128 + 128 * w[1])
    || (|w| == 3 && w[0] >= 128 && w[1] >= 128 && 1 <= w[2] < 128
        && n == w[0] - 128 + 128 * (w[1] - 128) + 16384 * w[2])
    || (|w| == 4 && w[0] >= 128 && w[1] >= 128 && w[2] >= 128 && 1 <= w[3] < 128
        && n == w[0] - 128 + 128 * (w[1] - 128) + 16384 * (w[2] - 128) + 2097152 * w[3])
  }

  /** `w` are the bytes of the value of the property with this identifier. */
  predicate ValueBytes(id: nat, v: P.Value, w: seq<int>) {
    match v
    case I8(n) => id in {1, 23, 25, 36, 37, 40, 41, 42} && w == [n]
    case I16(n) => id in {19, 33, 34, 35} && WordBytes(n, w)
    case I32(n) => id in {2, 17, 24, 39} && LongBytes(n, w)
    case Var(n) => id == 11 && DigitBytes(n, w)
    case Bin(d) => id in {9, 22} && FieldBytes(d, w)
    case Str(d) => id in {3, 8, 18, 21, 26, 28, 31} && FieldBytes(d, w) && ValidUtf8(d)
    case Pair(name, d) =>
      && id == 38 && ValidUtf8(name) && ValidUtf8(d)
      && |w| >= 2 + |name| && FieldBytes(name, w[..2 + |name|]) && FieldBytes(d, w[2 + |name|..])
  }

  /** `w` are the bytes of the property: its identifier in one byte, then its value. */
  predicate OnWire(p: P.Property, w: seq<int>) {
    w != [] && w[0] == p.identifier && ValueBytes(p.identifier, p.value, w[1..])
  }

  // ----- The field readers

  lemma FieldWritten(d: seq<byte>, w: seq<byte>)
    ensures FieldBytes(d, w) <==> |d| < 0x1_0000 && w == PutBinary(d)
  {
    if |w| >= 2 && |d| < 0x1_0000 {
      assert PutBinary(d)[0] == |d| / 0x100 && PutBinary(d)[1] == |d| % 0x100;
    }
  }

  lemma WordWritten(n: uint16, w: seq<byte>)
    ensures w == PutUint16(n) <==> WordBytes(n, w)
  {
  }

  lemma LongWritten(n: uint32, w: seq<byte>)
    ensures w == PutUint32(n) <==> LongBytes(n, w)
  {
    if |w| == 4 {
      FourDigits(n, w[0], w[1], w[2], w[3]);
    }
  }

  lemma FourDigits(n: nat, a: nat, b: nat, c: nat, d: nat)
    requires b < 256 && c < 256 && d < 256
    ensures n == 16777216 * a + 65536 * b + 256 * c + d
            <==> n / 256 / 256 / 256 == a && n / 256 / 256 % 256 == b && n / 256 % 256 == c && n % 256 == d
  {
    var n1 := n / 256;
    var n2 := n1 / 256;
    assert n == 256 * n1 + n % 256 && n1 == 256 * n2 + n1 % 256 && n2 == 256 * (n2 / 256) + n2 % 256;
  }

  lemma DigitsWritten(n: nat, w: seq<byte>)
    ensures DigitBytes(n, w) <==> n < VARINT_LIMIT && w == PutVarint(n)
  {
    if DigitBytes(n, w) {
      DigitsAre(n, w);
    } else if n < VARINT_LIMIT && w == PutVarint(n) {
      VarintSize(n);
      DigitsOf(n);
    }
  }

  lemma Quotient(n: nat, low: nat, high: nat)
    requires low < 128 && n == low + 128 * high
    ensures n / 128 == high && n % 128 == low
  {
  }

  /** The first digit is the remainder, the other digits are those of the quotient. */
  lemma FirstDigit(n: nat, w: seq<byte>)
    requires DigitBytes(n, w) && |w| >= 2
    ensures w[0] == n % 128 + 128 && n >= 128 && DigitBytes(n / 128, w[1..])
  {
    var a: int := w[0];
    var b: int := w[1];
    var t: seq<int> := w[1..];
    assert t[0] == b && |t| == |w| - 1;
    if |w| == 2 {
      Quotient(n, a - 128, b);
    } else if |w| == 3 {
      var c: int := w[2];
      assert t[1] == c;
      Quotient(n, a - 128, b - 128 + 128 * c);
    } else {
      var c: int, d: int := w[2], w[3];
      assert t[1] == c && t[2] == d;
      Quotient(n, a - 128, b - 128 + 128 * (c - 128) + 16384 * d);
    }
  }

  lemma {:induction false} DigitsAre(n: nat, w: seq<byte>)
    requires DigitBytes(n, w)
    ensures n < VARINT_LIMIT && w == PutVarint(n)
    decreases |w|
  {
    DigitsBound(n, w);
    hide DigitBytes;
    if |w| >= 2 {
      FirstDigit(n, w);
      DigitsAre(n / 128, w[1..]);
      assert w == [w[0]] + w[1..];
    } else {
      LastDigit(n, w);
    }
  }

  lemma LastDigit(n: nat, w: seq<byte>)
    requires DigitBytes(n, w) && |w| < 2
    ensures n < 128 && w == [n]
  {
  }

  lemma DigitsBound(n: nat, w: seq<byte>)
    requires DigitBytes(n, w)
    ensures n < VARINT_LIMIT
  {
  }

  lemma {:induction false} DigitsOf(n: nat)
    requires n < VARINT_LIMIT
    ensures DigitBytes(n, PutVarint(n))
  {
    if n >= 128 {
      DigitsOf(n / 128);
    }
  }

  lemma PairWritten(name: seq<byte>, d: seq<byte>, w: seq<byte>)
    requires |name| < 0x1_0000 && |d| < 0x1_0000
    ensures |w| >= 2 + |name| && FieldBytes(name, w[..2 + |name|]) && FieldBytes(d, w[2 + |name|..])
            <==> w == PutBinary(name) + PutBinary(d)
  {
    hide PutBinary, FieldBytes;
    var n := 2 + |name|;
    if |w| >= n {
      FieldWritten(name, w[..n]);
      FieldWritten(d, w[n..]);
      assert w == w[..n] + w[n..];
    }
  }

  // ----- The table

  lemma ValueWritten(p: P.Property, w: seq<byte>)
    ensures ValueBytes(p.identifier, p.value, w) <==> P.Encodable(p) && w == P.PutValue(p.value)
  {
    hide FieldBytes, DigitBytes, WordBytes, LongBytes, PutBinary, PutVarint, PutUint16, PutUint32, ValidUtf8;
    match p.value
    case I8(n) =>
    case I16(n) => WordWritten(n, w);
    case I32(n) => LongWritten(n, w);
    case Var(n) => DigitsWritten(n, w);
    case Bin(d) => FieldWritten(d, w);
    case Str(d) => FieldWritten(d, w);
    case Pair(name, d) =>
      if |name| < 0x1_0000 && |d| < 0x1_0000 {
        PairWritten(name, d, w);
      } else if |w| >= 2 + |name| {
        FieldWritten(name, w[..2 + |name|]);
        FieldWritten(d, w[2 + |name|..]);
      }
  }

  /** property__write puts these bytes on the wire, and a property can be written exactly when it has some. */
  lemma WritesTable(p: P.Property, w: seq<byte>)
    ensures OnWire(p, w) <==> P.Encodable(p) && w == P.Put(p)
  {
    hide ValueBytes, P.PutValue;
    if w != [] {
      ValueWritten(p, w[1..]);
      if w[0] == p.identifier {
        assert w == [w[0]] + w[1..];
      }
    }
    if P.Encodable(p) {
      SmallIdentifier(p);
      assert P.Put(p)[1..] == P.PutValue(p.value);
    }
    if OnWire(p, w) {
      ValueWritten(p, w[1..]);
      SmallIdentifier(p);
    }
  }

  lemma SmallIdentifier(p: P.Property)
    requires P.Encodable(p)
    ensures PutVarint(p.identifier) == [p.identifier]
  {
    assert P.KindOf(p.identifier) != P.Unsupported;
    assert p.identifier < 128;
  }

  /** property__read yields a property and a rest if and only if the input is the bytes of the one, then the other. */
  lemma ReadsTable(s: seq<byte>, p: P.Property, rest: seq<byte>)
    ensures P.Get(s) == Parsed(p, rest)
            <==> |rest| <= |s| && s[|s| - |rest|..] == rest && OnWire(p, s[..|s| - |rest|])
  {
    hide P.Get, P.Put, P.Encodable, OnWire;
    P.PropertyExact(s, p, rest);
    if |rest| <= |s| {
      var w := s[..|s| - |rest|];
      WritesTable(p, w);
      if s[|s| - |rest|..] == rest {
        assert s == w + rest;
      }
      if P.Encodable(p) && s == P.Put(p) + rest {
        assert w == P.Put(p);
      }
    }
  }

  // ----- Lists

  /** The properties one after the other. */
  predicate ItemsOnWire(ps: seq<P.Property>, w: seq<int>)
    decreases |ps|
  {
    if ps == [] then w == []
    else exists k :: 0 <= k <= |w| && OnWire(ps[0], w[..k]) && ItemsOnWire(ps[1..], w[k..])
  }

  /** A length of one to four digits, which counts the bytes behind it, and the properties. */
  predicate ListOnWire(ps: seq<P.Property>, w: seq<int>) {
    exists k :: 1 <= k <= 4 && k <= |w| && DigitBytes(|w| - k, w[..k]) && ItemsOnWire(ps, w[k..])
  }

  lemma {:induction false} ItemsWritten(ps: seq<P.Property>, w: seq<byte>)
    ensures ItemsOnWire(ps, w) <==> P.AllEncodable(ps) && w == P.PutAll(ps)
    decreases |ps|
  {
    hide OnWire, P.Encodable, P.Put;
    if ps != [] {
      if ItemsOnWire(ps, w) {
        var k :| 0 <= k <= |w| && OnWire(ps[0], w[..k]) && ItemsOnWire(ps[1..], w[k..]);
        WritesTable(ps[0], w[..k]);
        ItemsWritten(ps[1..], w[k..]);
        assert w == w[..k] + w[k..];
      }
      if P.AllEncodable(ps) && w == P.PutAll(ps) {
        var k := |P.Put(ps[0])|;
        assert w[..k] == P.Put(ps[0]) && w[k..] == P.PutAll(ps[1..]);
        WritesTable(ps[0], w[..k]);
        ItemsWritten(ps[1..], w[k..]);
      }
    }
  }

  /** property__write_all puts these bytes on the wire. */
  lemma WritesListTable(ps: seq<P.Property>, w: seq<byte>)
    ensures ListOnWire(ps, w) <==> P.AllEncodable(ps) && P.LengthAll(ps) < VARINT_LIMIT && w == P.PutList(ps)
  {
    hide ItemsOnWire, DigitBytes, P.AllEncodable, P.PutAll, P.LengthAll, PutVarint;
    if ListOnWire(ps, w) {
      var k :| 1 <= k <= 4 && k <= |w| && DigitBytes(|w| - k, w[..k]) && ItemsOnWire(ps, w[k..]);
      ItemsWritten(ps, w[k..]);
      P.PutAllLength(ps);
      DigitsWritten(|w| - k, w[..k]);
      assert w == w[..k] + w[k..];
    }
    if P.AllEncodable(ps) && P.LengthAll(ps) < VARINT_LIMIT && w == P.PutList(ps) {
      var k := |PutVarint(P.LengthAll(ps))|;
      VarintSize(P.LengthAll(ps));
      assert w[..k] == PutVarint(P.LengthAll(ps)) && w[k..] == P.PutAll(ps);
      P.PutAllLength(ps);
      DigitsWritten(P.LengthAll(ps), w[..k]);
      ItemsWritten(ps, w[k..]);
    }
  }

  /** property__read_all yields a list and a rest if and only if the body is the bytes of the one, then the other. */
  lemma ReadsListTable(command: int, s: seq<byte>, ps: seq<P.Property>, rest: seq<byte>)
    requires |s| < VARINT_LIMIT
    ensures P.ReadAll(command, s) == Parsed(ps, rest)
            <==> && |rest| <= |s| && s[|s| - |rest|..] == rest && ListOnWire(ps, s[..|s| - |rest|])
                 && P.CheckAll(command, ps) == Success
  {
    hide P.ReadAll, P.PutList, P.AllEncodable, P.LengthAll, P.CheckAll, ListOnWire;
    P.ReadAllExact(command, s, ps, rest);
    if |rest| <= |s| {
      var w := s[..|s| - |rest|];
      WritesListTable(ps, w);
      if s[|s| - |rest|..] == rest {
        assert s == w + rest;
      }
      if P.AllEncodable(ps) && s == P.PutList(ps) + rest {
        assert w == P.PutList(ps);
      }
    }
  }

  // ----- Row by row

  lemma OneByteRows(id: byte, a: byte, rest: seq<byte>)
    requires id in {1, 23, 25, 36, 37, 40, 41, 42}
    ensures P.Get([id, a] + rest) == Parsed(P.Property(id, P.I8(a)), rest)
  {
    Row(P.Property(id, P.I8(a)), [id, a], rest);
  }

  lemma TwoByteRows(id: byte, a: byte, b: byte, n: uint16, rest: seq<byte>)
    requires id in {19, 33, 34, 35} && WordBytes(n, [a, b])
    ensures P.Get([id, a, b] + rest) == Parsed(P.Property(id, P.I16(n)), rest)
  {
    assert [id, a, b][1..] == [a, b];
    Row(P.Property(id, P.I16(n)), [id, a, b], rest);
  }

  lemma FourByteRows(id: byte, a: byte, b: byte, c: byte, d: byte, n: uint32, rest: seq<byte>)
    requires id in {2, 17, 24, 39} && LongBytes(n, [a, b, c, d])
    ensures P.Get([id, a, b, c, d] + rest) == Parsed(P.Property(id, P.I32(n)), rest)
  {
    assert [id, a, b, c, d][1..] == [a, b, c, d];
    Row(P.Property(id, P.I32(n)), [id, a, b, c, d], rest);
  }

  lemma VarintRow(w: seq<byte>, n: uint32, rest: seq<byte>)
    requires DigitBytes(n, w)
    ensures P.Get([11] + w + rest) == Parsed(P.Property(11, P.Var(n)), rest)
  {
    assert ([11] + w)[1..] == w;
    Row(P.Property(11, P.Var(n)), [11] + w, rest);
  }

  lemma BinaryRows(id: byte, d: seq<byte>, w: seq<byte>, rest: seq<byte>)
    requires id in {9, 22} && FieldBytes(d, w)
    ensures P.Get([id] + w + rest) == Parsed(P.Property(id, P.Bin(d)), rest)
  {
    assert ([id] + w)[1..] == w;
    Row(P.Property(id, P.Bin(d)), [id] + w, rest);
  }

  /** A string that is not valid UTF-8 is refused with its own error. */
  lemma StringRows(id: byte, d: seq<byte>, w: seq<byte>, rest: seq<byte>)
    requires id in {3, 8, 18, 21, 26, 28, 31} && FieldBytes(d, w)
    ensures P.Get([id] + w + rest)
            == if ValidUtf8(d) then Parsed(P.Property(id, P.Str(d)), rest) else Failed(MalformedUtf8)
  {
    hide ValidUtf8, FieldBytes, GetBinary, PutBinary;
    var s := [id] + w + rest;
    assert s[1..] == w + rest;
    FieldWritten(d, w);
    BinaryExact(w + rest, d, rest);
    SmallVarint(s);
  }

  lemma PairRow(name: seq<byte>, d: seq<byte>, v: seq<byte>, w: seq<byte>, rest: seq<byte>)
    requires FieldBytes(name, v) && FieldBytes(d, w)
    ensures P.Get([38] + v + w + rest)
            == if ValidUtf8(name) && ValidUtf8(d) then Parsed(P.Property(38, P.Pair(name, d)), rest)
               else Failed(MalformedUtf8)
  {
    hide ValidUtf8, FieldBytes, GetBinary, PutBinary;
    var s := [38] + v + w + rest;
    assert s[1..] == v + (w + rest);
    FieldWritten(name, v);
    FieldWritten(d, w);
    BinaryExact(v + (w + rest), name, w + rest);
    BinaryExact(w + rest, d, rest);
    SmallVarint(s);
  }

  lemma Row(p: P.Property, w: seq<byte>, rest: seq<byte>)
    requires OnWire(p, w)
    ensures P.Get(w + rest) == Parsed(p, rest)
  {
    hide P.Get, OnWire;
    var s := w + rest;
    assert |s| - |rest| == |w| && s[|w|..] == rest && s[..|w|] == w;
    ReadsTable(s, p, rest);
  }

  lemma SmallVarint(s: seq<byte>)
    requires s != [] && s[0] < 128
    ensures GetVarint(s) == Parsed(s[0], s[1..])
  {
  }

  /** The 27 identifiers of the table and no others, whatever follows them. */
  lemma NoOtherRow(s: seq<byte>)
    requires s != [] ==>
      s[0] !in {1, 2, 3, 8, 9, 11, 17, 18, 19, 21, 22, 23, 24, 25, 26, 28, 31, 33, 34, 35, 36, 37, 38, 39, 40, 41, 42}
    ensures P.Get(s) == Failed(MalformedPacket)
  {
    if s != [] {
      if s[0] < 128 {
        SmallVarint(s);
      } else if GetVarint(s).Parsed? {
        LargeVarint(s);
      }
    }
    DigitsFail(s, 4, true);
  }

  lemma LargeVarint(s: seq<byte>)
    requires s != [] && s[0] >= 128 && GetVarint(s).Parsed?
    ensures GetVarint(s).value >= 128
  {
    var n, rest := GetVarint(s).value, GetVarint(s).rest;
    VarintExact(s, n, rest);
  }

  lemma {:induction false} DigitsFail(s: seq<byte>, left: nat, first: bool)
    ensures GetDigits(s, left, first).Failed? ==> GetDigits(s, left, first).rc == MalformedPacket
    decreases left
  {
    if left > 0 && s != [] && s[0] >= 128 {
      DigitsFail(s[1..], left - 1, false);
    }
  }

  // ----- Which property goes on which packet

  /** The columns of the table, one for each packet type with properties and one for the will. */
  lemma AllowedColumns(id: int)
    ensures P.AllowedOn(0x10, id) <==> id in {17, 21, 22, 23, 25, 33, 34, 38, 39}
    ensures P.AllowedOn(0x20, id) <==> id in {17, 18, 19, 21, 22, 26, 28, 31, 33, 34, 36, 37, 38, 39, 40, 41, 42}
    ensures P.AllowedOn(0x30, id) <==> id in {1, 2, 3, 8, 9, 11, 35, 38}
    ensures forall ack :: ack in {0x40, 0x50, 0x60, 0x70, 0x90, 0xB0} ==> (P.AllowedOn(ack, id) <==> id in {31, 38})
    ensures P.AllowedOn(0x80, id) <==> id in {11, 38}
    ensures P.AllowedOn(0xA0, id) <==> id == 38
    ensures P.AllowedOn(0xE0, id) <==> id in {17, 28, 31, 38}
    ensures P.AllowedOn(0xF0, id) <==> id in {21, 22, 31, 38}
    ensures P.AllowedOn(0x100, id) <==> id in {1, 2, 3, 8, 9, 24, 31, 38}
  {
  }

  /** The values refused on every packet: switches above one, and three limits that must not be zero. */
  lemma RefusedValues(p: P.Property)
    requires P.Encodable(p)
    ensures !P.ValueAllowed(p)
            <==> || (p.identifier in {1, 23, 25, 36, 37, 40, 41, 42} && p.value.i8 > 1)
                 || (p.identifier in {33, 35} && p.value.i16 == 0)
                 || (p.identifier == 39 && p.value.i32 == 0)
  {
  }

  /** Nothing is wrong with the property at a place of a list. */
  predicate Sound(command: int, ps: seq<P.Property>, i: nat)
    requires i < |ps|
  {
    && P.ValueAllowed(ps[i]) && P.AllowedOn(command, ps[i].identifier)
    && (ps[i].identifier != 38 ==> forall j :: i < j < |ps| ==> ps[j].identifier != ps[i].identifier)
  }

  /** The first fault of a list decides the error. */
  lemma {:induction false} FirstFault(command: int, ps: seq<P.Property>, i: nat)
    requires i < |ps| && !Sound(command, ps, i) && forall j: nat :: j < i ==> Sound(command, ps, j)
    ensures P.CheckAll(command, ps)
            == if P.ValueAllowed(ps[i]) && P.AllowedOn(command, ps[i].identifier) then DuplicateProperty else Protocol
    decreases |ps|
  {
    hide P.ValueAllowed, P.AllowedOn;
    var tail := ps[1..];
    assert forall j :: 0 <= j < |tail| ==> tail[j] == ps[j + 1];
    if i == 0 {
      if P.ValueAllowed(ps[0]) && P.AllowedOn(command, ps[0].identifier) {
        var j :| 0 < j < |ps| && ps[j].identifier == ps[0].identifier;
        assert tail[j - 1].identifier == ps[0].identifier;
      }
    } else {
      assert Sound(command, ps, 0);
      forall j: nat | j < |tail| ensures Sound(command, tail, j) <==> Sound(command, ps, j + 1) {
        SoundTail(command, ps, j);
      }
      FirstFault(command, tail, i - 1);
    }
  }

  lemma SoundTail(command: int, ps: seq<P.Property>, j: nat)
    requires j + 1 < |ps|
    ensures Sound(command, ps[1..], j) <==> Sound(command, ps, j + 1)
  {
    hide P.ValueAllowed, P.AllowedOn;
    var tail := ps[1..];
    assert forall k :: 0 <= k < |tail| ==> tail[k] == ps[k + 1];
    if Sound(command, tail, j) && ps[j + 1].identifier != 38 {
      forall k | j + 1 < k < |ps| ensures ps[k].identifier != ps[j + 1].identifier {
        assert tail[k - 1] == ps[k];
      }
    }
  }
}
