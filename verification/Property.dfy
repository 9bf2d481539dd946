/**
 MQTT v5.0 property lists (section 2.2.2): property_mosq.c on values.
 */
module Property {
  import opened Wire

  datatype Kind = ByteKind | Int16Kind | Int32Kind | VarintKind | BinaryKind | StringKind | PairKind | Unsupported

  const USER_PROPERTY := 38
  const SUBSCRIPTION_IDENTIFIER := 11
  const MAXIMUM_PACKET_SIZE := 39
  const RECEIVE_MAXIMUM := 33
  const TOPIC_ALIAS := 35
  const MESSAGE_EXPIRY_INTERVAL := 2

  /** The switch over identifiers shared by property__read, property__write and property__get_length. */
  function KindOf(id: int): Kind {
    if id in {1, 23, 25, 36, 37, 40, 41, 42} then ByteKind
    else if id in {19, 33, 34, 35} then Int16Kind
    else if id in {2, 17, 24, 39} then Int32Kind
    else if id == 11 then VarintKind
    else if id in {9, 22} then BinaryKind
    else if id in {3, 8, 18, 21, 26, 28, 31} then StringKind
    else if id == 38 then PairKind
    else Unsupported
  }

  /** The C union; the identifier says which member is in use. */
  datatype Value =
    | I8(i8: byte)
    | I16(i16: uint16)
    | I32(i32: uint32)
    | Var(varint: uint32)
    | Bin(bin: seq<byte>)
    | Str(s: seq<byte>)
    | Pair(name: seq<byte>, s: seq<byte>)

  datatype Property = Property(identifier: nat, value: Value)

  predicate Field(d: seq<byte>) {
    |d| < 0x1_0000
  }

  predicate Text(d: seq<byte>) {
    Field(d) && ValidUtf8(d)
  }

  /** The value is of the identifier's kind and can be put on the wire. */
  predicate Encodable(p: Property) {
    match KindOf(p.identifier)
    case ByteKind => p.value.I8?
    case Int16Kind => p.value.I16?
    case Int32Kind => p.value.I32?
    case VarintKind => p.value.Var? && p.value.varint < VARINT_LIMIT
    case BinaryKind => p.value.Bin? && Field(p.value.bin)
    case StringKind => p.value.Str? && Text(p.value.s)
    case PairKind => p.value.Pair? && Text(p.value.name) && Text(p.value.s)
    case Unsupported => false
  }

  predicate AllEncodable(ps: seq<Property>) {
    forall i :: 0 <= i < |ps| ==> Encodable(ps[i])
  }

  // ----- Encoding

  function PutValue(v: Value): seq<byte>
    requires v.Bin? ==> Field(v.bin)
    requires v.Str? ==> Field(v.s)
    requires v.Pair? ==> Field(v.name) && Field(v.s)
  {
    match v
    case I8(b) => [b]
    case I16(w) => PutUint16(w)
    case I32(w) => PutUint32(w)
    case Var(n) => PutVarint(n)
    case Bin(d) => PutBinary(d)
    case Str(d) => PutBinary(d)
    case Pair(name, d) => PutBinary(name) + PutBinary(d)
  }

  /** property__write */
  function Put(p: Property): (s: seq<byte>)
    requires Encodable(p)
    ensures |s| >= 1
  {
    PutVarint(p.identifier) + PutValue(p.value)
  }

  /** property__write_all without the length field */
  function PutAll(ps: seq<Property>): seq<byte>
    requires AllEncodable(ps)
  {
    if ps == [] then [] else Put(ps[0]) + PutAll(ps[1..])
  }

  /** property__get_length */
  function GetLength(p: Property): nat {
    match p.value
    case I8(_) => 2
    case I16(_) => 3
    case I32(_) => 5
    case Var(n) => if n < 128 then 2 else if n < 0x4000 then 3 else if n < 0x20_0000 then 4
                   else if n < VARINT_LIMIT then 5 else 0
    case Bin(d) => 3 + |d|
    case Str(d) => 3 + |d|
    case Pair(name, d) => 5 + |d| + |name|
  }

  /** property__get_length_all */
  function LengthAll(ps: seq<Property>): nat {
    if ps == [] then 0 else GetLength(ps[0]) + LengthAll(ps[1..])
  }

  /** property__write_all with its length field */
  function PutList(ps: seq<Property>): seq<byte>
    requires AllEncodable(ps)
  {
    PutVarint(LengthAll(ps)) + PutAll(ps)
  }

  /** The length field announces exactly the bytes that follow it. */
  lemma PutLength(p: Property)
    requires Encodable(p)
    ensures |Put(p)| == GetLength(p) >= 2
  {
    assert KindOf(p.identifier) != Unsupported ==> p.identifier < 128;
    if p.value.Var? { VarintSize(p.value.varint); }
  }

  lemma LengthBound(p: Property)
    requires Encodable(p)
    ensures GetLength(p) < 0x2_0004
  {
  }

  lemma {:induction false} PutAllLength(ps: seq<Property>)
    requires AllEncodable(ps)
    ensures |PutAll(ps)| == LengthAll(ps)
    decreases |ps|
  {
    if ps != [] {
      PutLength(ps[0]);
      PutAllLength(ps[1..]);
    }
  }

  // ----- property__read

  function GetValue(kind: Kind, s: seq<byte>): Parse<Value> {
    match kind
    case ByteKind => var (b, rest) :- GetByte(s); Parsed(I8(b), rest)
    case Int16Kind => var (w, rest) :- GetUint16(s); Parsed(I16(w), rest)
    case Int32Kind => var (w, rest) :- GetUint32(s); Parsed(I32(w), rest)
    case VarintKind => var (n, rest) :- GetVarint(s); Parsed(Var(n), rest)
    case BinaryKind => var (d, rest) :- GetBinary(s); Parsed(Bin(d), rest)
    case StringKind => var (d, rest) :- GetString(s); Parsed(Str(d), rest)
    case PairKind =>
      var (name, rest) :- GetString(s);
      var (d, rest') :- GetString(rest);
      Parsed(Pair(name, d), rest')
    case Unsupported => Failed(MalformedPacket)
  }

  function Get(s: seq<byte>): Parse<Property> {
    var (id, rest) :- GetVarint(s);
    var (v, rest') :- GetValue(KindOf(id), rest);
    Parsed(Property(id, v), rest')
  }

  lemma ValueExact(p: Property, s: seq<byte>, rest: seq<byte>)
    ensures GetValue(KindOf(p.identifier), s) == Parsed(p.value, rest)
            <==> Encodable(p) && s == PutValue(p.value) + rest
  {
    hide KindOf, GetUint16, GetUint32, GetVarint, GetBinary, GetString, ValidUtf8, PutUint16, PutUint32, PutVarint, PutBinary;
    match KindOf(p.identifier)
    case ByteKind => if |s| > 0 { assert s == [s[0]] + s[1..]; }
    case Int16Kind => if p.value.I16? { Uint16Exact(s, p.value.i16, rest); }
    case Int32Kind => if p.value.I32? { Uint32Exact(s, p.value.i32, rest); }
    case VarintKind => if p.value.Var? { VarintExact(s, p.value.varint, rest); }
    case BinaryKind => if p.value.Bin? { BinaryExact(s, p.value.bin, rest); }
    case StringKind => if p.value.Str? { StringExact(s, p.value.s, rest); }
    case PairKind => if p.value.Pair? { PairExact(s, p.value.name, p.value.s, rest); }
    case Unsupported =>
  }

  lemma PairExact(s: seq<byte>, name: seq<byte>, d: seq<byte>, rest: seq<byte>)
    ensures GetValue(PairKind, s) == Parsed(Pair(name, d), rest)
            <==> Text(name) && Text(d) && s == PutBinary(name) + PutBinary(d) + rest
  {
    hide GetString, ValidUtf8, PutBinary;
    match GetString(s) {
      case Parsed(n, r) =>
        StringExact(s, n, r);
        StringExact(r, d, rest);
        if n == name && GetString(r) == Parsed(d, rest) {
          assert s == PutBinary(name) + (PutBinary(d) + rest);
        }
      case Failed(_) =>
    }
    if Text(name) && Text(d) && s == PutBinary(name) + PutBinary(d) + rest {
      assert s == PutBinary(name) + (PutBinary(d) + rest);
      StringExact(s, name, PutBinary(d) + rest);
    }
  }

  /** property__read accepts exactly what property__write produces. */
  lemma PropertyExact(s: seq<byte>, p: Property, rest: seq<byte>)
    ensures Get(s) == Parsed(p, rest) <==> Encodable(p) && s == Put(p) + rest
  {
    hide GetValue, GetVarint, PutVarint, PutValue;
    match GetVarint(s) {
      case Parsed(id, r) =>
        VarintExact(s, id, r);
        if id == p.identifier {
          ValueExact(p, r, rest);
          if Encodable(p) && r == PutValue(p.value) + rest {
            assert s == PutVarint(id) + (PutValue(p.value) + rest);
          }
        }
      case Failed(_) =>
    }
    if Encodable(p) && s == Put(p) + rest {
      assert s == PutVarint(p.identifier) + (PutValue(p.value) + rest);
      VarintExact(s, p.identifier, PutValue(p.value) + rest);
    }
  }

  // ----- mosquitto_property_check_all

  const CMD_CONNECT := 0x10
  const CMD_CONNACK := 0x20
  const CMD_PUBLISH := 0x30
  const CMD_PUBACK := 0x40
  const CMD_PUBREC := 0x50
  const CMD_PUBREL := 0x60
  const CMD_PUBCOMP := 0x70
  const CMD_SUBSCRIBE := 0x80
  const CMD_UNSUBSCRIBE := 0xA0
  const CMD_DISCONNECT := 0xE0
  const CMD_AUTH := 0xF0
  const CMD_WILL := 0x100

  /** mosquitto_property_check_command */
  predicate AllowedOn(command: int, id: int) {
    if id in {1, 2, 3, 8, 9} then command in {CMD_PUBLISH, CMD_WILL}
    else if id == SUBSCRIPTION_IDENTIFIER then command in {CMD_PUBLISH, CMD_SUBSCRIBE}
    else if id == 17 then command in {CMD_CONNECT, CMD_CONNACK, CMD_DISCONNECT}
    else if id in {21, 22} then command in {CMD_CONNECT, CMD_CONNACK, CMD_AUTH}
    else if id in {18, 19, 26, 36, 37, 40, 41, 42} then command == CMD_CONNACK
    else if id == 24 then command == CMD_WILL
    else if id in {23, 25} then command == CMD_CONNECT
    else if id == 28 then command in {CMD_CONNACK, CMD_DISCONNECT}
    else if id == 31 then command !in {CMD_CONNECT, CMD_PUBLISH, CMD_SUBSCRIBE, CMD_UNSUBSCRIBE}
    else if id in {33, 34, 39} then command in {CMD_CONNECT, CMD_CONNACK}
    else if id == TOPIC_ALIAS then command == CMD_PUBLISH
    else id == USER_PROPERTY
  }

  predicate ValueAllowed(p: Property) {
    match p.value
    case I8(b) => b <= 1
    case I16(w) => p.identifier in {RECEIVE_MAXIMUM, TOPIC_ALIAS} ==> w != 0
    case I32(w) => p.identifier == MAXIMUM_PACKET_SIZE ==> w != 0
    case _ => true
  }

  predicate Repeated(ps: seq<Property>, id: nat) {
    exists i :: 0 <= i < |ps| && ps[i].identifier == id
  }

  /** The checks run property by property, so an earlier fault wins. */
  function CheckAll(command: int, ps: seq<Property>): Rc {
    if ps == [] then Success
    else if !ValueAllowed(ps[0]) || !AllowedOn(command, ps[0].identifier) then Protocol
    else if ps[0].identifier != USER_PROPERTY && Repeated(ps[1..], ps[0].identifier) then DuplicateProperty
    else CheckAll(command, ps[1..])
  }

  /** What an accepted list looks like: every property fits, and only user properties repeat. */
  lemma {:induction false} CheckAllMeaning(command: int, ps: seq<Property>)
    ensures CheckAll(command, ps) == Success
            <==> && (forall i :: 0 <= i < |ps| ==> ValueAllowed(ps[i]) && AllowedOn(command, ps[i].identifier))
                 && (forall i, j :: 0 <= i < j < |ps| && ps[i].identifier == ps[j].identifier ==>
                       ps[i].identifier == USER_PROPERTY)
    decreases |ps|
  {
    hide ValueAllowed, AllowedOn;
    if ps != [] {
      CheckAllMeaning(command, ps[1..]);
      assert forall j :: 1 <= j < |ps| ==> ps[j] == ps[1..][j - 1];
      if Repeated(ps[1..], ps[0].identifier) {
        var i :| 0 <= i < |ps[1..]| && ps[1..][i].identifier == ps[0].identifier;
        assert ps[0].identifier == ps[i + 1].identifier;
      }
    }
  }

  /** mosquitto_property_check_all */
  method CheckProperties(command: int, ps: seq<Property>) returns (rc: Rc)
    ensures rc == CheckAll(command, ps)
  {
    hide ValueAllowed, AllowedOn;
    var p := 0;
    while p < |ps|
      invariant 0 <= p <= |ps|
      invariant CheckAll(command, ps) == CheckAll(command, ps[p..])
    {
      assert ps[p..][1..] == ps[p + 1..];
      if !ValueAllowed(ps[p]) {
        return Protocol;
      }
      if !AllowedOn(command, ps[p].identifier) {
        return Protocol;
      }
      if ps[p].identifier != USER_PROPERTY {
        var tail := p + 1;
        while tail < |ps|
          invariant p + 1 <= tail <= |ps|
          invariant forall i :: p + 1 <= i < tail ==> ps[i].identifier != ps[p].identifier
        {
          if ps[p].identifier == ps[tail].identifier {
            assert ps[p + 1..][tail - p - 1] == ps[tail];
            return DuplicateProperty;
          }
          tail := tail + 1;
        }
      }
      p := p + 1;
    }
    rc := Success;
  }

  /** property__get_length_all */
  method SumLengths(ps: seq<Property>) returns (len: nat)
    ensures len == LengthAll(ps)
  {
    len := 0;
    var p := 0;
    while p < |ps|
      invariant 0 <= p <= |ps|
      invariant len + LengthAll(ps[p..]) == LengthAll(ps)
    {
      assert ps[p..][1..] == ps[p + 1..];
      len := len + GetLength(ps[p]);
      p := p + 1;
    }
  }

  // ----- property__read_all

  /**
   The read loop.  The number of property bytes still to come is an unsigned 32-bit
   integer that is decremented without a check, so it may wrap around.
   */
  function ReadLoop(s: seq<byte>, len: uint32): Parse<seq<Property>>
    decreases |s|
  {
    if len == 0 then Parsed([], s)
    else
      match Get(s)
      case Failed(rc) => Failed(rc)
      case Parsed(p, rest) =>
        PropertyExact(s, p, rest);
        PutLength(p);
        LengthBound(p);
        var (ps, rest') :- ReadLoop(rest, Sub32(len, GetLength(p)));
        Parsed([p] + ps, rest')
  }

  function ReadAll(command: int, s: seq<byte>): Parse<seq<Property>> {
    var (len, rest) :- GetVarint(s);
    var (ps, rest') :- ReadLoop(rest, len);
    var rc := CheckAll(command, ps);
    if rc == Success then Parsed(ps, rest') else Failed(rc)
  }

  /** A length that has wrapped can no longer be used up by a packet below 2^28 bytes. */
  lemma {:induction false} ReadLoopSound(s: seq<byte>, len: uint32)
    requires |s| < VARINT_LIMIT
    ensures var r := ReadLoop(s, len);
            r.Parsed? ==> AllEncodable(r.value) && s == PutAll(r.value) + r.rest && len == LengthAll(r.value)
    decreases |s|
  {
    hide Get, Encodable, Put, GetLength;
    if len != 0 && Get(s).Parsed? {
      var p, rest := Get(s).value, Get(s).rest;
      PropertyExact(s, p, rest);
      PutLength(p);
      LengthBound(p);
      var len' := Sub32(len, GetLength(p));
      ReadLoopSound(rest, len');
      var r := ReadLoop(rest, len');
      if r.Parsed? {
        PutAllLength(r.value);
        assert len' <= |rest|;
        assert s == Put(p) + (PutAll(r.value) + r.rest);
      }
    }
  }

  lemma {:induction false} ReadLoopComplete(ps: seq<Property>, rest: seq<byte>)
    requires AllEncodable(ps) && LengthAll(ps) < VARINT_LIMIT
    ensures ReadLoop(PutAll(ps) + rest, LengthAll(ps)) == Parsed(ps, rest)
    decreases |ps|
  {
    hide Get, Encodable, Put, GetLength;
    if ps == [] {
      assert PutAll(ps) + rest == rest;
    } else {
      var p, tail := ps[0], PutAll(ps[1..]) + rest;
      assert PutAll(ps) + rest == Put(p) + tail;
      PropertyExact(Put(p) + tail, p, tail);
      PutLength(p);
      LengthBound(p);
      ReadLoopComplete(ps[1..], rest);
      assert [p] + ps[1..] == ps;
    }
  }

  /**
   Both round trips at once, for every packet body below 2^28 bytes: property__read_all
   accepts a body exactly when it starts with what property__write_all produces for a list
   that passes the checks; it returns that list and consumes exactly those bytes.
   */
  lemma ReadAllExact(command: int, s: seq<byte>, ps: seq<Property>, rest: seq<byte>)
    requires |s| < VARINT_LIMIT
    ensures ReadAll(command, s) == Parsed(ps, rest)
            <==> && AllEncodable(ps) && LengthAll(ps) < VARINT_LIMIT && CheckAll(command, ps) == Success
                 && s == PutList(ps) + rest
  {
    hide GetVarint, PutVarint, ReadLoop, CheckAll, Encodable, PutAll, LengthAll;
    match GetVarint(s) {
      case Parsed(len, r) =>
        VarintExact(s, len, r);
        ReadLoopSound(r, len);
        if ReadAll(command, s) == Parsed(ps, rest) {
          assert s == PutVarint(len) + (PutAll(ps) + rest);
        }
      case Failed(_) =>
    }
    if AllEncodable(ps) && LengthAll(ps) < VARINT_LIMIT && CheckAll(command, ps) == Success && s == PutList(ps) + rest {
      assert s == PutVarint(LengthAll(ps)) + (PutAll(ps) + rest);
      VarintExact(s, LengthAll(ps), PutAll(ps) + rest);
      ReadLoopComplete(ps, rest);
    }
  }

  /** property__get_remaining_length is the number of bytes read_all consumes. */
  lemma RemainingLength(ps: seq<Property>)
    requires AllEncodable(ps) && LengthAll(ps) < VARINT_LIMIT
    ensures |PutList(ps)| == LengthAll(ps) + VarintBytes(LengthAll(ps))
  {
    VarintSize(LengthAll(ps));
    PutAllLength(ps);
  }
}
