/**
 `struct mosquitto__packet` with its cursor: the readers and writers of packet_datatypes.c,
 packet__alloc, and the loops of property_mosq.c.  A reader consumes from `Rest()`, a
 writer appends to `Written()`; each is proved against its function in `Wire` or `Property`.
 */
module PacketModel {
  import opened Wire
  import P = Property
  import U = Utf8

  lemma AddDigit(mult: nat, digit: nat, high: nat)
    requires digit < 128
    ensures mult * (digit + 128 * high) == digit % 128 * mult + (mult * 128) * high
  {
    assert mult * (digit + 128 * high) == mult * digit + mult * (128 * high);
    assert mult * (128 * high) == (mult * 128) * high;
  }

  /** Reading digits from `s` on, with `word` read so far, gives `r`. */
  predicate Digits(r: Parse<nat>, s: seq<byte>, left: nat, first: bool, word: nat, mult: nat) {
    match GetDigits(s, left, first)
    case Parsed(high, rest) => r == Parsed(word + mult * high, rest)
    case Failed(_) => r == Failed(MalformedPacket)
  }

  lemma StartDigits(s: seq<byte>)
    ensures Digits(GetVarint(s), s, 4, true, 0, 1)
  {
    if GetVarint(s).Failed? {
      FailsMalformed(s, 4, true);
    }
  }

  lemma {:induction false} FailsMalformed(s: seq<byte>, left: nat, first: bool)
    ensures var r := GetDigits(s, left, first); r.Failed? ==> r.rc == MalformedPacket
    decreases left
  {
    if left > 0 && s != [] {
      FailsMalformed(s[1..], left - 1, false);
    }
  }

  lemma NextDigit(r: Parse<nat>, s: seq<byte>, left: nat, first: bool, word: nat, mult: nat)
    requires Digits(r, s, left, first, word, mult) && left > 0 && s != [] && s[0] >= 128
    ensures Digits(r, s[1..], left - 1, false, word + s[0] % 128 * mult, mult * 128)
  {
    match GetDigits(s[1..], left - 1, false)
    case Parsed(high, rest) =>
      AddDigit(mult, s[0] - 128, high);
    case Failed(_) =>
  }

  lemma LastDigit(r: Parse<nat>, s: seq<byte>, left: nat, first: bool, word: nat, mult: nat)
    requires Digits(r, s, left, first, word, mult)
    ensures left == 0 || s == [] ==> r == Failed(MalformedPacket)
    ensures left > 0 && s != [] && s[0] < 128 ==>
      r == if !first && s[0] == 0 then Failed(MalformedPacket) else Parsed(word + s[0] % 128 * mult, s[1..])
  {
  }

  // ----- The digit loops of packet__write_varint and packet__alloc

  /** After `start`, part of the digits of `value` have been written, and those of `word` are still to come. */
  predicate Writing(value: uint32, start: seq<byte>, word: nat, written: seq<byte>, more: bool) {
    && |start| <= |written|
    && if more then |written| - |start| + |PutVarint(word)| == |PutVarint(value)| <= 5
                    && written + PutVarint(word) == start + PutVarint(value)
       else written == start + PutVarint(value)
  }

  lemma StartWriting(value: uint32, start: seq<byte>)
    ensures Writing(value, start, value, start, true)
  {
    VarintSize(value);
  }

  lemma OneDigit(value: uint32, start: seq<byte>, word: nat, written: seq<byte>)
    requires Writing(value, start, word, written, true)
    ensures var written' := written + [if word / 128 > 0 then word % 128 + 128 else word % 128];
            && Writing(value, start, word / 128, written', word / 128 > 0 && |written'| - |start| < 5)
            && |written'| <= |start| + |PutVarint(value)|
  {
    var d := if word / 128 > 0 then word % 128 + 128 else word % 128;
    assert PutVarint(word) == if word / 128 > 0 then [d] + PutVarint(word / 128) else [d];
    assert written + ([d] + PutVarint(word / 128)) == written + [d] + PutVarint(word / 128);
  }

  lemma EndWriting(value: uint32, start: seq<byte>, word: nat, written: seq<byte>)
    requires Writing(value, start, word, written, false)
    ensures written == start + PutVarint(value)
  {
  }

  // ----- The loop of property__read_all

  /** Reading `left` more property bytes from `s`, after `done`, gives `r`. */
  predicate Reading(r: Parse<seq<P.Property>>, done: seq<P.Property>, s: seq<byte>, left: uint32) {
    match P.ReadLoop(s, left)
    case Parsed(ps, rest) => r == Parsed(done + ps, rest)
    case Failed(rc) => r == Failed(rc)
  }

  lemma StartReading(s: seq<byte>, left: uint32)
    ensures Reading(P.ReadLoop(s, left), [], s, left)
  {
    match P.ReadLoop(s, left)
    case Parsed(ps, rest) => assert [] + ps == ps;
    case Failed(rc) =>
  }

  lemma ReadOne(r: Parse<seq<P.Property>>, done: seq<P.Property>, s: seq<byte>, left: uint32)
    requires Reading(r, done, s, left) && left != 0
    ensures match P.Get(s)
            case Failed(rc) => r == Failed(rc)
            case Parsed(p, rest) =>
              |rest| < |s| && P.GetLength(p) < 0x1_0000_0000 && Reading(r, done + [p], rest, Sub32(left, P.GetLength(p)))
  {
    hide P.Get, P.GetLength, P.Put;
    match P.Get(s)
    case Failed(rc) =>
    case Parsed(p, rest) =>
      P.PropertyExact(s, p, rest);
      P.LengthBound(p);
      match P.ReadLoop(rest, Sub32(left, P.GetLength(p)))
      case Parsed(ps, rest') => assert done + ([p] + ps) == done + [p] + ps;
      case Failed(rc) =>
  }

  lemma StopReading(r: Parse<seq<P.Property>>, done: seq<P.Property>, s: seq<byte>)
    requires Reading(r, done, s, 0)
    ensures r == Parsed(done, s)
  {
    assert done + [] == done;
  }

  class Packet {
    var command: byte
    var mid: uint16
    var remainingCount: int
    var remainingLength: nat
    var packetLength: nat
    var pos: nat
    var payload: array<byte>

    constructor ()
      ensures command == 0 && mid == 0 && remainingCount == 0 && remainingLength == 0
      ensures packetLength == 0 && pos == 0 && payload.Length == 0 && fresh(payload)
    {
      command, mid, remainingCount, remainingLength, packetLength, pos := 0, 0, 0, 0, 0, 0;
      payload := new byte[0];
    }

    // ----- Reading

    predicate Readable()
      reads this, payload
    {
      pos <= remainingLength == payload.Length < VARINT_LIMIT
    }

    function Rest(): (s: seq<byte>)
      requires Readable()
      reads this, payload
      ensures |s| == remainingLength - pos
    {
      payload[pos..]
    }

    /** The outcome of a reader agrees with its function. */
    predicate Read<T(==)>(r: Parse<T>, rc: Rc, v: T)
      reads this, payload
    {
      && Readable()
      && match r
         case Parsed(x, rest) => rc == Success && v == x && Rest() == rest
         case Failed(e) => rc == e && rc != Success
    }

    method ReadByte() returns (rc: Rc, b: byte)
      requires Readable()
      modifies this`pos
      ensures Read(GetByte(old(Rest())), rc, b)
    {
      if pos + 1 > remainingLength {
        return MalformedPacket, 0;
      }
      b := payload[pos];
      pos := pos + 1;
      rc := Success;
    }

    method ReadBytes(count: nat) returns (rc: Rc, bytes: seq<byte>)
      requires Readable()
      modifies this`pos
      ensures Readable()
      ensures if count > |old(Rest())| then rc == MalformedPacket
              else rc == Success && bytes == old(Rest())[..count] && Rest() == old(Rest())[count..]
    {
      if pos + count > remainingLength {
        return MalformedPacket, [];
      }
      bytes := payload[pos..pos + count];
      pos := pos + count;
      rc := Success;
    }

    method ReadUint16() returns (rc: Rc, word: uint16)
      requires Readable()
      modifies this`pos
      ensures Read(GetUint16(old(Rest())), rc, word)
    {
      if pos + 2 > remainingLength {
        return MalformedPacket, 0;
      }
      var msb: int := payload[pos];
      pos := pos + 1;
      var lsb: int := payload[pos];
      pos := pos + 1;
      word := msb * 0x100 + lsb;
      rc := Success;
    }

    method ReadUint32() returns (rc: Rc, word: uint32)
      requires Readable()
      modifies this`pos
      ensures Read(GetUint32(old(Rest())), rc, word)
    {
      if pos + 4 > remainingLength {
        return MalformedPacket, 0;
      }
      ghost var s := Rest();
      hide Word;
      var val: int := 0;
      for i := 0 to 4
        invariant Readable() && pos == old(pos) + i
        invariant i == 0 ==> val == 0
        invariant i == 1 ==> val == Word(0, s[0])
        invariant i == 2 ==> val == Word(Word(0, s[0]), s[1])
        invariant i == 3 ==> val == Word(Word(Word(0, s[0]), s[1]), s[2])
        invariant i == 4 ==> val == Word(Word(Word(Word(0, s[0]), s[1]), s[2]), s[3])
      {
        val := Word(val, payload[pos]);
        pos := pos + 1;
      }
      assert val == GetUint32(s).value;
      word := val;
      rc := Success;
    }

    method ReadBinary() returns (rc: Rc, data: seq<byte>)
      requires Readable()
      modifies this`pos
      ensures Read(GetBinary(old(Rest())), rc, data)
      ensures rc == Success ==> |data| < 0x1_0000
    {
      data := [];
      var slen;
      rc, slen := ReadUint16();
      if rc != Success {
        return;
      }
      ghost var tail := Rest();
      if slen == 0 {
        assert tail[..0] == [] && tail[0..] == tail;
        return;
      }
      if pos + slen > remainingLength {
        return MalformedPacket, [];
      }
      data := payload[pos..pos + slen];
      pos := pos + slen;
      assert data == tail[..slen] && Rest() == tail[slen..];
    }

    method ReadString() returns (rc: Rc, data: seq<byte>)
      requires Readable()
      modifies this`pos
      ensures Read(GetString(old(Rest())), rc, data)
      ensures rc == Success ==> |data| < 0x1_0000
    {
      hide ValidUtf8;
      rc, data := ReadBinary();
      if rc != Success || |data| == 0 {
        U.EmptyValid();
        return;
      }
      rc := U.Validate(data + [0], |data|);
      assert (data + [0])[..|data|] == data;
      if rc != Success {
        return MalformedUtf8, [];
      }
    }

    method ReadVarint() returns (rc: Rc, word: nat, bytes: nat)
      requires Readable()
      modifies this`pos
      ensures Read(GetVarint(old(Rest())), rc, word)
      ensures rc == Success ==> word < VARINT_LIMIT && bytes == VarintBytes(word)
    {
      hide GetDigits, Digits;
      ghost var r := GetVarint(Rest());
      StartDigits(Rest());
      var mult: nat, lword: nat, lbytes: nat := 1, 0, 0;
      for i := 0 to 4
        invariant Readable() && pos == old(pos) + i && lbytes == i
        invariant Digits(r, Rest(), 4 - i, i == 0, lword, mult)
      {
        ghost var s := Rest();
        LastDigit(r, s, 4 - i, i == 0, lword, mult);
        if pos < remainingLength {
          lbytes := lbytes + 1;
          var b: byte := payload[pos];
          if b >= 128 {
            NextDigit(r, s, 4 - i, i == 0, lword, mult);
          }
          lword := lword + b % 128 * mult;
          mult := mult * 128;
          pos := pos + 1;
          assert Rest() == s[1..];
          if b < 128 {
            if lbytes > 1 && b == 0 {
              return MalformedPacket, 0, 0;
            }
            VarintExact(old(Rest()), lword, Rest());
            VarintSize(lword);
            assert |old(Rest())| == |PutVarint(lword)| + |Rest()|;
            return Success, lword, lbytes;
          }
        } else {
          return MalformedPacket, 0, 0;
        }
      }
      LastDigit(r, Rest(), 0, false, lword, mult);
      return MalformedPacket, 0, 0;
    }
  
    // ----- property_mosq.c: reading

    /** property__read; `left` is the caller's count of property bytes, decremented as they are read. */
    method ReadProperty(len: uint32) returns (rc: Rc, left: uint32, p: P.Property)
      requires Readable()
      modifies this`pos
      ensures Read(P.Get(old(Rest())), rc, p)
      ensures rc == Success ==> P.GetLength(p) < 0x1_0000_0000 && left == Sub32(len, P.GetLength(p))
    {
      hide GetVarint, GetBinary, GetString, GetUint16, GetUint32, GetByte, Sub32;
      var id, bytes;
      p := P.Property(0, P.I8(0));
      left := len;
      rc, id, bytes := ReadVarint();
      if rc != Success {
        return;
      }
      left := Sub32(left, 1);
      match P.KindOf(id) {
        case ByteKind =>
          var b;
          rc, b := ReadByte();
          Sub32Twice(len, 1, 1);
          left := Sub32(left, 1);
          p := P.Property(id, P.I8(b));
        case Int16Kind =>
          var w;
          rc, w := ReadUint16();
          Sub32Twice(len, 1, 2);
          left := Sub32(left, 2);
          p := P.Property(id, P.I16(w));
        case Int32Kind =>
          var w;
          rc, w := ReadUint32();
          Sub32Twice(len, 1, 4);
          left := Sub32(left, 4);
          p := P.Property(id, P.I32(w));
        case VarintKind =>
          var w;
          rc, w, bytes := ReadVarint();
          if rc != Success {
            return;
          }
          Sub32Twice(len, 1, bytes);
          left := Sub32(left, bytes);
          p := P.Property(id, P.Var(w));
        case BinaryKind =>
          var d;
          rc, d := ReadBinary();
          if rc != Success {
            return;
          }
          Sub32Twice(len, 1, 2 + |d|);
          left := Sub32(left, 2 + |d|);
          p := P.Property(id, P.Bin(d));
        case StringKind =>
          var d;
          rc, d := ReadString();
          if rc != Success {
            return;
          }
          Sub32Twice(len, 1, 2 + |d|);
          left := Sub32(left, 2 + |d|);
          p := P.Property(id, P.Str(d));
        case PairKind =>
          var name, d;
          rc, name := ReadString();
          if rc != Success {
            return;
          }
          Sub32Twice(len, 1, 2 + |name|);
          left := Sub32(left, 2 + |name|);
          rc, d := ReadString();
          if rc != Success {
            return;
          }
          Sub32Twice(len, 3 + |name|, 2 + |d|);
          left := Sub32(left, 2 + |d|);
          p := P.Property(id, P.Pair(name, d));
        case Unsupported =>
          rc := MalformedPacket;
      }
    }

    /** property__read_all; the loop ends because every round consumes bytes of the packet. */
    method ReadProperties(command: int) returns (rc: Rc, properties: seq<P.Property>)
      requires Readable()
      modifies this`pos
      ensures Read(P.ReadAll(command, old(Rest())), rc, properties)
    {
      hide P.Get, P.CheckAll, GetVarint, P.ReadLoop, Reading;
      properties := [];
      var len, bytes;
      rc, len, bytes := ReadVarint();
      if rc != Success {
        return;
      }
      ghost var r := P.ReadLoop(Rest(), len);
      var proplen: uint32 := len;
      StartReading(Rest(), proplen);
      while proplen > 0
        invariant Readable()
        invariant Reading(r, properties, Rest(), proplen)
        decreases remainingLength - pos
      {
        var p;
        ghost var s, proplen0 := Rest(), proplen;
        rc, proplen, p := ReadProperty(proplen);
        ReadOne(r, properties, s, proplen0);
        if rc != Success {
          return rc, [];
        }
        properties := properties + [p];
      }
      StopReading(r, properties, Rest());
      rc := P.CheckProperties(command, properties);
    }
  
    // ----- Writing

    /** There is room for `n` more bytes; with n == 0, the cursor is inside the buffer. */
    predicate Room(n: nat)
      reads this
    {
      pos + n <= packetLength == payload.Length
    }

    function Written(): (s: seq<byte>)
      requires Room(0)
      reads this, payload
      ensures |s| == pos
    {
      payload[..pos]
    }

    method WriteByte(b: byte)
      requires Room(1)
      modifies this`pos, payload
      ensures Room(0) && Written() == old(Written()) + [b]
    {
      payload[pos] := b;
      pos := pos + 1;
    }

    method WriteBytes(bytes: seq<byte>)
      requires Room(|bytes|)
      modifies this`pos, payload
      ensures Room(0) && Written() == old(Written()) + bytes
    {
      forall i | 0 <= i < |bytes| {
        payload[pos + i] := bytes[i];
      }
      pos := pos + |bytes|;
    }

    method WriteUint16(word: uint16)
      requires Room(2)
      modifies this`pos, payload
      ensures Room(0) && Written() == old(Written()) + PutUint16(word)
    {
      WriteByte(word / 0x100);
      WriteByte(word % 0x100);
    }

    method WriteUint32(word: uint32)
      requires Room(4)
      modifies this`pos, payload
      ensures Room(0) && Written() == old(Written()) + PutUint32(word)
    {
      WriteByte(word / 0x100 / 0x100 / 0x100);
      WriteByte(word / 0x100 / 0x100 % 0x100);
      WriteByte(word / 0x100 % 0x100);
      WriteByte(word % 0x100);
    }

    method WriteString(d: seq<byte>)
      requires |d| < 0x1_0000 && Room(2 + |d|)
      modifies this`pos, payload
      ensures Room(0) && Written() == old(Written()) + PutBinary(d)
    {
      WriteUint16(|d|);
      WriteBytes(d);
      assert old(Written()) + PutUint16(|d|) + d == old(Written()) + (PutUint16(|d|) + d);
    }

    /** The value is written in full even when it is refused. */
    method WriteVarint(value: uint32) returns (rc: Rc)
      requires Room(|PutVarint(value)|)
      modifies this`pos, payload
      ensures Room(0) && Written() == old(Written()) + PutVarint(value)
      ensures rc == if value < VARINT_LIMIT then Success else MalformedPacket
    {
      hide PutVarint;
      VarintSize(value);
      StartWriting(value, Written());
      var word, count, more := value, 0, true;
      while more
        invariant Room(0) && pos == old(pos) + count && Writing(value, old(Written()), word, Written(), more)
        decreases 6 - count, more
      {
        OneDigit(value, old(Written()), word, Written());
        var b: int := word % 128;
        word := word / 128;
        if word > 0 {
          b := b + 128;
        }
        WriteByte(b);
        count := count + 1;
        more := word > 0 && count < 5;
      }
      EndWriting(value, old(Written()), word, Written());
      rc := if count == 5 then MalformedPacket else Success;
    }

    /** The digits loop of packet__alloc. */
    static method RemainingBytes(length: uint32) returns (bytes: seq<byte>)
      ensures bytes == PutVarint(length) && |bytes| == VarintBytes(length)
    {
      hide PutVarint;
      VarintSize(length);
      StartWriting(length, []);
      var remaining, more := length, true;
      bytes := [];
      while more
        invariant Writing(length, [], remaining, bytes, more)
        decreases 6 - |bytes|, more
      {
        OneDigit(length, [], remaining, bytes);
        var b: int := remaining % 128;
        remaining := remaining / 128;
        if remaining > 0 {
          b := b + 128;
        }
        bytes := bytes + [b];
        more := remaining > 0 && |bytes| < 5;
      }
      EndWriting(length, [], remaining, bytes);
      assert [] + PutVarint(length) == PutVarint(length);
    }

    /** packet__alloc: the buffer holds the fixed header and has room for exactly remaining_length bytes. */
    method Alloc() returns (rc: Rc)
      requires remainingLength < 0x1_0000_0000
      modifies this`remainingCount, this`packetLength, this`payload, this`pos
      ensures rc == if remainingLength < VARINT_LIMIT then Success else PayloadSize
      ensures rc == Success ==>
        && fresh(payload) && Room(remainingLength) && packetLength == pos + remainingLength
        && Written() == [command] + PutVarint(remainingLength)
    {
      hide PutVarint;
      var bytes := RemainingBytes(remainingLength);
      remainingCount := |bytes|;
      if remainingCount == 5 {
        return PayloadSize;
      }
      packetLength := remainingLength + 1 + remainingCount;
      payload := new byte[packetLength];
      payload[0] := command;
      forall i | 0 <= i < |bytes| {
        payload[i + 1] := bytes[i];
      }
      pos := 1 + remainingCount;
      assert Written() == [command] + bytes;
      rc := Success;
    }

    // ----- property_mosq.c: writing

    /** The switch of property__write. */
    method WriteValue(v: P.Value) returns (rc: Rc)
      requires v.Bin? ==> P.Field(v.bin)
      requires v.Str? ==> P.Field(v.s)
      requires v.Pair? ==> P.Field(v.name) && P.Field(v.s)
      requires v.Var? ==> v.varint < VARINT_LIMIT
      requires Room(|P.PutValue(v)|)
      modifies this`pos, payload
      ensures rc == Success && Room(0) && Written() == old(Written()) + P.PutValue(v)
    {
      hide PutVarint, PutUint16, PutUint32, PutBinary, ValidUtf8;
      rc := Success;
      match v {
        case I8(b) => WriteByte(b);
        case I16(w) => WriteUint16(w);
        case I32(w) => WriteUint32(w);
        case Var(n) => rc := WriteVarint(n);
        case Bin(d) => WriteString(d);
        case Str(d) => WriteString(d);
        case Pair(name, d) =>
          ghost var before := Written();
          WriteString(name);
          WriteString(d);
          assert before + PutBinary(name) + PutBinary(d) == before + (PutBinary(name) + PutBinary(d));
      }
    }

    method WriteProperty(p: P.Property) returns (rc: Rc)
      requires P.Encodable(p) && Room(P.GetLength(p))
      modifies this`pos, payload
      ensures rc == Success && Room(0) && Written() == old(Written()) + P.Put(p)
    {
      hide P.PutValue, PutVarint;
      P.PutLength(p);
      ghost var before := Written();
      rc := WriteVarint(p.identifier);
      rc := WriteValue(p.value);
      assert Written() == before + (PutVarint(p.identifier) + P.PutValue(p.value));
    }

    method WriteProperties(ps: seq<P.Property>, writeLen: bool) returns (rc: Rc)
      requires P.AllEncodable(ps) && P.LengthAll(ps) < VARINT_LIMIT
      requires Room(P.LengthAll(ps) + if writeLen then VarintBytes(P.LengthAll(ps)) else 0)
      modifies this`pos, payload
      ensures rc == Success && Room(0)
      ensures Written() == old(Written()) + if writeLen then P.PutList(ps) else P.PutAll(ps)
    {
      hide P.Encodable, P.GetLength, PutVarint, P.Put, VarintBytes;
      P.PutAllLength(ps);
      if writeLen {
        VarintSize(P.LengthAll(ps));
        var len := P.SumLengths(ps);
        rc := WriteVarint(len);
      }
      ghost var start := Written();
      var p := 0;
      while p < |ps|
        invariant 0 <= p <= |ps| && Room(P.LengthAll(ps[p..]))
        invariant Written() + P.PutAll(ps[p..]) == start + P.PutAll(ps)
      {
        assert ps[p..][1..] == ps[p + 1..];
        ghost var before := Written();
        P.PutLength(ps[p]);
        rc := WriteProperty(ps[p]);
        assert before + (P.Put(ps[p]) + P.PutAll(ps[p + 1..])) == Written() + P.PutAll(ps[p + 1..]);
        p := p + 1;
      }
      assert Written() == Written() + P.PutAll(ps[p..]);
      rc := Success;
    }
  }
}
