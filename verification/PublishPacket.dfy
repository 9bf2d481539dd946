/**
 PUBLISH from send__real_publish to handle__publish: the size computed in advance, the
 bytes written, and what the receiving side decodes from them.
 */
module PublishPacket {
  import opened Wire
  import opened PacketModel
  import P = Property
  import F = Framing

  datatype Publish = Publish(
    dup: bool, qos: nat, retain: bool, topic: seq<byte>, mid: uint16, properties: seq<P.Property>, payload: seq<byte>)

  // ----- Sizes

  /** packetlen as send__real_publish adds it up. */
  function PacketLength(v5: bool, topicLen: nat, payloadLen: nat, qos: nat, proplen: uint32): nat {
    2 + topicLen + payloadLen
    + (if qos > 0 then 2 else 0)
    + if v5 && VarintBytes(proplen) <= 4 then proplen + VarintBytes(proplen) else 0
  }

  /** The bytes its write calls produce; oversized property lists are dropped, their length is not. */
  function BytesWritten(v5: bool, topicLen: nat, payloadLen: nat, qos: nat, proplen: uint32): nat {
    2 + topicLen
    + (if qos > 0 then 2 else 0)
    + (if v5 then |PutVarint(proplen)| + if VarintBytes(proplen) > 4 then 0 else proplen else 0)
    + payloadLen
  }

  /** The buffer is filled exactly unless a v5 property list reaches 2^28 bytes. */
  lemma ExactFillIff(v5: bool, topicLen: nat, payloadLen: nat, qos: nat, proplen: uint32)
    ensures PacketLength(v5, topicLen, payloadLen, qos, proplen) == BytesWritten(v5, topicLen, payloadLen, qos, proplen)
            <==> !v5 || proplen < VARINT_LIMIT
  {
    VarintSize(proplen);
  }

  // ----- Bytes

  function Command(p: Publish): byte
    requires p.qos <= 2
  {
    P.CMD_PUBLISH + (if p.dup then 8 else 0) + 2 * p.qos + if p.retain then 1 else 0
  }

  /** What mosquitto_publish_v5 passes on to send__real_publish. */
  predicate Publishable(p: Publish) {
    p.qos <= 2 && |p.topic| < 0x1_0000 && |p.payload| < VARINT_LIMIT && P.AllEncodable(p.properties)
  }

  predicate Sendable(p: Publish) {
    Publishable(p) && P.LengthAll(p.properties) < VARINT_LIMIT
  }

  function Body(v5: bool, p: Publish): (s: seq<byte>)
    requires Sendable(p)
    ensures |s| < 0x1_0000_0000
  {
    P.RemainingLength(p.properties);
    PutBinary(p.topic)
    + (if p.qos > 0 then PutUint16(p.mid) else [])
    + (if v5 then P.PutList(p.properties) else [])
    + p.payload
  }

  lemma BodyLength(v5: bool, p: Publish)
    requires Sendable(p)
    ensures |Body(v5, p)| == PacketLength(v5, |p.topic|, |p.payload|, p.qos, P.LengthAll(p.properties))
  {
    P.RemainingLength(p.properties);
  }

  // ----- send__real_publish

  lemma {:induction false} PutAllConcat(a: seq<P.Property>, b: seq<P.Property>)
    requires P.AllEncodable(a) && P.AllEncodable(b)
    ensures P.AllEncodable(a + b)
    ensures P.PutAll(a + b) == P.PutAll(a) + P.PutAll(b)
    ensures P.LengthAll(a + b) == P.LengthAll(a) + P.LengthAll(b)
    decreases |a|
  {
    hide P.Encodable, P.Put, P.GetLength;
    if a == [] {
      assert a + b == b;
    } else {
      assert (a + b)[0] == a[0] && (a + b)[1..] == a[1..] + b;
      PutAllConcat(a[1..], b);
    }
  }

  /** The expiry interval is sent as one more property. */
  function ExpiryProperty(interval: uint32): seq<P.Property> {
    if interval > 0 then [P.Property(P.MESSAGE_EXPIRY_INTERVAL, P.I32(interval))] else []
  }

  /** All the properties of a PUBLISH; versions before 5.0 have none. */
  function Properties(v5: bool, client: seq<P.Property>, store: seq<P.Property>, expiry: uint32): seq<P.Property> {
    if v5 then client + store + ExpiryProperty(expiry) else []
  }

  lemma AllProperties(v5: bool, client: seq<P.Property>, store: seq<P.Property>, expiry: uint32)
    requires P.AllEncodable(client) && P.AllEncodable(store)
    ensures var e := ExpiryProperty(expiry); var all := Properties(v5, client, store, expiry);
            && P.AllEncodable(e) && P.AllEncodable(all)
            && P.LengthAll(e) == (if expiry > 0 then 5 else 0)
            && (v5 ==> P.LengthAll(all) == P.LengthAll(client) + P.LengthAll(store) + P.LengthAll(e)
                       && P.PutAll(all) == P.PutAll(client) + P.PutAll(store) + P.PutAll(e))
            && (!v5 ==> P.LengthAll(all) == 0)
  {
    PutAllConcat(client, store);
    PutAllConcat(client + store, ExpiryProperty(expiry));
  }

  method WriteHeader(packet: Packet, topic: seq<byte>, qos: nat, mid: uint16)
    requires |topic| < 0x1_0000 && packet.Room(2 + |topic| + if qos > 0 then 2 else 0)
    modifies packet`pos, packet.payload
    ensures packet.Room(0)
    ensures packet.Written() == old(packet.Written()) + (PutBinary(topic) + if qos > 0 then PutUint16(mid) else [])
  {
    hide PutBinary, PutUint16;
    ghost var before := packet.Written();
    packet.WriteString(topic);
    if qos > 0 {
      packet.WriteUint16(mid);
      assert before + PutBinary(topic) + PutUint16(mid) == before + (PutBinary(topic) + PutUint16(mid));
    } else {
      assert PutBinary(topic) + [] == PutBinary(topic);
    }
  }

  /** The property section: one length for the three lists. */
  method WriteLists(packet: Packet, client: seq<P.Property>, store: seq<P.Property>, expiry: uint32, proplen: uint32)
    requires P.AllEncodable(client) && P.AllEncodable(store)
    requires proplen == P.LengthAll(Properties(true, client, store, expiry)) < VARINT_LIMIT
    requires packet.Room(proplen + VarintBytes(proplen))
    modifies packet`pos, packet.payload
    ensures packet.Room(0) && P.AllEncodable(Properties(true, client, store, expiry))
    ensures packet.Written() == old(packet.Written()) + P.PutList(Properties(true, client, store, expiry))
  {
    hide P.Encodable, P.LengthAll, P.PutAll, PutVarint, VarintBytes;
    AllProperties(true, client, store, expiry);
    VarintSize(proplen);
    ghost var e := ExpiryProperty(expiry);
    P.PutAllLength(client);
    P.PutAllLength(store);
    P.PutAllLength(e);
    ghost var before := packet.Written();
    var rc := packet.WriteVarint(proplen);
    rc := packet.WriteProperties(client, false);
    rc := packet.WriteProperties(store, false);
    if expiry > 0 {
      rc := packet.WriteProperties([P.Property(P.MESSAGE_EXPIRY_INTERVAL, P.I32(expiry))], false);
    }
    assert packet.Written() == before + (PutVarint(proplen) + (P.PutAll(client) + P.PutAll(store) + P.PutAll(e))) by {
      assert expiry == 0 ==> P.PutAll(e) == [];
    }
  }

  predicate Oversize(maximum: uint32, remainingLength: uint32) {
    maximum != 0 && remainingLength + VarintBytes(remainingLength) > maximum
  }

  function SendRc(maximum: uint32, remainingLength: uint32): Rc {
    if Oversize(maximum, remainingLength) then OversizePacket
    else if remainingLength >= VARINT_LIMIT then PayloadSize
    else Success
  }

  /**
   send__real_publish up to packet__queue.  The write functions assert that the buffer has
   room; `fits` says whether that holds for all of them, and then the cursor ends at the end.
   */
  method SendPublish(v5: bool, maximumPacketSize: uint32, p: Publish, store: seq<P.Property>, expiry: uint32)
    returns (rc: Rc, packet: Packet, fits: bool)
    requires Publishable(p) && P.AllEncodable(store)
    requires P.LengthAll(Properties(v5, p.properties, store, expiry)) < 0x1_0000_0000
    ensures var sent := p.(properties := Properties(v5, p.properties, store, expiry));
            var n := P.LengthAll(sent.properties);
            && rc == SendRc(maximumPacketSize, PacketLength(v5, |p.topic|, |p.payload|, p.qos, n))
            && (rc == Success ==> (fits <==> n < VARINT_LIMIT))
            && (rc == Success && fits ==>
                  && packet.pos == packet.packetLength == packet.payload.Length
                  && packet.mid == p.mid && Sendable(sent)
                  && packet.payload[..] == F.FrameBytes(F.Frame(Command(sent), Body(v5, sent))))
  {
    hide P.AllEncodable, P.LengthAll, PutVarint, Body, Command, PacketLength, Properties, BytesWritten;
    AllProperties(v5, p.properties, store, expiry);
    ghost var sent := p.(properties := Properties(v5, p.properties, store, expiry));
    var proplen, packetlen, dropped := SumSizes(v5, p, store, expiry);
    PacketLengthBound(v5, |p.topic|, |p.payload|, p.qos, proplen);
    packet := new Packet();
    fits := true;
    if Oversize(maximumPacketSize, packetlen) {
      return OversizePacket, packet, fits;
    }
    packet.mid := p.mid;
    packet.command := Command(p);
    packet.remainingLength := packetlen;
    rc := packet.Alloc();
    if rc != Success {
      return;
    }
    ghost var header := packet.Written();
    fits := WriteBody(packet, v5, p, store, expiry, proplen, dropped);
    ExactFillIff(v5, |p.topic|, |p.payload|, p.qos, proplen);
    if fits {
      BodyLength(v5, sent);
      Filled(packet, header, Body(v5, sent));
      CommandIgnoresProperties(p, sent);
    }
  }

  lemma PacketLengthBound(v5: bool, topicLen: nat, payloadLen: nat, qos: nat, proplen: uint32)
    requires topicLen < 0x1_0000 && payloadLen < VARINT_LIMIT
    ensures PacketLength(v5, topicLen, payloadLen, qos, proplen) < 0x1_0000_0000
  {
  }

  lemma Filled(packet: Packet, header: seq<byte>, body: seq<byte>)
    requires packet.Room(0) && packet.Written() == header + body && packet.packetLength == |header| + |body|
    ensures packet.pos == packet.packetLength == packet.payload.Length && packet.payload[..] == header + body
  {
    assert packet.payload[..] == packet.payload[..packet.pos];
  }

  lemma CommandIgnoresProperties(p: Publish, sent: Publish)
    requires p.qos <= 2 && sent == p.(properties := sent.properties)
    ensures Command(p) == Command(sent)
  {
  }

  /** The size computation of send__real_publish; an oversized list is dropped, and its length not counted. */
  method SumSizes(v5: bool, p: Publish, store: seq<P.Property>, expiry: uint32)
    returns (proplen: nat, packetlen: nat, dropped: bool)
    requires Publishable(p) && P.AllEncodable(store)
    requires P.LengthAll(Properties(v5, p.properties, store, expiry)) < 0x1_0000_0000
    ensures proplen == P.LengthAll(Properties(v5, p.properties, store, expiry))
    ensures packetlen == PacketLength(v5, |p.topic|, |p.payload|, p.qos, proplen)
    ensures dropped <==> v5 && proplen >= VARINT_LIMIT
  {
    hide P.LengthAll, P.AllEncodable, Properties;
    AllProperties(v5, p.properties, store, expiry);
    proplen, dropped := 0, false;
    packetlen := 2 + |p.topic| + |p.payload|;
    if p.qos > 0 {
      packetlen := packetlen + 2;
    }
    if v5 {
      var len := P.SumLengths(p.properties);
      proplen := proplen + len;
      len := P.SumLengths(store);
      proplen := proplen + len;
      len := P.SumLengths(ExpiryProperty(expiry));
      proplen := proplen + len;
      var varbytes := VarintBytes(proplen);
      if varbytes > 4 {
        dropped := true;
      } else {
        packetlen := packetlen + proplen + varbytes;
      }
    }
  }

  /**
   The write calls of send__real_publish, in a buffer with room for the precomputed length.
   They run out of room exactly when the bytes to write are not as many as that.
   */
  method WriteBody(packet: Packet, v5: bool, p: Publish, store: seq<P.Property>, expiry: uint32, proplen: nat, dropped: bool)
    returns (fits: bool)
    requires Publishable(p) && P.AllEncodable(store)
    requires proplen == P.LengthAll(Properties(v5, p.properties, store, expiry)) < 0x1_0000_0000
    requires dropped <==> v5 && proplen >= VARINT_LIMIT
    requires packet.Room(0) && packet.packetLength == packet.pos + PacketLength(v5, |p.topic|, |p.payload|, p.qos, proplen)
    modifies packet`pos, packet.payload
    ensures packet.Room(0)
    ensures fits <==> BytesWritten(v5, |p.topic|, |p.payload|, p.qos, proplen)
                      == PacketLength(v5, |p.topic|, |p.payload|, p.qos, proplen)
    ensures var sent := p.(properties := Properties(v5, p.properties, store, expiry));
            fits ==> Sendable(sent) && packet.Written() == old(packet.Written()) + Body(v5, sent)
  {
    hide P.AllEncodable, P.LengthAll, PutBinary, PutUint16, P.PutList, VarintBytes, PutVarint, Body, Properties;
    AllProperties(v5, p.properties, store, expiry);
    VarintSize(proplen);
    ghost var sent := p.(properties := Properties(v5, p.properties, store, expiry));
    ghost var before := packet.Written();
    var header := 2 + |p.topic| + if p.qos > 0 then 2 else 0;
    if !packet.Room(header) {
      return false;
    }
    WriteHeader(packet, p.topic, p.qos, p.mid);
    assert packet.pos == |before| + header;
    if v5 {
      var varbytes := VarintBytes(proplen);
      FewVarintBytes(proplen);
      if !packet.Room(varbytes) {
        return false;
      }
      if dropped {
        var rc := packet.WriteVarint(proplen);
      } else {
        if !packet.Room(varbytes + proplen) {
          return false;
        }
        WriteLists(packet, p.properties, store, expiry, proplen);
        P.RemainingLength(sent.properties);
        assert packet.pos == |before| + header + varbytes + proplen;
      }
    } else {
      assert packet.Written() + [] == packet.Written();
    }
    if !packet.Room(|p.payload|) {
      return false;
    }
    packet.WriteBytes(p.payload);
    fits := true;
    if !dropped {
      BodyParts(v5, sent, before);
    }
  }

  lemma FewVarintBytes(n: uint32)
    ensures VarintBytes(n) <= 5 && (VarintBytes(n) <= 4 <==> n < VARINT_LIMIT)
  {
  }

  // ----- A message whose properties are dropped

  function Letters(n: nat): (s: seq<byte>)
    ensures |s| == n && forall i :: 0 <= i < n ==> s[i] == 97
  {
    seq(n, _ => 97)
  }

  lemma {:induction false} LettersValid(s: seq<byte>)
    requires forall i :: 0 <= i < |s| ==> s[i] == 97
    ensures ValidUtf8(s)
    decreases |s|
  {
    if s != [] {
      LettersValid(s[1..]);
      assert s[1..1] == [];
    }
  }

  lemma {:induction false} LengthRepeated(p: P.Property, n: nat)
    ensures P.LengthAll(seq(n, _ => p)) == n * P.GetLength(p)
    decreases n
  {
    var ps := seq(n, _ => p);
    if n > 0 {
      assert ps[1..] == seq(n - 1, _ => p);
      LengthRepeated(p, n - 1);
      assert n * P.GetLength(p) == P.GetLength(p) + (n - 1) * P.GetLength(p);
    }
  }

  /** A user property of the largest size, and 2048 of them. */
  function LargeProperty(): P.Property {
    P.Property(P.USER_PROPERTY, P.Pair(Letters(0xFFFF), Letters(0xFFFF)))
  }

  function DroppedProperties(): seq<P.Property> {
    seq(2048, _ => LargeProperty())
  }

  lemma LargeIsEncodable()
    ensures P.Encodable(LargeProperty()) && P.GetLength(LargeProperty()) == 131075
    ensures P.ValueAllowed(LargeProperty()) && P.AllowedOn(P.CMD_PUBLISH, LargeProperty().identifier)
  {
    LettersValid(Letters(0xFFFF));
  }

  /** A message that mosquitto_publish_v5 accepts and that no buffer of the precomputed length can hold. */
  lemma DroppedMessage()
    ensures var p := Publish(false, 0, false, [97], 0, DroppedProperties(), []);
            && Publishable(p) && P.CheckAll(P.CMD_PUBLISH, p.properties) == Success
            && VARINT_LIMIT <= P.LengthAll(p.properties) < 0x1_0000_0000
  {
    hide LargeProperty, P.Encodable, P.LengthAll, P.GetLength, P.CheckAll, P.ValueAllowed, P.AllowedOn;
    LargeIsEncodable();
    LengthRepeated(LargeProperty(), 2048);
    P.CheckAllMeaning(P.CMD_PUBLISH, DroppedProperties());
    assert LargeProperty().identifier == P.USER_PROPERTY by { IsUser(); }
  }

  lemma IsUser()
    ensures LargeProperty().identifier == P.USER_PROPERTY
  {
  }

  function Header(p: Publish): seq<byte>
    requires |p.topic| < 0x1_0000
  {
    PutBinary(p.topic) + if p.qos > 0 then PutUint16(p.mid) else []
  }

  function Lists(v5: bool, p: Publish): seq<byte>
    requires Sendable(p)
  {
    if v5 then P.PutList(p.properties) else []
  }

  lemma BodyParts(v5: bool, p: Publish, before: seq<byte>)
    requires Sendable(p)
    ensures before + Header(p) + Lists(v5, p) + p.payload == before + Body(v5, p)
    ensures |Header(p)| == 2 + |p.topic| + if p.qos > 0 then 2 else 0
    ensures |Lists(v5, p)| == if v5 then P.LengthAll(p.properties) + VarintBytes(P.LengthAll(p.properties)) else 0
    ensures var n := P.LengthAll(p.properties);
            PacketLength(v5, |p.topic|, |p.payload|, p.qos, n) == |Header(p)| + |Lists(v5, p)| + |p.payload|
  {
    P.RemainingLength(p.properties);
    assert before + (Header(p) + Lists(v5, p) + p.payload) == before + Header(p) + Lists(v5, p) + p.payload;
  }

  // ----- handle__publish: decoding

  datatype Decoded = Decoded(value: Publish) | Rejected(rc: Rc)

  /** `quota` is the receive quota left; the rest of the body is the payload. */
  function Decode(v5: bool, quota: nat, command: byte, s: seq<byte>): Decoded {
    var dup, qos, retain := command / 8 % 2 == 1, command / 2 % 4, command % 2 == 1;
    match GetString(s)
    case Failed(rc) => Rejected(rc)
    case Parsed(topic, afterTopic) =>
      if topic == [] then Rejected(Protocol)
      else if qos > 0 && v5 && quota == 0 then Rejected(Protocol)
      else
        match if qos > 0 then GetUint16(afterTopic) else Parsed(0, afterTopic)
        case Failed(rc) => Rejected(rc)
        case Parsed(mid, afterMid) =>
          if qos > 0 && mid == 0 then Rejected(Protocol)
          else
            match if v5 then P.ReadAll(P.CMD_PUBLISH, afterMid) else Parsed([], afterMid)
            case Failed(rc) => Rejected(rc)
            case Parsed(properties, payload) =>
              if qos == 3 then Rejected(Protocol)
              else Decoded(Publish(dup, qos, retain, topic, mid, properties, payload))
  }

  /** The PUBLISH packets a peer can send: the sender's conditions plus what the receiver checks. */
  predicate Acceptable(v5: bool, quota: nat, p: Publish) {
    && Sendable(p)
    && p.topic != [] && ValidUtf8(p.topic)
    && (if p.qos > 0 then p.mid != 0 && (v5 ==> quota > 0) else p.mid == 0)
    && (if v5 then P.CheckAll(P.CMD_PUBLISH, p.properties) == Success else p.properties == [])
  }

  lemma CommandExact(command: byte, p: Publish)
    requires P.CMD_PUBLISH <= command < P.CMD_PUBLISH + 16 && p.qos <= 2
    ensures command == Command(p)
            <==> p.dup == (command / 8 % 2 == 1) && p.qos == command / 2 % 4 && p.retain == (command % 2 == 1)
  {
  }

  /** What Decode reads after the topic. */
  function Tail(v5: bool, p: Publish): seq<byte>
    requires Sendable(p)
  {
    (if v5 then P.PutList(p.properties) else []) + p.payload
  }

  lemma BodySplits(v5: bool, p: Publish)
    requires Sendable(p)
    ensures Body(v5, p) == PutBinary(p.topic) + ((if p.qos > 0 then PutUint16(p.mid) else []) + Tail(v5, p))
    ensures p.qos == 0 ==> (if p.qos > 0 then PutUint16(p.mid) else []) + Tail(v5, p) == Tail(v5, p)
    ensures !v5 ==> Tail(v5, p) == p.payload
  {
  }

  /**
   End to end: handle__publish accepts exactly the bodies send__real_publish builds from
   acceptable messages, and decodes them to the same message.
   */
  lemma DecodeExact(v5: bool, quota: nat, command: byte, s: seq<byte>, p: Publish)
    requires P.CMD_PUBLISH <= command < P.CMD_PUBLISH + 16 && |s| < VARINT_LIMIT
    ensures Decode(v5, quota, command, s) == Decoded(p)
            <==> Acceptable(v5, quota, p) && command == Command(p) && s == Body(v5, p)
  {
    hide GetString, GetUint16, P.ReadAll, P.PutList, PutBinary, PutUint16, Body, Tail, P.LengthAll, P.CheckAll, P.Encodable,
      ValidUtf8, Command;
    if p.qos <= 2 { CommandExact(command, p); }
    if Decode(v5, quota, command, s) == Decoded(p) {
      var r1 := GetString(s);
      StringExact(s, r1.value, r1.rest);
      var r2 := if p.qos > 0 then GetUint16(r1.rest) else Parsed(0, r1.rest);
      Uint16Exact(r1.rest, r2.value, r2.rest);
      P.ReadAllExact(P.CMD_PUBLISH, r2.rest, p.properties, p.payload);
      SendableDecoded(v5, p, r2.rest);
      BodySplits(v5, p);
    }
    if Acceptable(v5, quota, p) && command == Command(p) && s == Body(v5, p) {
      BodySplits(v5, p);
      var afterMid := Tail(v5, p);
      var afterTopic := (if p.qos > 0 then PutUint16(p.mid) else []) + afterMid;
      StringExact(s, p.topic, afterTopic);
      Uint16Exact(afterTopic, p.mid, afterMid);
      TailReads(v5, p);
    }
  }

  lemma SendableDecoded(v5: bool, p: Publish, s: seq<byte>)
    requires |s| < VARINT_LIMIT && p.qos <= 2 && |p.topic| < 0x1_0000
    requires if v5 then P.ReadAll(P.CMD_PUBLISH, s) == Parsed(p.properties, p.payload)
             else p.properties == [] && p.payload == s
    ensures Sendable(p) && s == Tail(v5, p) && (v5 ==> P.CheckAll(P.CMD_PUBLISH, p.properties) == Success)
  {
    if v5 {
      P.ReadAllExact(P.CMD_PUBLISH, s, p.properties, p.payload);
    } else {
      assert s == [] + p.payload;
    }
  }

  lemma TailReads(v5: bool, p: Publish)
    requires Sendable(p) && |Tail(v5, p)| < VARINT_LIMIT
    requires v5 ==> P.CheckAll(P.CMD_PUBLISH, p.properties) == Success
    ensures v5 ==> P.ReadAll(P.CMD_PUBLISH, Tail(v5, p)) == Parsed(p.properties, p.payload)
    ensures !v5 ==> Tail(v5, p) == p.payload
  {
    if v5 {
      P.ReadAllExact(P.CMD_PUBLISH, Tail(v5, p), p.properties, p.payload);
    }
  }

  /** The bytes of one PUBLISH, followed by anything, are cut out by packet__read and decoded to the message sent. */
  lemma EndToEnd(v5: bool, quota: nat, p: Publish, rest: seq<byte>)
    requires Acceptable(v5, quota, p) && |Body(v5, p)| < VARINT_LIMIT
    ensures F.Frames(F.FrameBytes(F.Frame(Command(p), Body(v5, p))) + rest)
            == F.Then([F.Frame(Command(p), Body(v5, p))], F.Frames(rest))
    ensures Decode(v5, quota, Command(p), Body(v5, p)) == Decoded(p)
  {
    F.FirstFrame(F.Frame(Command(p), Body(v5, p)), rest);
    DecodeExact(v5, quota, Command(p), Body(v5, p), p);
  }

  /** handle__publish up to the switch on the QoS. */
  method DecodePublish(v5: bool, quota: nat, packet: Packet) returns (r: Decoded)
    requires packet.Readable()
    modifies packet`pos
    ensures r == Decode(v5, quota, packet.command, old(packet.Rest()))
  {
    hide GetString, GetUint16, P.ReadAll;
    var header := packet.command;
    var dup, qos, retain := header / 8 % 2 == 1, header / 2 % 4, header % 2 == 1;
    var rc, topic := packet.ReadString();
    if rc != Success {
      return Rejected(rc);
    }
    if |topic| == 0 {
      return Rejected(Protocol);
    }
    var mid := 0;
    if qos > 0 {
      if v5 && quota == 0 {
        return Rejected(Protocol);
      }
      rc, mid := packet.ReadUint16();
      if rc != Success {
        return Rejected(rc);
      }
      if mid == 0 {
        return Rejected(Protocol);
      }
    }
    var properties := [];
    if v5 {
      rc, properties := packet.ReadProperties(P.CMD_PUBLISH);
      if rc != Success {
        return Rejected(rc);
      }
    }
    ghost var rest := packet.Rest();
    var payload;
    rc, payload := packet.ReadBytes(packet.remainingLength - packet.pos);
    assert payload == rest;
    if qos == 3 {
      return Rejected(Protocol);
    }
    r := Decoded(Publish(dup, qos, retain, topic, mid, properties, payload));
  }
}
