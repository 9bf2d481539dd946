/**
 CONNECT, SUBSCRIBE, UNSUBSCRIBE, DISCONNECT and the four acknowledgements: each packet's
 size is summed up first, a buffer of that size is allocated, and writing ends exactly at
 its end.  The acknowledgements are also decoded again.
 */
module Senders {
  import opened Basics
  import opened Wire
  import opened PacketModel
  import opened PublishPacket
  import P = Property
  import F = Framing

  /** packet__alloc on a new packet. */
  method Start(command: byte, remainingLength: uint32) returns (rc: Rc, packet: Packet)
    ensures fresh(packet)
    ensures rc == if remainingLength < VARINT_LIMIT then Success else PayloadSize
    ensures rc == Success ==>
      && fresh(packet.payload) && packet.Room(remainingLength) && packet.packetLength == packet.pos + remainingLength
      && packet.Written() == [command] + PutVarint(remainingLength)
  {
    hide PutVarint;
    packet := new Packet();
    packet.command := command;
    packet.remainingLength := remainingLength;
    rc := packet.Alloc();
  }

  /** The buffer holds exactly this packet and the cursor is at its end. */
  predicate Holds(packet: Packet, command: byte, body: seq<byte>)
    reads packet, packet.payload
  {
    && packet.pos == packet.packetLength == packet.payload.Length
    && packet.payload[..] == F.FrameBytes(F.Frame(command, body))
  }

  predicate Listable(ps: seq<P.Property>) {
    P.AllEncodable(ps) && P.LengthAll(ps) < VARINT_LIMIT
  }

  /** Size of a property list with its length field: property__get_remaining_length. */
  function ListLength(ps: seq<P.Property>): nat
    requires P.LengthAll(ps) < VARINT_LIMIT
  {
    P.LengthAll(ps) + VarintBytes(P.LengthAll(ps))
  }

  lemma Assoc2(w: seq<byte>, a: seq<byte>, b: seq<byte>)
    ensures w + (a + b) == w + a + b
  {
  }

  lemma Assoc3(w: seq<byte>, a: seq<byte>, b: seq<byte>, c: seq<byte>)
    ensures w + (a + b + c) == w + a + b + c
  {
  }

  lemma Assoc4(w: seq<byte>, a: seq<byte>, b: seq<byte>, c: seq<byte>, d: seq<byte>)
    ensures w + (a + b + c + d) == w + a + b + c + d
  {
    Assoc3(w, a, b, c);
  }

  lemma Assoc5(w: seq<byte>, a: seq<byte>, b: seq<byte>, c: seq<byte>, d: seq<byte>, e: seq<byte>)
    ensures w + (a + b + c + d + e) == w + a + b + c + d + e
  {
    Assoc3(w, a, b, c);
    Assoc3(w, a + b + c, d, e);
  }

  // ----- send__command_with_mid, send__disconnect

  /** The optional reason code and property list of MQTT v5.0. */
  function Trailer(v5: bool, reason: byte, ps: seq<P.Property>): seq<byte>
    requires Listable(ps)
  {
    (if v5 && (reason != 0 || ps != []) then [reason] else [])
    + if v5 && ps != [] then P.PutList(ps) else []
  }

  function TrailerLength(v5: bool, reason: byte, ps: seq<P.Property>): nat
    requires Listable(ps)
  {
    (if v5 && (reason != 0 || ps != []) then 1 else 0) + if v5 && ps != [] then ListLength(ps) else 0
  }

  method WriteTrailer(packet: Packet, v5: bool, reason: byte, ps: seq<P.Property>)
    requires Listable(ps) && packet.Room(TrailerLength(v5, reason, ps))
    modifies packet`pos, packet.payload
    ensures packet.Room(0) && packet.Written() == old(packet.Written()) + Trailer(v5, reason, ps)
    ensures |Trailer(v5, reason, ps)| == TrailerLength(v5, reason, ps)
  {
    hide P.AllEncodable, P.LengthAll, P.PutList, VarintBytes;
    P.RemainingLength(ps);
    ghost var before := packet.Written();
    if v5 && (reason != 0 || ps != []) {
      packet.WriteByte(reason);
      if ps != [] {
        var rc := packet.WriteProperties(ps, true);
        assert before + [reason] + P.PutList(ps) == before + ([reason] + P.PutList(ps));
      }
    }
    assert packet.Written() == before + Trailer(v5, reason, ps);
  }

  method SendCommandWithMid(v5: bool, command: byte, mid: uint16, reason: byte, ps: seq<P.Property>)
    returns (rc: Rc, packet: Packet)
    requires Listable(ps)
    ensures rc == if 2 + TrailerLength(v5, reason, ps) < VARINT_LIMIT then Success else PayloadSize
    ensures rc == Success ==> Holds(packet, command, PutUint16(mid) + Trailer(v5, reason, ps))
  {
    hide P.AllEncodable, P.LengthAll, P.PutList, VarintBytes, PutVarint, PutUint16;
    var remaining := 2;
    if v5 {
      if reason != 0 || ps != [] {
        remaining := remaining + 1;
      }
      if ps != [] {
        var len := P.SumLengths(ps);
        remaining := remaining + (len + VarintBytes(len));
      }
    }
    rc, packet := Start(command, remaining);
    if rc != Success {
      return;
    }
    ghost var header := packet.Written();
    packet.WriteUint16(mid);
    WriteTrailer(packet, v5, reason, ps);
    assert header + PutUint16(mid) + Trailer(v5, reason, ps) == header + (PutUint16(mid) + Trailer(v5, reason, ps));
    Filled(packet, header, PutUint16(mid) + Trailer(v5, reason, ps));
  }

  method SendDisconnect(v5: bool, reason: byte, ps: seq<P.Property>) returns (rc: Rc, packet: Packet)
    requires Listable(ps)
    ensures rc == if TrailerLength(v5, reason, ps) < VARINT_LIMIT then Success else PayloadSize
    ensures rc == Success ==> Holds(packet, P.CMD_DISCONNECT, Trailer(v5, reason, ps))
  {
    hide P.AllEncodable, P.LengthAll, P.PutList, VarintBytes, PutVarint;
    var remaining := 0;
    if v5 && (reason != 0 || ps != []) {
      remaining := 1;
      if ps != [] {
        var len := P.SumLengths(ps);
        remaining := remaining + (len + VarintBytes(len));
      }
    }
    rc, packet := Start(P.CMD_DISCONNECT, remaining);
    if rc != Success {
      return;
    }
    ghost var header := packet.Written();
    WriteTrailer(packet, v5, reason, ps);
    Filled(packet, header, Trailer(v5, reason, ps));
  }

  // ----- send__subscribe, send__unsubscribe

  predicate Topics(topics: seq<seq<byte>>) {
    forall i :: 0 <= i < |topics| ==> |topics[i]| < 0x1_0000
  }

  /** The topics, each followed by the options byte if there is one. */
  function TopicList(topics: seq<seq<byte>>, options: seq<byte>): seq<byte>
    requires Topics(topics)
  {
    if topics == [] then [] else PutBinary(topics[0]) + options + TopicList(topics[1..], options)
  }

  function TopicLength(topics: seq<seq<byte>>, options: seq<byte>): nat {
    if topics == [] then 0 else 2 + |topics[0]| + |options| + TopicLength(topics[1..], options)
  }

  lemma {:induction false} TopicListLength(topics: seq<seq<byte>>, options: seq<byte>)
    requires Topics(topics)
    ensures |TopicList(topics, options)| == TopicLength(topics, options)
    decreases |topics|
  {
    if topics != [] {
      TopicListLength(topics[1..], options);
    }
  }

  /** The loop that adds up packetlen in 32 bits; None when a topic is too long for its length field. */
  method SumTopics(start: uint32, topics: seq<seq<byte>>, options: seq<byte>) returns (len: Option<uint32>)
    ensures len == if Topics(topics) then Some((start + TopicLength(topics, options)) % 0x1_0000_0000) else None
  {
    var sum: uint32, i := start, 0;
    while i < |topics|
      invariant 0 <= i <= |topics|
      invariant forall j :: 0 <= j < i ==> |topics[j]| < 0x1_0000
      invariant (sum + TopicLength(topics[i..], options)) % 0x1_0000_0000 == (start + TopicLength(topics, options)) % 0x1_0000_0000
    {
      assert topics[i..][1..] == topics[i + 1..];
      if |topics[i]| > 0xFFFF {
        return None;
      }
      sum := (sum + (2 + |topics[i]| + |options|)) % 0x1_0000_0000;
      i := i + 1;
    }
    len := Some(sum);
  }

  /** The loop that writes the topics, up to the first one for which the buffer has no room. */
  method WriteTopics(packet: Packet, topics: seq<seq<byte>>, options: seq<byte>) returns (fits: bool)
    requires Topics(topics) && packet.Room(0)
    modifies packet`pos, packet.payload
    ensures packet.Room(0) && (fits <==> old(packet.Room(TopicLength(topics, options))))
    ensures fits ==> packet.Written() == old(packet.Written()) + TopicList(topics, options)
  {
    hide PutBinary;
    ghost var start := packet.Written();
    var i := 0;
    while i < |topics|
      invariant 0 <= i <= |topics| && packet.Room(0)
      invariant packet.pos + TopicLength(topics[i..], options) == |start| + TopicLength(topics, options)
      invariant packet.Written() + TopicList(topics[i..], options) == start + TopicList(topics, options)
    {
      assert topics[i..][1..] == topics[i + 1..];
      ghost var before, rest := packet.Written(), TopicList(topics[i + 1..], options);
      if !packet.Room(2 + |topics[i]| + |options|) {
        return false;
      }
      packet.WriteString(topics[i]);
      packet.WriteBytes(options);
      assert before + (PutBinary(topics[i]) + options + rest) == before + PutBinary(topics[i]) + options + rest;
      i := i + 1;
    }
    assert packet.Written() + [] == packet.Written();
    fits := true;
  }

  function SubscriptionBody(v5: bool, mid: uint16, topics: seq<seq<byte>>, options: seq<byte>, ps: seq<P.Property>): seq<byte>
    requires Topics(topics) && Listable(ps)
  {
    PutUint16(mid) + (if v5 then P.PutList(ps) else []) + TopicList(topics, options)
  }

  function SubscriptionLength(v5: bool, topics: seq<seq<byte>>, options: seq<byte>, ps: seq<P.Property>): nat
    requires Listable(ps)
  {
    2 + (if v5 then ListLength(ps) else 0) + TopicLength(topics, options)
  }

  /**
   send__subscribe with the options byte of its topics, send__unsubscribe with none.  The
   write functions assert that the buffer has room; that holds exactly when the sum of the
   lengths has not wrapped.
   */
  method SendSubscription(v5: bool, command: byte, mid: uint16, topics: seq<seq<byte>>, options: seq<byte>,
                          ps: seq<P.Property>)
    returns (rc: Rc, packet: Packet, fits: bool)
    requires Listable(ps)
    ensures var n := SubscriptionLength(v5, topics, options, ps);
            && rc == (if !Topics(topics) then Inval
                      else if n % 0x1_0000_0000 < VARINT_LIMIT then Success else PayloadSize)
            && (rc == Success ==> (fits <==> n < 0x1_0000_0000))
    ensures rc == Success && fits ==> Holds(packet, command, SubscriptionBody(v5, mid, topics, options, ps))
  {
    hide P.AllEncodable, P.LengthAll, P.PutList, VarintBytes, PutVarint, PutUint16, TopicLength, TopicList;
    var packetlen := 2;
    if v5 {
      var len := P.SumLengths(ps);
      packetlen := packetlen + (len + VarintBytes(len));
    }
    fits := true;
    SmallList(ps);
    var sum := SumTopics(packetlen, topics, options);
    if sum.None? {
      packet := new Packet();
      return Inval, packet, fits;
    }
    rc, packet := Start(command, sum.value);
    if rc != Success {
      return;
    }
    fits := WriteSubscription(packet, v5, mid, topics, options, ps);
    if fits {
      assert packet.pos == packet.packetLength;
      Filled(packet, [command] + PutVarint(sum.value), SubscriptionBody(v5, mid, topics, options, ps));
    }
  }

  lemma SmallList(ps: seq<P.Property>)
    requires Listable(ps)
    ensures ListLength(ps) <= VARINT_LIMIT + 4
  {
  }

  method WriteSubscription(packet: Packet, v5: bool, mid: uint16, topics: seq<seq<byte>>, options: seq<byte>,
                           ps: seq<P.Property>)
    returns (fits: bool)
    requires Topics(topics) && Listable(ps) && packet.Room(0)
    modifies packet`pos, packet.payload
    ensures packet.Room(0) && (fits <==> old(packet.Room(SubscriptionLength(v5, topics, options, ps))))
    ensures fits ==>
      && packet.Written() == old(packet.Written()) + SubscriptionBody(v5, mid, topics, options, ps)
      && packet.pos == old(packet.pos) + SubscriptionLength(v5, topics, options, ps)
  {
    hide P.AllEncodable, P.LengthAll, P.PutList, VarintBytes, PutUint16, TopicLength, TopicList;
    P.RemainingLength(ps);
    TopicListLength(topics, options);
    ghost var header := packet.Written();
    if !packet.Room(2) {
      return false;
    }
    packet.WriteUint16(mid);
    ghost var list := if v5 then P.PutList(ps) else [];
    if v5 {
      var len := P.SumLengths(ps);
      if !packet.Room(len + VarintBytes(len)) {
        return false;
      }
      var rc := packet.WriteProperties(ps, true);
    }
    assert packet.Written() == header + PutUint16(mid) + list;
    fits := WriteTopics(packet, topics, options);
    if fits {
      Assoc3(header, PutUint16(mid), list, TopicList(topics, options));
    }
  }

  // ----- handle__pubackcomp, handle__pubrec, handle__pubrel: decoding

  datatype AckKind = Puback | Pubrec | Pubrel | Pubcomp

  datatype DecodedAck = AckFields(mid: uint16, reason: byte) | AckRejected(rc: Rc)

  /** The reason codes accepted for each packet. */
  predicate ReasonAllowed(kind: AckKind, reason: byte) {
    match kind
    case Puback => reason in {0, 16, 128, 131, 135, 144, 145, 151, 153}
    case Pubrec => reason in {0, 16, 128, 131, 135, 144, 145, 151}
    case Pubrel => reason in {0, 146}
    case Pubcomp => reason in {0, 146}
  }

  /** handle__pubackcomp checks the reason code after the properties, the others before. */
  predicate ChecksLate(kind: AckKind) {
    kind.Puback? || kind.Pubcomp?
  }

  function AckCommand(kind: AckKind): int {
    match kind
    case Pubrec => P.CMD_PUBREC
    case Pubrel => P.CMD_PUBREL
    case _ => P.CMD_PUBACK
  }

  function DecodeAck(kind: AckKind, v5: bool, s: seq<byte>): DecodedAck {
    match GetUint16(s)
    case Failed(rc) => AckRejected(rc)
    case Parsed(mid, afterMid) =>
      if mid == 0 then AckRejected(Protocol)
      else if v5 && |s| > 2 then
        match GetByte(afterMid)
        case Failed(rc) => AckRejected(rc)
        case Parsed(reason, afterReason) =>
          if !ChecksLate(kind) && !ReasonAllowed(kind, reason) then AckRejected(Protocol)
          else
            match if |s| > 3 then P.ReadAll(AckCommand(kind), afterReason) else Parsed([], afterReason)
            case Failed(rc) => AckRejected(rc)
            case Parsed(_, rest) =>
              if !ReasonAllowed(kind, reason) then AckRejected(Protocol)
              else if rest != [] then AckRejected(MalformedPacket)
              else AckFields(mid, reason)
      else if afterMid != [] then AckRejected(MalformedPacket)
      else AckFields(mid, 0)
  }

  /** An acknowledgement built by send__command_with_mid is understood by its handler. */
  lemma AckRoundTrip(kind: AckKind, v5: bool, mid: uint16, reason: byte, ps: seq<P.Property>)
    requires Listable(ps) && mid != 0 && ReasonAllowed(kind, reason)
    requires P.CheckAll(AckCommand(kind), ps) == Success
    requires 2 + TrailerLength(v5, reason, ps) < VARINT_LIMIT
    ensures DecodeAck(kind, v5, PutUint16(mid) + Trailer(v5, reason, ps)) == AckFields(mid, if v5 then reason else 0)
  {
    hide P.ReadAll, P.AllEncodable, P.PutList, P.CheckAll, P.LengthAll, GetUint16, PutUint16, VarintBytes;
    var trailer := Trailer(v5, reason, ps);
    Uint16Exact(PutUint16(mid) + trailer, mid, trailer);
    P.RemainingLength(ps);
    if v5 && ps != [] {
      assert trailer[1..] == P.PutList(ps) + [];
      P.ReadAllExact(AckCommand(kind), P.PutList(ps), ps, []);
      assert P.PutList(ps) == P.PutList(ps) + [];
    }
  }

  /** What a handler accepts is well formed: an identifier, then at most a reason code, then at most a checked list. */
  lemma AckSound(kind: AckKind, v5: bool, s: seq<byte>)
    requires |s| < VARINT_LIMIT && DecodeAck(kind, v5, s).AckFields?
    ensures var a := DecodeAck(kind, v5, s);
            && a.mid != 0 && ReasonAllowed(kind, a.reason)
            && ((s == PutUint16(a.mid) && a.reason == 0)
                || (v5 && s == PutUint16(a.mid) + [a.reason])
                || (v5 && exists ps :: Listable(ps) && P.CheckAll(AckCommand(kind), ps) == Success
                                       && s == PutUint16(a.mid) + [a.reason] + P.PutList(ps)))
  {
    hide P.ReadAll, P.AllEncodable, P.PutList, P.CheckAll, P.LengthAll, GetUint16, PutUint16;
    var a, r := DecodeAck(kind, v5, s), GetUint16(s);
    Uint16Exact(s, r.value, r.rest);
    if v5 && |s| > 2 {
      assert r.rest == [a.reason] + r.rest[1..];
      if |s| > 3 {
        var l := P.ReadAll(AckCommand(kind), r.rest[1..]);
        P.ReadAllExact(AckCommand(kind), r.rest[1..], l.value, []);
        assert s == PutUint16(a.mid) + [a.reason] + P.PutList(l.value);
      }
    }
  }

  // ----- send__connect

  datatype Version = V31 | V311 | V5

  datatype Will = Will(topic: seq<byte>, payload: seq<byte>, qos: nat, retain: bool, properties: seq<P.Property>)

  datatype Connect = Connect(
    version: Version, clientId: Option<seq<byte>>, username: Option<seq<byte>>, password: Option<seq<byte>>,
    will: Option<Will>, keepalive: uint16, cleanSession: bool, retainAvailable: bool, properties: seq<P.Property>)

  predicate OptionalField(d: Option<seq<byte>>) {
    d.Some? ==> |d.value| < 0x1_0000
  }

  predicate OptionalGiven(d: Option<seq<byte>>) {
    d.Some? ==> |d.value| < VARINT_LIMIT
  }

  /** What the functions that set these options let through. */
  predicate ConnectGiven(c: Connect) {
    && OptionalGiven(c.clientId) && OptionalField(c.username) && OptionalGiven(c.password)
    && Listable(c.properties)
    && (c.will.Some? ==>
          && |c.will.value.topic| < 0x1_0000 && |c.will.value.payload| < VARINT_LIMIT && c.will.value.qos <= 2
          && Listable(c.will.value.properties))
  }

  /** Every string fits its length field. */
  predicate ConnectSendable(c: Connect) {
    && ConnectGiven(c) && OptionalField(c.clientId) && OptionalField(c.password)
    && (c.will.Some? ==> |c.will.value.payload| < 0x1_0000)
  }

  /** What is left of a string when its length is cast to 16 bits. */
  function Short(d: seq<byte>): (s: seq<byte>)
    ensures |s| < 0x1_0000 && |s| <= |d|
    ensures |s| == |d| <==> |d| < 0x1_0000
    ensures |s| == |d| <==> s == d
  {
    d[..|d| % 0x1_0000]
  }

  function ShortOption(d: Option<seq<byte>>): Option<seq<byte>> {
    if d.Some? then Some(Short(d.value)) else None
  }

  function Truncated(c: Connect): Connect {
    c.(clientId := ShortOption(c.clientId), password := ShortOption(c.password),
       will := if c.will.Some? then Some(c.will.value.(payload := Short(c.will.value.payload))) else None)
  }

  lemma TruncatedFits(c: Connect)
    requires ConnectGiven(c)
    ensures ConnectSendable(Truncated(c)) && (Truncated(c) == c <==> ConnectSendable(c))
    ensures ConnectLength(Truncated(c)) <= ConnectLength(c)
    ensures ConnectLength(Truncated(c)) == ConnectLength(c) <==> ConnectSendable(c)
  {
    hide P.LengthAll, P.AllEncodable;
  }

  function ProtocolName(v: Version): seq<byte> {
    if v == V31 then [77, 81, 73, 115, 100, 112] else [77, 81, 84, 84] // "MQIsdp", "MQTT"
  }

  function VersionByte(v: Version): byte {
    match v case V31 => 3 case V311 => 4 case V5 => 5
  }

  function ConnectFlags(c: Connect): byte
    requires c.will.Some? ==> c.will.value.qos <= 2
  {
    (if c.cleanSession then 2 else 0)
    + (if c.will.Some? then 4 + 8 * c.will.value.qos + (if c.retainAvailable && c.will.value.retain then 32 else 0) else 0)
    + (if c.password.Some? then 64 else 0)
    + if c.username.Some? then 128 else 0
  }

  function PutOptional(d: Option<seq<byte>>): seq<byte>
    requires OptionalField(d)
  {
    if d.Some? then PutBinary(d.value) else []
  }

  function VariableHeader(c: Connect): seq<byte>
    requires ConnectSendable(c)
  {
    PutBinary(ProtocolName(c.version)) + [VersionByte(c.version)] + [ConnectFlags(c)] + PutUint16(c.keepalive)
    + if c.version == V5 then P.PutList(c.properties) else []
  }

  function WillBytes(c: Connect): seq<byte>
    requires ConnectSendable(c)
  {
    if c.will.None? then []
    else (if c.version == V5 then P.PutList(c.will.value.properties) else [])
         + PutBinary(c.will.value.topic) + PutBinary(c.will.value.payload)
  }

  function ConnectBody(c: Connect): seq<byte>
    requires ConnectSendable(c)
  {
    VariableHeader(c)
    + PutBinary(if c.clientId.Some? then c.clientId.value else [])
    + WillBytes(c) + PutOptional(c.username) + PutOptional(c.password)
  }

  // The sizes as send__connect adds them up.

  function HeaderLength(c: Connect): nat
    requires ConnectGiven(c)
  {
    match c.version case V5 => 10 + ListLength(c.properties) case V311 => 10 case V31 => 12
  }

  function OptionalLength(d: Option<seq<byte>>): nat {
    if d.Some? then 2 + |d.value| else 0
  }

  function WillLength(c: Connect): nat
    requires ConnectGiven(c)
  {
    if c.will.None? then 0
    else 2 + |c.will.value.topic| + 2 + |c.will.value.payload|
         + if c.version == V5 then ListLength(c.will.value.properties) else 0
  }

  function ConnectLength(c: Connect): nat
    requires ConnectGiven(c)
  {
    HeaderLength(c) + (2 + if c.clientId.Some? then |c.clientId.value| else 0)
    + WillLength(c) + OptionalLength(c.username) + OptionalLength(c.password)
  }

  /** The properties sent: the caller's, and the receive maximum unless the caller gave one. */
  function WithReceiveMaximum(ps: seq<P.Property>, receiveMaximum: uint16): seq<P.Property> {
    if P.Repeated(ps, P.RECEIVE_MAXIMUM) then ps else ps + [P.Property(P.RECEIVE_MAXIMUM, P.I16(receiveMaximum))]
  }

  method WriteVariableHeader(packet: Packet, c: Connect)
    requires ConnectSendable(c) && packet.Room(HeaderLength(c))
    modifies packet`pos, packet.payload
    ensures packet.Room(0) && packet.Written() == old(packet.Written()) + VariableHeader(c)
    ensures |VariableHeader(c)| == HeaderLength(c)
  {
    hide P.AllEncodable, P.LengthAll, P.PutList, VarintBytes, PutUint16, PutBinary, ConnectFlags;
    P.RemainingLength(c.properties);
    ghost var before := packet.Written();
    packet.WriteString(ProtocolName(c.version));
    packet.WriteByte(VersionByte(c.version));
    packet.WriteByte(ConnectFlags(c));
    packet.WriteUint16(c.keepalive);
    ghost var fixed := PutBinary(ProtocolName(c.version)) + [VersionByte(c.version)] + [ConnectFlags(c)] + PutUint16(c.keepalive);
    Assoc4(before, PutBinary(ProtocolName(c.version)), [VersionByte(c.version)], [ConnectFlags(c)], PutUint16(c.keepalive));
    if c.version == V5 {
      var rc := packet.WriteProperties(c.properties, true);
      Assoc2(before, fixed, P.PutList(c.properties));
    } else {
      assert fixed + [] == fixed;
    }
  }

  method WriteWill(packet: Packet, c: Connect)
    requires ConnectSendable(c) && packet.Room(WillLength(c))
    modifies packet`pos, packet.payload
    ensures packet.Room(0) && packet.Written() == old(packet.Written()) + WillBytes(c)
    ensures |WillBytes(c)| == WillLength(c)
  {
    hide P.AllEncodable, P.LengthAll, P.PutList, VarintBytes, PutBinary;
    ghost var before := packet.Written();
    if c.will.Some? {
      var will := c.will.value;
      P.RemainingLength(will.properties);
      ghost var list := if c.version == V5 then P.PutList(will.properties) else [];
      if c.version == V5 {
        var rc := packet.WriteProperties(will.properties, true);
      }
      assert packet.Written() == before + list;
      packet.WriteString(will.topic);
      packet.WriteString(will.payload);
      Assoc3(before, list, PutBinary(will.topic), PutBinary(will.payload));
    }
  }

  method WriteOptional(packet: Packet, d: Option<seq<byte>>)
    requires OptionalField(d) && packet.Room(OptionalLength(d))
    modifies packet`pos, packet.payload
    ensures packet.Room(0) && packet.Written() == old(packet.Written()) + PutOptional(d)
    ensures |PutOptional(d)| == OptionalLength(d)
  {
    hide PutBinary;
    if d.Some? {
      packet.WriteString(d.value);
    }
  }

  /** The size computation of send__connect. */
  method SumConnect(c: Connect) returns (remaining: nat)
    requires ConnectGiven(c)
    ensures remaining == ConnectLength(c) < 0x1_0000_0000
  {
    hide P.AllEncodable, P.LengthAll;
    var headerlen := 10;
    if c.version == V5 {
      var proplen := P.SumLengths(c.properties);
      headerlen := headerlen + (proplen + VarintBytes(proplen));
    } else if c.version == V31 {
      headerlen := 12;
    }
    var payloadlen := if c.clientId.Some? then 2 + |c.clientId.value| else 2;
    if c.will.Some? {
      payloadlen := payloadlen + (2 + |c.will.value.topic| + 2 + |c.will.value.payload|);
      if c.version == V5 {
        var len := P.SumLengths(c.will.value.properties);
        payloadlen := payloadlen + (len + VarintBytes(len));
      }
    }
    if c.username.Some? {
      payloadlen := payloadlen + (2 + |c.username.value|);
    }
    if c.password.Some? {
      payloadlen := payloadlen + (2 + |c.password.value|);
    }
    remaining := headerlen + payloadlen;
  }

  /** The write calls of send__connect, whose preconditions are that the buffer has room. */
  method WriteConnect(packet: Packet, c: Connect)
    requires ConnectSendable(c) && packet.Room(ConnectLength(c))
    modifies packet`pos, packet.payload
    ensures packet.Room(0) && packet.Written() == old(packet.Written()) + ConnectBody(c)
    ensures |ConnectBody(c)| == ConnectLength(c)
  {
    hide PutBinary, VariableHeader, WillBytes, PutOptional, HeaderLength, WillLength, OptionalLength, Listable;
    ghost var w0 := packet.Written();
    WriteVariableHeader(packet, c);
    var id := if c.clientId.Some? then c.clientId.value else [];
    WriteClientId(packet, c);
    ghost var w1 := packet.Written();
    assert packet.pos == |w0| + HeaderLength(c) + 2 + |id|;
    WriteWill(packet, c);
    assert packet.pos == |w1| + WillLength(c);
    WriteOptional(packet, c.username);
    assert packet.pos == |w1| + WillLength(c) + OptionalLength(c.username);
    WriteOptional(packet, c.password);
    Assoc5(w0, VariableHeader(c), PutBinary(id), WillBytes(c), PutOptional(c.username), PutOptional(c.password));
  }

  method WriteClientId(packet: Packet, c: Connect)
    requires ConnectSendable(c) && packet.Room(2 + if c.clientId.Some? then |c.clientId.value| else 0)
    modifies packet`pos, packet.payload
    ensures packet.Room(0)
    ensures packet.Written() == old(packet.Written()) + PutBinary(if c.clientId.Some? then c.clientId.value else [])
  {
    hide PutBinary;
    if c.clientId.Some? {
      packet.WriteString(c.clientId.value);
    } else {
      packet.WriteUint16(0);
      assert PutBinary([]) == PutUint16(0) by { EmptyBinary(); }
    }
  }

  lemma EmptyBinary()
    ensures PutBinary([]) == PutUint16(0)
  {
  }

  /**
   send__connect up to packet__queue.  The lengths are added up in full, but a string is
   written with its length cast to 16 bits: the cursor ends at the end of the buffer exactly
   when every string fits its length field.
   */
  method SendConnect(c: Connect, receiveMaximum: uint16) returns (rc: Rc, packet: Packet, sent: Connect)
    requires ConnectGiven(c) && ConnectGiven(c.(properties := WithReceiveMaximum(c.properties, receiveMaximum)))
    ensures sent == if c.version == V5 then c.(properties := WithReceiveMaximum(c.properties, receiveMaximum)) else c
    ensures ConnectGiven(sent) && ConnectSendable(Truncated(sent))
    ensures rc == if c.version == V31 && c.clientId.None? then Protocol
                  else if c.version != V5 && c.password.Some? && c.username.None? then Inval
                  else if ConnectLength(sent) >= VARINT_LIMIT then PayloadSize
                  else Success
    ensures rc == Success ==>
      && packet.Room(0) && (packet.pos == packet.packetLength <==> ConnectSendable(sent))
      && packet.Written() == [P.CMD_CONNECT] + PutVarint(ConnectLength(sent)) + ConnectBody(Truncated(sent))
    ensures rc == Success && ConnectSendable(sent) ==> Holds(packet, P.CMD_CONNECT, ConnectBody(sent))
  {
    hide P.AllEncodable, P.LengthAll, P.Repeated, ConnectLength, ConnectBody, PutVarint, Truncated, ConnectGiven, ConnectSendable;
    sent := if c.version == V5 then c.(properties := WithReceiveMaximum(c.properties, receiveMaximum)) else c;
    TruncatedFits(sent);
    packet := new Packet();
    if c.version == V31 && c.clientId.None? {
      return Protocol, packet, sent;
    }
    if c.version != V5 && c.password.Some? && c.username.None? {
      return Inval, packet, sent;
    }
    var remaining := SumConnect(sent);
    rc, packet := Start(P.CMD_CONNECT, remaining);
    if rc != Success {
      return;
    }
    ghost var header := packet.Written();
    WriteConnect(packet, Truncated(sent));
    if packet.pos == packet.packetLength {
      Filled(packet, header, ConnectBody(sent));
    }
  }
}
