/**
 The packets of MQTT v5.0 byte by byte (sections 2.1, 3.1, 3.3, 3.4, 3.8 and 3.10), against
 what the send functions write and the handlers accept.  Nothing here is stated through the
 readers, the writers or the size computations.
 */
module Layouts {
  import opened Basics
  import opened Wire
  import opened PropertyTable
  import opened Senders
  import B = PublishPacket
  import D = Decoders
  import F = Framing
  import P = Property

  // ----- What the bytes mean

  /** Command byte, remaining length in one to four digits, body. */
  predicate FrameOnWire(command: byte, body: seq<int>, w: seq<int>) {
    && w != [] && w[0] == command
    && exists k :: 2 <= k <= 5 && k <= |w| && DigitBytes(|body|, w[1..k]) && w[k..] == body
  }

  /** The property list of MQTT v5.0; nothing before that. */
  predicate PropertiesOnWire(v5: bool, ps: seq<P.Property>, w: seq<int>) {
    if v5 then ListOnWire(ps, w) else w == []
  }

  /** Topic, identifier unless QoS 0, properties, payload. */
  predicate PublishOnWire(v5: bool, p: B.Publish, w: seq<int>) {
    var t := 2 + |p.topic|;
    var m := t + if p.qos > 0 then 2 else 0;
    var e := |w| - |p.payload|;
    && m <= e && FieldBytes(p.topic, w[..t]) && (p.qos > 0 ==> WordBytes(p.mid, w[t..m]))
    && PropertiesOnWire(v5, p.properties, w[m..e]) && w[e..] == p.payload
  }

  /** DUP, QoS and RETAIN in the low four bits. */
  predicate PublishCommand(p: B.Publish, command: int) {
    command == 48 + (if p.dup then 8 else 0) + 2 * p.qos + if p.retain then 1 else 0
  }

  /** Identifier; in MQTT v5.0 a reason code, which may be left out when it is zero and nothing follows, and properties. */
  predicate AckOnWire(v5: bool, mid: int, reason: int, ps: seq<P.Property>, w: seq<int>) {
    && |w| >= 2 && WordBytes(mid, w[..2])
    && if !v5 || (reason == 0 && ps == []) then |w| == 2
       else |w| >= 3 && w[2] == reason && if ps == [] then |w| == 3 else ListOnWire(ps, w[3..])
  }

  /** Length-prefixed strings, each followed by the same option bytes. */
  predicate FieldsOnWire(ds: seq<seq<byte>>, options: seq<byte>, w: seq<int>)
    decreases |ds|
  {
    if ds == [] then w == []
    else
      var i := 2 + |ds[0]|;
      && i + |options| <= |w| && FieldBytes(ds[0], w[..i]) && w[i..i + |options|] == options
      && FieldsOnWire(ds[1..], options, w[i + |options|..])
  }

  /** Identifier, properties, topic filters. */
  predicate SubscriptionOnWire(v5: bool, mid: int, ps: seq<P.Property>, topics: seq<seq<byte>>, options: seq<byte>, w: seq<int>) {
    && |w| >= 2 && WordBytes(mid, w[..2])
    && exists k :: 2 <= k <= |w| && PropertiesOnWire(v5, ps, w[2..k]) && FieldsOnWire(topics, options, w[k..])
  }

  // ----- PUBLISH

  lemma PropertiesWritten(v5: bool, ps: seq<P.Property>, w: seq<byte>)
    requires Listable(ps)
    ensures PropertiesOnWire(v5, ps, w) <==> w == if v5 then P.PutList(ps) else []
  {
    hide ListOnWire, P.PutList;
    WritesListTable(ps, w);
  }

  lemma PublishWritten(v5: bool, p: B.Publish, w: seq<byte>)
    requires B.Sendable(p)
    ensures PublishOnWire(v5, p, w) <==> w == B.Body(v5, p)
  {
    hide PropertiesOnWire, FieldBytes, WordBytes, PutBinary, PutUint16, P.PutList, P.LengthAll, P.AllEncodable;
    var t := 2 + |p.topic|;
    var m := t + if p.qos > 0 then 2 else 0;
    var e := |w| - |p.payload|;
    var topic, mid := PutBinary(p.topic), if p.qos > 0 then PutUint16(p.mid) else [];
    var list := if v5 then P.PutList(p.properties) else [];
    if m <= e {
      FieldWritten(p.topic, w[..t]);
      WordWritten(p.mid, w[t..m]);
      PropertiesWritten(v5, p.properties, w[m..e]);
      assert w == w[..t] + w[t..m] + w[m..e] + w[e..];
      if w == B.Body(v5, p) {
        assert w == topic + mid + list + p.payload;
        assert |topic| == t && |mid| == m - t;
        assert w[..t] == topic && w[t..m] == mid && w[m..e] == list && w[e..] == p.payload;
      }
    }
  }

  /** handle__publish yields a message if and only if these are its bytes and the message passes the checks. */
  lemma PublishReads(v5: bool, quota: nat, command: byte, s: seq<byte>, p: B.Publish)
    requires 48 <= command < 64 && |s| < VARINT_LIMIT
    ensures B.Decode(v5, quota, command, s) == B.Decoded(p)
            <==> B.Acceptable(v5, quota, p) && PublishCommand(p, command) && PublishOnWire(v5, p, s)
  {
    hide B.Decode, B.Body, PublishOnWire, B.Sendable;
    B.DecodeExact(v5, quota, command, s, p);
    if B.Acceptable(v5, quota, p) {
      PublishWritten(v5, p, s);
      assert p.qos <= 2 by { QosOf(p); }
      CommandWritten(p, command);
    }
  }

  lemma QosOf(p: B.Publish)
    requires B.Sendable(p)
    ensures p.qos <= 2
  {
  }

  lemma CommandWritten(p: B.Publish, command: byte)
    requires p.qos <= 2
    ensures PublishCommand(p, command) <==> command == B.Command(p)
  {
  }

  // ----- The fixed header

  lemma FrameWritten(f: F.Frame, w: seq<byte>)
    requires |f.body| < VARINT_LIMIT
    ensures FrameOnWire(f.command, f.body, w) <==> w == F.FrameBytes(f)
  {
    hide DigitBytes, PutVarint;
    var n := |f.body|;
    if FrameOnWire(f.command, f.body, w) {
      var k :| 2 <= k <= 5 && k <= |w| && DigitBytes(n, w[1..k]) && w[k..] == f.body;
      DigitsWritten(n, w[1..k]);
      assert w == [w[0]] + w[1..k] + w[k..];
    }
    if w == F.FrameBytes(f) {
      VarintSize(n);
      var k := 1 + |PutVarint(n)|;
      assert w[1..k] == PutVarint(n) && w[k..] == f.body;
      DigitsWritten(n, w[1..k]);
    }
  }

  /** A packet in these bytes is cut out of the stream, whatever follows it. */
  lemma FrameReads(f: F.Frame, w: seq<byte>, rest: seq<byte>)
    requires |f.body| < VARINT_LIMIT && FrameOnWire(f.command, f.body, w)
    ensures F.Frames(w + rest) == F.Then([f], F.Frames(rest))
  {
    hide F.Frames, FrameOnWire, F.FrameBytes;
    FrameWritten(f, w);
    F.FirstFrame(f, rest);
  }

  /** A length field whose fourth digit has its top bit set is rejected as soon as one more byte is there. */
  lemma FifthDigit(command: byte, a: byte, b: byte, c: byte, d: byte, rest: seq<byte>)
    requires a >= 128 && b >= 128 && c >= 128 && d >= 128 && rest != []
    ensures F.Frames([command, a, b, c, d] + rest) == F.Outcome([], true)
  {
    hide F.LengthField, F.AddDigit;
    var s := [command, a, b, c, d] + rest;
    var t0, t1, t2, t3 := [a, b, c, d] + rest, [b, c, d] + rest, [c, d] + rest, [d] + rest;
    assert s[0] == command && s[1..] == t0 && t0[1..] == t1 && t1[1..] == t2 && t2[1..] == t3 && t3[1..] == rest;
    LengthDigit(t0, 0, 0, 1);
    LengthDigit(t1, 1, F.AddDigit(0, a, 1), 128);
    LengthDigit(t2, 2, F.AddDigit(F.AddDigit(0, a, 1), b, 128), 16384);
    LengthDigit(t3, 3, F.AddDigit(F.AddDigit(F.AddDigit(0, a, 1), b, 128), c, 16384), 2097152);
    var acc := F.AddDigit(F.AddDigit(F.AddDigit(F.AddDigit(0, a, 1), b, 128), c, 16384), d, 2097152);
    assert F.LengthField(rest, 4, acc, 268435456) == F.TooLong by { FifthByte(rest, acc, 268435456); }
  }

  lemma LengthDigit(s: seq<byte>, k: nat, acc: nat, mult: nat)
    requires s != [] && s[0] >= 128 && k < 4
    ensures F.LengthField(s, k, acc, mult) == F.LengthField(s[1..], k + 1, F.AddDigit(acc, s[0], mult), mult * 128)
  {
  }

  lemma FifthByte(s: seq<byte>, acc: nat, mult: nat)
    requires s != []
    ensures F.LengthField(s, 4, acc, mult) == F.TooLong
  {
  }

  // ----- Acknowledgements

  lemma AckWritten(v5: bool, mid: uint16, reason: byte, ps: seq<P.Property>, w: seq<byte>)
    requires Listable(ps)
    ensures AckOnWire(v5, mid, reason, ps, w) <==> w == PutUint16(mid) + Trailer(v5, reason, ps)
  {
    hide ListOnWire, WordBytes, PutUint16, P.PutList, P.LengthAll, P.AllEncodable;
    if |w| >= 2 {
      assert w == w[..2] + w[2..];
      WordWritten(mid, w[..2]);
      if |w| >= 3 {
        assert w[2..] == [w[2]] + w[3..];
        WritesListTable(ps, w[3..]);
      }
      if w == PutUint16(mid) + Trailer(v5, reason, ps) {
        assert w[..2] == PutUint16(mid) && w[2..] == Trailer(v5, reason, ps);
      }
    }
  }

  /** The reason codes of sections 3.4.2.1, 3.5.2.1, 3.6.2.1 and 3.7.2.1. */
  function Reasons(kind: AckKind): set<int> {
    match kind
    case Puback => {0x00, 0x10, 0x80, 0x83, 0x87, 0x90, 0x91, 0x97, 0x99}
    case Pubrec => {0x00, 0x10, 0x80, 0x83, 0x87, 0x90, 0x91, 0x97}
    case Pubrel => {0x00, 0x92}
    case Pubcomp => {0x00, 0x92}
  }

  /** The packet type whose column of the table the properties are checked against; PUBCOMP shares that of PUBACK. */
  function CheckedAs(kind: AckKind): int {
    match kind case Pubrec => 0x50 case Pubrel => 0x60 case _ => 0x40
  }

  lemma ReasonTable(kind: AckKind, reason: byte)
    ensures ReasonAllowed(kind, reason) <==> reason in Reasons(kind)
  {
  }

  ghost predicate ListOfReads(kind: AckKind, w: seq<int>) {
    exists ps :: ListOnWire(ps, w) && P.CheckAll(CheckedAs(kind), ps) == Success
  }

  lemma AckListReads(kind: AckKind, s: seq<byte>)
    requires |s| < VARINT_LIMIT
    ensures var r := P.ReadAll(AckCommand(kind), s);
            r.Parsed? && r.rest == [] <==> ListOfReads(kind, s)
  {
    hide P.ReadAll, P.CheckAll, ListOnWire;
    var r := P.ReadAll(AckCommand(kind), s);
    assert s[..|s| - 0] == s;
    if r.Parsed? && r.rest == [] {
      ReadsListTable(CheckedAs(kind), s, r.value, []);
    }
    if ps :| ListOnWire(ps, s) && P.CheckAll(CheckedAs(kind), ps) == Success {
      ReadsListTable(CheckedAs(kind), s, ps, []);
    }
  }

  /**
   The handlers of the acknowledgements understand exactly these bodies: an identifier other
   than zero, and in MQTT v5.0 a reason code of the packet's own and a list that passes the checks.
   */
  lemma AckReads(kind: AckKind, v5: bool, s: seq<byte>, mid: uint16, reason: byte)
    requires |s| < VARINT_LIMIT
    ensures DecodeAck(kind, v5, s) == AckFields(mid, reason)
            <==> && |s| >= 2 && WordBytes(mid, s[..2]) && mid != 0
                 && if |s| == 2 then reason == 0
                    else v5 && s[2] == reason && reason in Reasons(kind) && (|s| == 3 || ListOfReads(kind, s[3..]))
  {
    hide P.ReadAll, ReasonAllowed, Reasons, ListOfReads, GetUint16, WordBytes, PutUint16;
    AckStarts(s, mid);
    if |s| >= 3 {
      ReasonTable(kind, s[2]);
      assert s[2..] == [s[2]] + s[3..];
      AckListReads(kind, s[3..]);
    }
    assert ReasonAllowed(kind, 0) by { ReasonTable(kind, 0); ZeroReason(kind); }
  }

  lemma ZeroReason(kind: AckKind)
    ensures 0 in Reasons(kind)
  {
  }

  lemma AckStarts(s: seq<byte>, mid: uint16)
    ensures |s| < 2 <==> GetUint16(s).Failed?
    ensures |s| >= 2 ==> GetUint16(s).rest == s[2..] && (WordBytes(mid, s[..2]) <==> GetUint16(s).value == mid)
  {
  }

  // ----- SUBSCRIBE and UNSUBSCRIBE

  lemma {:induction false} FieldsWritten(ds: seq<seq<byte>>, options: seq<byte>, w: seq<byte>)
    requires Topics(ds)
    ensures FieldsOnWire(ds, options, w) <==> w == TopicList(ds, options)
    decreases |ds|
  {
    hide FieldBytes, PutBinary;
    if ds != [] {
      var i := 2 + |ds[0]|;
      var j := i + |options|;
      if j <= |w| {
        FieldWritten(ds[0], w[..i]);
        FieldsWritten(ds[1..], options, w[j..]);
        assert w == w[..i] + w[i..j] + w[j..];
        if w == TopicList(ds, options) {
          assert w[..i] == PutBinary(ds[0]) && w[i..j] == options && w[j..] == TopicList(ds[1..], options);
        }
      }
    }
  }

  lemma SubscriptionWritten(v5: bool, mid: uint16, ps: seq<P.Property>, topics: seq<seq<byte>>, options: seq<byte>, w: seq<byte>)
    requires Topics(topics) && Listable(ps)
    ensures SubscriptionOnWire(v5, mid, ps, topics, options, w) <==> w == SubscriptionBody(v5, mid, topics, options, ps)
  {
    hide PropertiesOnWire, FieldsOnWire, WordBytes, PutUint16, TopicList, P.PutList, P.LengthAll, P.AllEncodable;
    var list, more := if v5 then P.PutList(ps) else [], TopicList(topics, options);
    if SubscriptionOnWire(v5, mid, ps, topics, options, w) {
      var k :| 2 <= k <= |w| && PropertiesOnWire(v5, ps, w[2..k]) && FieldsOnWire(topics, options, w[k..]);
      WordWritten(mid, w[..2]);
      PropertiesWritten(v5, ps, w[2..k]);
      FieldsWritten(topics, options, w[k..]);
      assert w == w[..2] + w[2..k] + w[k..];
    }
    if w == SubscriptionBody(v5, mid, topics, options, ps) {
      var k := 2 + |list|;
      assert w[..2] == PutUint16(mid) && w[2..k] == list && w[k..] == more;
      WordWritten(mid, w[..2]);
      PropertiesWritten(v5, ps, w[2..k]);
      FieldsWritten(topics, options, w[k..]);
    }
  }

  // ----- CONNECT

  /** "MQIsdp" and 3, or "MQTT" and 4 or 5. */
  function Protocol(v: Version): seq<int> {
    match v
    case V31 => [0, 6, 77, 81, 73, 115, 100, 112, 3]
    case V311 => [0, 4, 77, 81, 84, 84, 4]
    case V5 => [0, 4, 77, 81, 84, 84, 5]
  }

  /** User name, password, will retain, will QoS in two bits, will, clean session, reserved. */
  predicate FlagsOnWire(c: Connect, f: int) {
    && f % 2 == 0 && (f / 2 % 2 == 1 <==> c.cleanSession) && (f / 4 % 2 == 1 <==> c.will.Some?)
    && f / 8 % 4 == (if c.will.Some? then c.will.value.qos else 0)
    && (f / 32 % 2 == 1 <==> c.will.Some? && c.retainAvailable && c.will.value.retain)
    && (f / 64 % 2 == 1 <==> c.password.Some?) && (f / 128 == 1 <==> c.username.Some?)
  }

  function Given(d: Option<seq<byte>>): seq<seq<byte>> {
    if d.Some? then [d.value] else []
  }

  /** Client identifier; will properties, topic and payload; user name; password. */
  predicate PayloadOnWire(c: Connect, w: seq<int>) {
    var id := if c.clientId.Some? then c.clientId.value else [];
    var i := 2 + |id|;
    && i <= |w| && FieldBytes(id, w[..i])
    && if c.will.None? then FieldsOnWire(Given(c.username) + Given(c.password), [], w[i..])
       else exists k :: i <= k <= |w| && PropertiesOnWire(c.version == V5, c.will.value.properties, w[i..k])
                        && FieldsOnWire([c.will.value.topic, c.will.value.payload] + Given(c.username) + Given(c.password), [],
                                        w[k..])
  }

  predicate ConnectOnWire(c: Connect, w: seq<int>) {
    var n := |Protocol(c.version)|;
    && n + 3 <= |w| && w[..n] == Protocol(c.version) && FlagsOnWire(c, w[n]) && WordBytes(c.keepalive, w[n + 1..n + 3])
    && exists k :: n + 3 <= k <= |w| && PropertiesOnWire(c.version == V5, c.properties, w[n + 3..k]) && PayloadOnWire(c, w[k..])
  }

  /** The fields behind the client identifier and the will properties. */
  function LastFields(c: Connect): seq<seq<byte>> {
    (if c.will.Some? then [c.will.value.topic, c.will.value.payload] else []) + Given(c.username) + Given(c.password)
  }

  lemma {:induction false} TopicListConcat(a: seq<seq<byte>>, b: seq<seq<byte>>, options: seq<byte>)
    requires Topics(a) && Topics(b)
    ensures TopicList(a + b, options) == TopicList(a, options) + TopicList(b, options)
    decreases |a|
  {
    if a == [] {
      assert a + b == b;
    } else {
      assert (a + b)[1..] == a[1..] + b;
      TopicListConcat(a[1..], b, options);
    }
  }

  lemma GivenWritten(d: Option<seq<byte>>)
    requires OptionalField(d)
    ensures TopicList(Given(d), []) == PutOptional(d)
  {
    if d.Some? {
      assert Given(d)[1..] == [];
      assert PutBinary(d.value) + [] + [] == PutBinary(d.value);
    }
  }

  lemma LastWritten(c: Connect)
    requires ConnectSendable(c)
    ensures Topics(LastFields(c))
    ensures TopicList(LastFields(c), [])
            == (if c.will.Some? then PutBinary(c.will.value.topic) + PutBinary(c.will.value.payload) else [])
               + PutOptional(c.username) + PutOptional(c.password)
  {
    hide PutBinary, P.AllEncodable, P.LengthAll;
    GivenWritten(c.username);
    GivenWritten(c.password);
    var will := if c.will.Some? then [c.will.value.topic, c.will.value.payload] else [];
    TopicListConcat(will, Given(c.username), []);
    TopicListConcat(will + Given(c.username), Given(c.password), []);
    if c.will.Some? {
      TwoFields(c.will.value.topic, c.will.value.payload);
    }
  }

  lemma TwoFields(a: seq<byte>, b: seq<byte>)
    requires |a| < 0x1_0000 && |b| < 0x1_0000
    ensures TopicList([a, b], []) == PutBinary(a) + PutBinary(b)
  {
    hide PutBinary;
    assert [a, b][1..] == [b] && [b][1..] == [];
    assert TopicList([b], []) == PutBinary(b) + [] + [];
    assert TopicList([a, b], []) == PutBinary(a) + [] + TopicList([b], []);
  }

  lemma Cut(w: seq<byte>, a: seq<byte>, b: seq<byte>, c: seq<byte>)
    requires w == a + b + c
    ensures w[..|a|] == a && w[|a|..|a| + |b|] == b && w[|a| + |b|..] == c
  {
  }

  lemma PayloadParts(c: Connect, w: seq<byte>, list: seq<byte>)
    requires ConnectSendable(c) && Topics(LastFields(c))
    requires w == PutBinary(if c.clientId.Some? then c.clientId.value else [])
                  + WillBytes(c) + PutOptional(c.username) + PutOptional(c.password)
    requires list == if c.will.Some? && c.version == V5 then P.PutList(c.will.value.properties) else []
    ensures w == PutBinary(if c.clientId.Some? then c.clientId.value else []) + list + TopicList(LastFields(c), [])
  {
    hide PutBinary, P.PutList, P.LengthAll, P.AllEncodable, TopicList, PutOptional, LastFields;
    LastWritten(c);
  }

  lemma PayloadWritten(c: Connect, w: seq<byte>)
    requires ConnectSendable(c)
    requires w == PutBinary(if c.clientId.Some? then c.clientId.value else [])
                  + WillBytes(c) + PutOptional(c.username) + PutOptional(c.password)
    ensures PayloadOnWire(c, w)
  {
    hide PropertiesOnWire, FieldsOnWire, FieldBytes, PutBinary, P.PutList, P.LengthAll, P.AllEncodable, TopicList,
      PutOptional, Given;
    var id := if c.clientId.Some? then c.clientId.value else [];
    var i := 2 + |id|;
    LastWritten(c);
    var last := TopicList(LastFields(c), []);
    var list := if c.will.Some? && c.version == V5 then P.PutList(c.will.value.properties) else [];
    PayloadParts(c, w, list);
    Cut(w, PutBinary(id), list, last);
    FieldWritten(id, w[..i]);
    if c.will.None? {
      assert LastFields(c) == Given(c.username) + Given(c.password);
      FieldsWritten(LastFields(c), [], w[i..]);
    } else {
      var k := i + |list|;
      PropertiesWritten(c.version == V5, c.will.value.properties, w[i..k]);
      FieldsWritten(LastFields(c), [], w[k..]);
    }
  }

  lemma FlagsWritten(c: Connect)
    requires c.will.Some? ==> c.will.value.qos <= 2
    ensures FlagsOnWire(c, ConnectFlags(c))
  {
    hide ConnectFlags;
    D.FlagBits(c);
  }

  lemma FixedWritten(c: Connect, rest: seq<byte>)
    requires c.will.Some? ==> c.will.value.qos <= 2
    ensures var n := |Protocol(c.version)|;
            var w := PutBinary(ProtocolName(c.version)) + [VersionByte(c.version)] + [ConnectFlags(c)]
                     + PutUint16(c.keepalive) + rest;
            && n + 3 <= |w| && w[..n] == Protocol(c.version) && w[n] == ConnectFlags(c)
            && WordBytes(c.keepalive, w[n + 1..n + 3]) && w[n + 3..] == rest
  {
    hide ConnectFlags, WordBytes;
    var n := |Protocol(c.version)|;
    var w := PutBinary(ProtocolName(c.version)) + [VersionByte(c.version)] + [ConnectFlags(c)] + PutUint16(c.keepalive) + rest;
    assert PutBinary(ProtocolName(c.version)) + [VersionByte(c.version)] == Protocol(c.version);
    assert w[n + 1..n + 3] == PutUint16(c.keepalive);
    WordWritten(c.keepalive, w[n + 1..n + 3]);
  }

  lemma ConnectParts(c: Connect, list: seq<byte>, payload: seq<byte>)
    requires ConnectSendable(c) && list == if c.version == V5 then P.PutList(c.properties) else []
    requires payload == PutBinary(if c.clientId.Some? then c.clientId.value else [])
                        + WillBytes(c) + PutOptional(c.username) + PutOptional(c.password)
    ensures ConnectBody(c) == PutBinary(ProtocolName(c.version)) + [VersionByte(c.version)] + [ConnectFlags(c)]
                              + PutUint16(c.keepalive) + (list + payload)
  {
    hide PutUint16, PutBinary, P.PutList, P.LengthAll, P.AllEncodable, PutOptional, WillBytes, ConnectFlags, ProtocolName,
      VersionByte;
  }

  lemma Assemble(c: Connect, w: seq<byte>, list: seq<byte>, payload: seq<byte>)
    requires var n := |Protocol(c.version)|;
             && n + 3 <= |w| && w[..n] == Protocol(c.version) && FlagsOnWire(c, w[n])
             && WordBytes(c.keepalive, w[n + 1..n + 3]) && w[n + 3..] == list + payload
    requires PropertiesOnWire(c.version == V5, c.properties, list) && PayloadOnWire(c, payload)
    ensures ConnectOnWire(c, w)
  {
    hide PropertiesOnWire, PayloadOnWire, WordBytes, FlagsOnWire, Protocol;
    var n := |Protocol(c.version)| + 3;
    Cut(w, w[..n], list, payload);
    assert w[n..n + |list|] == list;
  }

  /** The body of every CONNECT that send__connect writes. */
  lemma ConnectWritten(c: Connect)
    requires ConnectSendable(c)
    ensures ConnectOnWire(c, ConnectBody(c))
  {
    hide ConnectOnWire, PropertiesOnWire, PayloadOnWire, WordBytes, PutUint16, PutBinary, P.PutList, P.LengthAll, P.AllEncodable,
      PutOptional, WillBytes, FlagsOnWire, ConnectFlags, Protocol, ProtocolName, VersionByte, ConnectBody;
    var id := if c.clientId.Some? then c.clientId.value else [];
    var list := if c.version == V5 then P.PutList(c.properties) else [];
    var payload := PutBinary(id) + WillBytes(c) + PutOptional(c.username) + PutOptional(c.password);
    ConnectParts(c, list, payload);
    FixedWritten(c, list + payload);
    FlagsWritten(c);
    PropertiesWritten(c.version == V5, c.properties, list);
    PayloadWritten(c, payload);
    Assemble(c, ConnectBody(c), list, payload);
  }

  // ----- The broker's maximum packet size

  /**
   packet__check_oversize leaves out the command byte: it refuses a packet when it is at least
   two bytes too long, and lets one that is a single byte too long through.
   */
  lemma WithinMaximumIff(maximum: uint32, f: F.Frame, w: seq<byte>)
    requires maximum > 0 && |f.body| < VARINT_LIMIT && FrameOnWire(f.command, f.body, w)
    ensures B.Oversize(maximum, |f.body|) <==> |w| > maximum + 1
    ensures B.Oversize(maximum, |f.body|) || |w| <= maximum <==> |f.body| + VarintBytes(|f.body|) != maximum
  {
    hide FrameOnWire, PutVarint;
    FrameWritten(f, w);
    VarintSize(|f.body|);
  }

  /** A message without payload on the topic "a", a maximum of five bytes and a packet of six. */
  lemma OneByteTooLong()
    ensures var p := B.Publish(false, 0, false, [97], 0, [], []);
            var n := B.PacketLength(true, 1, 0, 0, 0);
            && B.Sendable(p) && B.SendRc(5, n) == Success && n == |B.Body(true, p)| == 4
            && FrameOnWire(48, B.Body(true, p), [48, 4, 0, 1, 97, 0])
  {
    var p := B.Publish(false, 0, false, [97], 0, [], []);
    assert B.Body(true, p) == [0, 1, 97, 0];
    assert [48, 4, 0, 1, 97, 0][1..2] == [4] && [48, 4, 0, 1, 97, 0][2..] == [0, 1, 97, 0];
  }
}
