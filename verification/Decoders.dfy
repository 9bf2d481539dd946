/**
 Reading back what the client sends: CONNECT, SUBSCRIBE and UNSUBSCRIBE as sections 3.1, 3.8
 and 3.10 of MQTT v5.0 lay them out, and DISCONNECT as handle__disconnect reads it.  The size
 computations of `Senders` are thereby tied to bytes that a peer can take apart again.
 */
module Decoders {
  import opened Basics
  import opened Wire
  import opened Senders
  import P = Property

  // ----- handle__disconnect

  /** For MQTT v5.0; a property list too short for more than one byte is not looked at. */
  function DecodeDisconnect(s: seq<byte>): Parse<byte> {
    var (reason, rest) :- GetByte(s);
    if |s| <= 2 then Parsed(reason, rest)
    else
      var (_, rest') :- P.ReadAll(P.CMD_DISCONNECT, rest);
      Parsed(reason, rest')
  }

  /** handle__disconnect understands a DISCONNECT of send__disconnect exactly when it is not the empty one. */
  lemma DisconnectRoundTripIff(reason: byte, ps: seq<P.Property>)
    requires Listable(ps) && P.CheckAll(P.CMD_DISCONNECT, ps) == Success
    requires TrailerLength(true, reason, ps) < VARINT_LIMIT
    ensures DecodeDisconnect(Trailer(true, reason, ps)) == Parsed(reason, []) <==> reason != 0 || ps != []
  {
    hide P.ReadAll, P.AllEncodable, P.PutList, P.CheckAll, P.LengthAll, VarintBytes;
    var s := Trailer(true, reason, ps);
    P.RemainingLength(ps);
    if ps != [] {
      AtLeastTwo(ps);
      assert s[1..] == P.PutList(ps) + [];
      P.ReadAllExact(P.CMD_DISCONNECT, s[1..], ps, []);
    } else if reason != 0 {
      assert s == [reason] && s[1..] == [];
    }
  }

  lemma AtLeastTwo(ps: seq<P.Property>)
    requires Listable(ps) && ps != []
    ensures P.LengthAll(ps) >= 2
  {
    P.PutLength(ps[0]);
  }

  // ----- SUBSCRIBE and UNSUBSCRIBE

  datatype Filter = Filter(topic: seq<byte>, options: seq<byte>)

  /** Topic filters up to the end of the packet, each with `n` bytes of options. */
  function GetTopics(s: seq<byte>, n: nat): Parse<seq<Filter>>
    decreases |s|
  {
    if s == [] then Parsed([], [])
    else
      var (topic, rest) :- GetBinary(s);
      if |rest| < n then Failed(MalformedPacket)
      else
        var (more, end) :- GetTopics(rest[n..], n);
        Parsed([Filter(topic, rest[..n])] + more, end)
  }

  datatype Subscription = Subscription(mid: uint16, properties: seq<P.Property>, filters: seq<Filter>)

  function DecodeSubscription(v5: bool, command: int, n: nat, s: seq<byte>): Parse<Subscription> {
    var (mid, r1) :- GetUint16(s);
    var (ps, r2) :- if v5 then P.ReadAll(command, r1) else Parsed([], r1);
    var (filters, r3) :- GetTopics(r2, n);
    Parsed(Subscription(mid, ps, filters), r3)
  }

  function Filters(topics: seq<seq<byte>>, options: seq<byte>): seq<Filter> {
    if topics == [] then [] else [Filter(topics[0], options)] + Filters(topics[1..], options)
  }

  lemma {:induction false} TopicsRoundTrip(topics: seq<seq<byte>>, options: seq<byte>)
    requires Topics(topics)
    ensures GetTopics(TopicList(topics, options), |options|) == Parsed(Filters(topics, options), [])
    decreases |topics|
  {
    hide GetBinary, PutBinary;
    if topics != [] {
      var more := TopicList(topics[1..], options);
      var s, rest := TopicList(topics, options), options + more;
      assert s == PutBinary(topics[0]) + rest;
      BinaryExact(s, topics[0], rest);
      assert rest[|options|..] == more && rest[..|options|] == options;
      TopicsRoundTrip(topics[1..], options);
    }
  }

  /** All fields of a subscription come back, whatever their number and sizes. */
  lemma SubscriptionRoundTrip(v5: bool, command: int, mid: uint16, topics: seq<seq<byte>>, options: seq<byte>,
                              ps: seq<P.Property>)
    requires Topics(topics) && Listable(ps) && P.CheckAll(command, ps) == Success
    requires |SubscriptionBody(v5, mid, topics, options, ps)| < VARINT_LIMIT
    ensures DecodeSubscription(v5, command, |options|, SubscriptionBody(v5, mid, topics, options, ps))
            == Parsed(Subscription(mid, if v5 then ps else [], Filters(topics, options)), [])
  {
    hide P.ReadAll, P.AllEncodable, P.PutList, P.CheckAll, P.LengthAll, GetUint16, PutUint16, TopicList, GetTopics;
    var list, tail := if v5 then P.PutList(ps) else [], TopicList(topics, options);
    var s := SubscriptionBody(v5, mid, topics, options, ps);
    assert s == PutUint16(mid) + (list + tail);
    Uint16Exact(s, mid, list + tail);
    if v5 {
      P.ReadAllExact(command, list + tail, ps, tail);
    } else {
      assert list + tail == tail;
    }
    TopicsRoundTrip(topics, options);
  }

  // ----- CONNECT

  function GetOptional(present: bool, s: seq<byte>): Parse<Option<seq<byte>>> {
    if !present then Parsed(None, s)
    else
      var (d, rest) :- GetBinary(s);
      Parsed(Some(d), rest)
  }

  function GetWill(v5: bool, flags: byte, s: seq<byte>): Parse<Option<Will>> {
    if flags / 4 % 2 == 0 then Parsed(None, s)
    else
      var (ps, r1) :- if v5 then P.ReadAll(P.CMD_WILL, s) else Parsed([], s);
      var (topic, r2) :- GetBinary(r1);
      var (payload, r3) :- GetBinary(r2);
      Parsed(Some(Will(topic, payload, flags / 8 % 4, flags / 32 % 2 == 1, ps)), r3)
  }

  datatype Fixed = Fixed(name: seq<byte>, version: Version, flags: byte, keepalive: uint16)

  function GetFixed(s: seq<byte>): Parse<Fixed> {
    var (name, r1) :- GetBinary(s);
    var (level, r2) :- GetByte(r1);
    var (flags, r3) :- GetByte(r2);
    var (keepalive, r4) :- GetUint16(r3);
    if level !in {3, 4, 5} then Failed(Protocol)
    else Parsed(Fixed(name, if level == 3 then V31 else if level == 4 then V311 else V5, flags, keepalive), r4)
  }

  function DecodeConnect(s: seq<byte>): Parse<Connect> {
    var (fixed, r1) :- GetFixed(s);
    var v5, flags := fixed.version == V5, fixed.flags;
    if fixed.name != ProtocolName(fixed.version) || flags % 2 != 0 then Failed(Protocol)
    else
      var (ps, r2) :- if v5 then P.ReadAll(P.CMD_CONNECT, r1) else Parsed([], r1);
      var (id, r3) :- GetBinary(r2);
      var (will, r4) :- GetWill(v5, flags, r3);
      var (username, r5) :- GetOptional(flags / 128 == 1, r4);
      var (password, r6) :- GetOptional(flags / 64 % 2 == 1, r5);
      Parsed(Connect(fixed.version, Some(id), username, password, will, fixed.keepalive, flags / 2 % 2 == 1, true, ps), r6)
  }

  /** What a CONNECT says: no client id is an empty one, and options the version or the broker lacks are gone. */
  function AsSent(c: Connect): Connect {
    c.(clientId := Some(if c.clientId.Some? then c.clientId.value else []),
       will := if c.will.None? then None
               else Some(c.will.value.(retain := c.retainAvailable && c.will.value.retain,
                                       properties := if c.version == V5 then c.will.value.properties else [])),
       retainAvailable := true,
       properties := if c.version == V5 then c.properties else [])
  }

  predicate ConnectAcceptable(c: Connect) {
    && ConnectSendable(c)
    && (c.version == V5 ==>
          && P.CheckAll(P.CMD_CONNECT, c.properties) == Success
          && (c.will.Some? ==> P.CheckAll(P.CMD_WILL, c.will.value.properties) == Success))
  }

  function Bit(b: bool): nat {
    if b then 1 else 0
  }

  lemma Digits(user: nat, pass: nat, retain: nat, qos: nat, will: nat, clean: nat)
    requires user <= 1 && pass <= 1 && retain <= 1 && qos <= 2 && will <= 1 && clean <= 1
    ensures var f := 2 * clean + 4 * will + 8 * qos + 32 * retain + 64 * pass + 128 * user;
            && f % 2 == 0 && f / 2 % 2 == clean && f / 4 % 2 == will && f / 8 % 4 == qos
            && f / 32 % 2 == retain && f / 64 % 2 == pass && f / 128 == user
  {
    var f := 2 * clean + 4 * will + 8 * qos + 32 * retain + 64 * pass + 128 * user;
    assert f / 2 == clean + 2 * (will + 2 * qos + 8 * retain + 16 * pass + 32 * user);
    assert f / 4 == will + 2 * (qos + 4 * retain + 8 * pass + 16 * user);
    assert f / 8 == qos + 4 * (retain + 2 * pass + 4 * user);
    assert f / 32 == retain + 2 * (pass + 2 * user);
    assert f / 64 == pass + 2 * user;
  }

  /** The bits of the connect flags. */
  lemma FlagBits(c: Connect)
    requires c.will.Some? ==> c.will.value.qos <= 2
    ensures var f := ConnectFlags(c);
            && f % 2 == 0 && (f / 2 % 2 == 1 <==> c.cleanSession) && (f / 4 % 2 == 1 <==> c.will.Some?)
            && f / 8 % 4 == (if c.will.Some? then c.will.value.qos else 0)
            && (f / 32 % 2 == 1 <==> c.will.Some? && c.retainAvailable && c.will.value.retain)
            && (f / 64 % 2 == 1 <==> c.password.Some?) && (f / 128 == 1 <==> c.username.Some?)
  {
    var qos: nat := if c.will.Some? then c.will.value.qos else 0;
    var retain := c.will.Some? && c.retainAvailable && c.will.value.retain;
    Digits(Bit(c.username.Some?), Bit(c.password.Some?), Bit(retain), qos, Bit(c.will.Some?), Bit(c.cleanSession));
  }

  lemma FixedReads(c: Connect, rest: seq<byte>)
    requires c.will.Some? ==> c.will.value.qos <= 2
    ensures GetFixed(PutBinary(ProtocolName(c.version)) + [VersionByte(c.version)] + [ConnectFlags(c)]
                     + PutUint16(c.keepalive) + rest)
            == Parsed(Fixed(ProtocolName(c.version), c.version, ConnectFlags(c), c.keepalive), rest)
  {
    hide GetBinary, GetUint16, PutBinary, PutUint16, ConnectFlags;
    var name, v, f, k := ProtocolName(c.version), VersionByte(c.version), ConnectFlags(c), PutUint16(c.keepalive);
    var s := PutBinary(name) + [v] + [f] + k + rest;
    var r1 := [v] + ([f] + (k + rest));
    assert s == PutBinary(name) + r1;
    BinaryExact(s, name, r1);
    assert r1[1..] == [f] + (k + rest) && r1[1..][1..] == k + rest;
    Uint16Exact(k + rest, c.keepalive, rest);
  }

  lemma OptionalReads(d: Option<seq<byte>>, rest: seq<byte>)
    requires OptionalField(d)
    ensures GetOptional(d.Some?, PutOptional(d) + rest) == Parsed(d, rest)
  {
    if d.Some? {
      BinaryExact(PutOptional(d) + rest, d.value, rest);
    } else {
      assert PutOptional(d) + rest == rest;
    }
  }

  lemma WillReads(c: Connect, rest: seq<byte>)
    requires ConnectAcceptable(c) && |WillBytes(c)| + |rest| < VARINT_LIMIT
    ensures GetWill(c.version == V5, ConnectFlags(c), WillBytes(c) + rest) == Parsed(AsSent(c).will, rest)
  {
    hide P.ReadAll, P.AllEncodable, P.PutList, P.CheckAll, P.LengthAll, GetBinary, PutBinary, ConnectFlags;
    FlagBits(c);
    if c.will.None? {
      assert WillBytes(c) + rest == rest;
    } else {
      WillListReads(c, rest);
      var payload := PutBinary(c.will.value.payload);
      BinaryExact(PutBinary(c.will.value.topic) + (payload + rest), c.will.value.topic, payload + rest);
      BinaryExact(payload + rest, c.will.value.payload, rest);
    }
  }

  /** The will properties, which only MQTT v5.0 has. */
  lemma WillListReads(c: Connect, rest: seq<byte>)
    requires ConnectAcceptable(c) && c.will.Some? && |WillBytes(c)| + |rest| < VARINT_LIMIT
    ensures var will := c.will.value;
            var tail := PutBinary(will.topic) + (PutBinary(will.payload) + rest);
            (if c.version == V5 then P.ReadAll(P.CMD_WILL, WillBytes(c) + rest) else Parsed([], WillBytes(c) + rest))
            == Parsed(if c.version == V5 then will.properties else [], tail)
  {
    hide P.ReadAll, P.AllEncodable, P.PutList, P.CheckAll, P.LengthAll, PutBinary;
    var will := c.will.value;
    var list := if c.version == V5 then P.PutList(will.properties) else [];
    var topic, payload := PutBinary(will.topic), PutBinary(will.payload);
    assert WillBytes(c) + rest == list + (topic + (payload + rest));
    if c.version == V5 {
      P.ReadAllExact(P.CMD_WILL, WillBytes(c) + rest, will.properties, topic + (payload + rest));
    }
  }

  /** The bytes of a CONNECT determine everything it was built from, and a reader of section 3.1 finds it. */
  lemma ConnectRoundTrip(c: Connect)
    requires ConnectAcceptable(c) && |ConnectBody(c)| < VARINT_LIMIT
    ensures DecodeConnect(ConnectBody(c)) == Parsed(AsSent(c), [])
  {
    hide P.ReadAll, P.AllEncodable, P.PutList, P.CheckAll, P.LengthAll, GetBinary, PutBinary, ConnectFlags, GetFixed, GetWill,
      GetOptional, PutOptional, WillBytes, PutUint16;
    var id := if c.clientId.Some? then c.clientId.value else [];
    var list := if c.version == V5 then P.PutList(c.properties) else [];
    var r5 := PutOptional(c.password) + [];
    var r4 := PutOptional(c.username) + r5;
    var r3 := WillBytes(c) + r4;
    var r2 := PutBinary(id) + r3;
    var r1 := list + r2;
    ConnectSplits(c, id, list);
    FixedReads(c, r1);
    if c.version == V5 {
      P.ReadAllExact(P.CMD_CONNECT, r1, c.properties, r2);
    } else {
      assert r1 == r2;
    }
    BinaryExact(r2, id, r3);
    WillReads(c, r4);
    FlagBits(c);
    OptionalReads(c.username, r5);
    OptionalReads(c.password, []);
  }

  lemma ConnectSplits(c: Connect, id: seq<byte>, list: seq<byte>)
    requires ConnectSendable(c) && id == (if c.clientId.Some? then c.clientId.value else [])
    requires list == if c.version == V5 then P.PutList(c.properties) else []
    ensures var rest := list + (PutBinary(id) + (WillBytes(c) + (PutOptional(c.username) + (PutOptional(c.password) + []))));
            && ConnectBody(c) == PutBinary(ProtocolName(c.version)) + [VersionByte(c.version)] + [ConnectFlags(c)]
                                 + PutUint16(c.keepalive) + rest
            && |rest| <= |ConnectBody(c)|
  {
    hide P.AllEncodable, P.PutList, P.LengthAll, PutBinary, ConnectFlags, PutOptional, WillBytes, PutUint16;
    var fixed := PutBinary(ProtocolName(c.version)) + [VersionByte(c.version)] + [ConnectFlags(c)] + PutUint16(c.keepalive);
    var i, w, u, p := PutBinary(id), WillBytes(c), PutOptional(c.username), PutOptional(c.password);
    assert VariableHeader(c) == fixed + list;
    assert fixed + list + i + w + u + p == fixed + (list + (i + (w + (u + (p + [])))));
  }
}
