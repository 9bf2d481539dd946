/**
 The QoS 1/2 delivery machine of the client library, on values.

 A `Session` holds the fields of `struct mosquitto` that the two message queues
 depend on.  Every API call and packet handler is one function from sessions to
 sessions; `Client.dfy` holds the same operations as methods that update the
 fields in place.  Calls to `send__*` and user callbacks are entries of `log`.
 */
module Delivery {
  import opened Basics

  datatype MsgState =
    | Invalid
    | PublishQos1
    | WaitForPuback
    | PublishQos2
    | WaitForPubrec
    | ResendPubrel
    | WaitForPubrel
    | WaitForPubcomp

  /** `serial` stands for the identity (and contents) of the C structure. */
  datatype Message = Message(serial: nat, mid: nat, qos: nat, state: MsgState, dup: bool)

  datatype Rc = Success | NoConn | Protocol | NotFound | MalformedPacket | ConnRefused | SendError

  /** What the outside world sees of the client. */
  datatype Event =
    | PublishSent(serial: nat, dup: bool, ok: bool) // one call of send__publish
    | PubrelSent(mid: nat)
    | PubrecSent(mid: nat)
    | PubackSent(mid: nat)
    | PubcompSent(mid: nat, ok: bool)
    | Queued(serial: nat)                           // appended to msgs_out
    | Completed(serial: nat)                        // on_publish callback for QoS > 0
    | Stored(serial: nat)                           // incoming QoS 2 message queued
    | Delivered(serial: nat, qos: nat)              // on_message callback
    | Dropped(serial: nat)                          // removed because PUBCOMP was not sent

  datatype MsgData = MsgData(inflight: seq<Message>, queueLen: int, quota: int, maximum: nat)

  datatype ClientState = New | Connected | Active | ConnectPending | Disconnecting

  datatype Session = Session(
    sockOpen: bool,
    state: ClientState,
    v5: bool,
    lastMid: nat,
    nextSerial: nat,
    msgsOut: MsgData,
    msgsIn: MsgData,
    log: seq<Event>)

  /** The decoded body of a PUBACK, PUBREC, PUBREL or PUBCOMP. */
  datatype AckBody = BadFlags | BadBody | Ack(mid: nat, reason: nat)

  datatype ConnectOutcome = Refused | ConnectNotSent | Opened

  const INITIAL_MAXIMUM: nat := 20

  // ----- util_mosq.c

  function NextMid(lastMid: nat): (mid: nat)
    ensures lastMid < 0x1_0000 ==> 0 < mid < 0x1_0000
  {
    if (lastMid + 1) % 0x1_0000 == 0 then 1 else (lastMid + 1) % 0x1_0000
  }

  function Increment(d: MsgData): MsgData {
    if d.quota < d.maximum then d.(quota := d.quota + 1) else d
  }

  function Decrement(d: MsgData): MsgData {
    if d.quota > 0 then d.(quota := d.quota - 1) else d
  }

  // ----- messages_mosq.c

  /** Position of the first message with this packet identifier, or the length of the list. */
  function IndexOf(ms: seq<Message>, mid: nat): (i: nat)
    ensures i <= |ms|
    ensures i < |ms| ==> ms[i].mid == mid
    ensures forall j :: 0 <= j < i ==> ms[j].mid != mid
  {
    if ms == [] || ms[0].mid == mid then 0 else 1 + IndexOf(ms[1..], mid)
  }

  function RemoveAt(ms: seq<Message>, i: nat): (r: seq<Message>)
    requires i < |ms|
    ensures |r| == |ms| - 1
    ensures forall j :: 0 <= j < i ==> r[j] == ms[j]
    ensures forall j :: i <= j < |r| ==> r[j] == ms[j + 1]
  {
    ms[..i] + ms[i + 1..]
  }

  /** message__remove and message__out_update agree on when they find their message. */
  function LookupRc(ms: seq<Message>, mid: nat, qos: nat): Rc {
    var i := IndexOf(ms, mid);
    if i == |ms| then NotFound else if ms[i].qos != qos then Protocol else Success
  }

  function RemoveMid(d: MsgData, mid: nat): MsgData
    requires IndexOf(d.inflight, mid) < |d.inflight|
  {
    d.(inflight := RemoveAt(d.inflight, IndexOf(d.inflight, mid)), queueLen := d.queueLen - 1)
  }

  function Sending(m: Message): Message {
    m.(state := if m.qos == 1 then WaitForPuback else if m.qos == 2 then WaitForPubrec else m.state)
  }

  predicate Releasable(m: Message) {
    m.qos > 0 && m.state == Invalid
  }

  datatype Released = Released(inflight: seq<Message>, quota: int, log: seq<Event>, rc: Rc)

  /** message__release_to_inflight; `sends` is the number of calls of send__publish that succeed. */
  function Release(ms: seq<Message>, quota: int, sends: nat): (r: Released)
    ensures |r.inflight| == |ms|
    decreases |ms|
  {
    if ms == [] || quota <= 0 then Released(ms, quota, [], Success)
    else if !Releasable(ms[0]) then
      var r := Release(ms[1..], quota, sends);
      r.(inflight := [ms[0]] + r.inflight)
    else if sends == 0 then
      Released([Sending(ms[0])] + ms[1..], quota, [PublishSent(ms[0].serial, ms[0].dup, false)], NoConn)
    else
      var r := Release(ms[1..], quota - 1, sends - 1);
      r.(inflight := [Sending(ms[0])] + r.inflight,
         log := [PublishSent(ms[0].serial, ms[0].dup, true)] + r.log)
  }

  /** Sends succeed only while the socket is open. */
  function Capacity(s: Session, sends: nat): nat {
    if s.sockOpen then sends else 0
  }

  function ReleaseOut(s: Session, sends: nat): Session {
    var r := Release(s.msgsOut.inflight, s.msgsOut.quota, Capacity(s, sends));
    s.(msgsOut := s.msgsOut.(inflight := r.inflight, quota := r.quota), log := s.log + r.log)
  }

  /** The state a message inside the quota is given for replay. */
  function Replay(m: Message): Message {
    m.(state :=
      if m.qos == 1 then PublishQos1
      else if m.qos == 2 && m.state == WaitForPubrec then PublishQos2
      else if m.qos == 2 && m.state == WaitForPubcomp then ResendPubrel
      else m.state)
  }

  function ResetOut(d: MsgData, updateQuotaOnly: bool): (r: MsgData)
    ensures |r.inflight| == |d.inflight| && r.maximum == d.maximum
    ensures forall i :: 0 <= i < |d.inflight| ==>
      r.inflight[i] == if i >= d.maximum then d.inflight[i].(state := Invalid)
                       else if updateQuotaOnly then d.inflight[i] else Replay(d.inflight[i])
  {
    d.(inflight := seq(|d.inflight|, i requires 0 <= i < |d.inflight| =>
                     if i >= d.maximum then d.inflight[i].(state := Invalid)
                     else if updateQuotaOnly then d.inflight[i] else Replay(d.inflight[i])),
       quota := d.maximum - Min(|d.inflight|, d.maximum),
       queueLen := |d.inflight|)
  }

  function OnlyQos2(ms: seq<Message>): (r: seq<Message>)
    ensures forall m :: m in r <==> m in ms && m.qos == 2
    ensures |r| <= |ms|
  {
    if ms == [] then []
    else (if ms[0].qos == 2 then [ms[0]] else []) + OnlyQos2(ms[1..])
  }

  /** The length is counted before messages of another QoS are deleted, as the loop does. */
  function ResetIn(d: MsgData): MsgData {
    var kept := OnlyQos2(d.inflight);
    d.(inflight := kept, quota := d.maximum - Min(|kept|, d.maximum), queueLen := |d.inflight|)
  }

  function Reset(s: Session, updateQuotaOnly: bool): Session {
    s.(msgsIn := ResetIn(s.msgsIn), msgsOut := ResetOut(s.msgsOut, updateQuotaOnly))
  }

  predicate Retried(m: Message) {
    m.state in {PublishQos1, PublishQos2, WaitForPubrel, ResendPubrel, WaitForPubcomp}
  }

  function RetryEvent(m: Message): Event
    requires Retried(m)
  {
    match m.state
    case PublishQos1 => PublishSent(m.serial, true, true)
    case PublishQos2 => PublishSent(m.serial, true, true)
    case WaitForPubrel => PubrecSent(m.mid)
    case _ => PubrelSent(m.mid)
  }

  function RetryOne(m: Message): Message {
    if Retried(m) then m.(dup := true) else m
  }

  function RetryLog(ms: seq<Message>): seq<Event> {
    if ms == [] then []
    else (if Retried(ms[0]) then [RetryEvent(ms[0])] else []) + RetryLog(ms[1..])
  }

  function RetryAll(ms: seq<Message>): (r: seq<Message>)
    ensures |r| == |ms| && forall i :: 0 <= i < |ms| ==> r[i] == RetryOne(ms[i])
  {
    seq(|ms|, i requires 0 <= i < |ms| => RetryOne(ms[i]))
  }

  function RetryCheck(s: Session): Session {
    s.(msgsOut := s.msgsOut.(inflight := RetryAll(s.msgsOut.inflight)),
       log := s.log + RetryLog(s.msgsOut.inflight))
  }

  // ----- API calls and handlers

  /** A new message, still waiting, at the end of the outgoing queue. */
  function Enqueue(s: Session, qos: nat): Session {
    var mid := NextMid(s.lastMid);
    var m := Message(s.nextSerial, mid, qos, Invalid, false);
    s.(lastMid := mid,
       nextSerial := s.nextSerial + 1,
       msgsOut := s.msgsOut.(inflight := s.msgsOut.inflight + [m], queueLen := s.msgsOut.queueLen + 1),
       log := s.log + [Queued(s.nextSerial)])
  }

  /** mosquitto_publish_v5 once its arguments have been accepted. */
  function Publish(s: Session, qos: nat, sends: nat): Session {
    if qos == 0 then
      s.(lastMid := NextMid(s.lastMid),
         nextSerial := s.nextSerial + 1,
         log := s.log + [PublishSent(s.nextSerial, false, Capacity(s, sends) > 0)])
    else
      ReleaseOut(Enqueue(s, qos), sends)
  }

  function Complete(s: Session, mid: nat): Session
    requires IndexOf(s.msgsOut.inflight, mid) < |s.msgsOut.inflight|
  {
    var m := s.msgsOut.inflight[IndexOf(s.msgsOut.inflight, mid)];
    s.(msgsOut := RemoveMid(s.msgsOut, mid), log := s.log + [Completed(m.serial)])
  }

  /** handle__pubackcomp; the quota is raised before the packet is decoded. */
  function PubackComp(s: Session, qos: nat, body: AckBody, sends: nat): (Session, Rc) {
    if s.state != Active then (s, Protocol)
    else if body.BadFlags? then (s, MalformedPacket)
    else
      var s1 := s.(msgsOut := Increment(s.msgsOut));
      if body.BadBody? then (s1, MalformedPacket)
      else
        match LookupRc(s1.msgsOut.inflight, body.mid, qos)
        case Success => (ReleaseOut(Complete(s1, body.mid), sends), Success)
        case NotFound => (ReleaseOut(s1, sends), Success)
        case rc => (s1, rc)
  }

  function SetState(ms: seq<Message>, mid: nat, state: MsgState): seq<Message>
    requires IndexOf(ms, mid) < |ms|
  {
    ms[IndexOf(ms, mid) := ms[IndexOf(ms, mid)].(state := state)]
  }

  predicate Rejects(v5: bool, reason: nat) {
    v5 && reason >= 0x80
  }

  /** handle__pubrec */
  function Pubrec(s: Session, body: AckBody, sends: nat): (Session, Rc) {
    if s.state != Active then (s, Protocol)
    else if !body.Ack? then (s, MalformedPacket)
    else
      var rc := LookupRc(s.msgsOut.inflight, body.mid, 2);
      if Rejects(s.v5, body.reason) then
        var s1 := if rc == Success then Complete(s, body.mid) else s;
        (ReleaseOut(s1.(msgsOut := Increment(s1.msgsOut)), sends), Success)
      else if rc == Protocol then (s, Protocol)
      else
        var out := if rc == NotFound then s.msgsOut
                   else s.msgsOut.(inflight := SetState(s.msgsOut.inflight, body.mid, WaitForPubcomp));
        (s.(msgsOut := out, log := s.log + [PubrelSent(body.mid)]), Success)
  }

  /** handle__publish after decoding. */
  function Incoming(s: Session, qos: nat, mid: nat, sendOk: bool): (Session, Rc) {
    var rc := if sendOk then Success else SendError;
    var s1 := s.(nextSerial := s.nextSerial + 1);
    if s.state != Active then (s, Protocol)
    else if qos > 0 && s.v5 && s.msgsIn.quota == 0 then (s, Protocol)
    else if qos > 0 && mid == 0 then (s, Protocol)
    else if qos == 0 then (s1.(log := s.log + [Delivered(s.nextSerial, 0)]), Success)
    else if qos == 1 then
      (s1.(msgsIn := Increment(Decrement(s.msgsIn)),
           log := s.log + [PubackSent(mid), Delivered(s.nextSerial, 1)]), rc)
    else if qos == 2 then
      var d := Decrement(s.msgsIn);
      var m := Message(s.nextSerial, mid, 2, WaitForPubrel, false);
      (s1.(msgsIn := d.(inflight := d.inflight + [m], queueLen := d.queueLen + 1),
           log := s.log + [PubrecSent(mid), Stored(s.nextSerial)]), rc)
    else (s, Protocol)
  }

  /** handle__pubrel */
  function Pubrel(s: Session, body: AckBody, sendOk: bool): (Session, Rc) {
    if s.state != Active then (s, Protocol)
    else if !body.Ack? then (s, MalformedPacket)
    else
      var s1 := s.(msgsIn := Increment(s.msgsIn), log := s.log + [PubcompSent(body.mid, sendOk)]);
      var ms := s.msgsIn.inflight;
      match LookupRc(ms, body.mid, 2)
      case Success =>
        var serial := ms[IndexOf(ms, body.mid)].serial;
        (s1.(msgsIn := RemoveMid(s1.msgsIn, body.mid),
             log := s1.log + [if sendOk then Delivered(serial, 2) else Dropped(serial)]),
         if sendOk then Success else SendError)
      case NotFound => (s1, if sendOk then Success else SendError)
      case rc => (s1, if sendOk then rc else SendError)
  }

  /** handle__connack after decoding; `receiveMaximum` is the property of that name. */
  function Connack(s: Session, reason: nat, receiveMaximum: Option<nat>): (Session, Rc) {
    var max := if receiveMaximum.Some? then receiveMaximum.value else s.msgsOut.maximum;
    var s1 := Reset(s.(msgsOut := s.msgsOut.(maximum := max)), true);
    if reason == 0 then
      (RetryCheck(if s1.state == Disconnecting then s1 else s1.(state := Active)), Success)
    else (s1, if reason <= 5 then ConnRefused else Protocol)
  }

  /** mosquitto__reconnect; `receiveMaximum` is the CONNECT property that send__connect applies. */
  function Reconnect(s: Session, outcome: ConnectOutcome, receiveMaximum: Option<nat>): Session {
    var s1 := Reset(s, false).(sockOpen := false);
    var in' := if s.v5 && receiveMaximum.Some?
               then s1.msgsIn.(maximum := receiveMaximum.value, quota := receiveMaximum.value)
               else s1.msgsIn;
    match outcome
    case Refused => s1.(state := ConnectPending)
    case ConnectNotSent => s1.(state := New, msgsIn := in')
    case Opened => s1.(state := Connected, sockOpen := true, msgsIn := in')
  }

  // ----- The transition system

  datatype Step =
    | DoPublish(qos: nat, sends: nat)
    | OnPuback(body: AckBody, sends: nat)
    | OnPubcomp(body: AckBody, sends: nat)
    | OnPubrec(body: AckBody, sends: nat)
    | OnPublish(qos: nat, mid: nat, sendOk: bool)
    | OnPubrel(body: AckBody, sendOk: bool)
    | OnConnack(reason: nat, receiveMaximum: Option<nat>)
    | SocketLost
    | DoReconnect(outcome: ConnectOutcome, receiveMaximum: Option<nat>)

  function Init(v5: bool): Session {
    Session(false, New, v5, 0, 0,
            MsgData([], 0, INITIAL_MAXIMUM, INITIAL_MAXIMUM),
            MsgData([], 0, INITIAL_MAXIMUM, INITIAL_MAXIMUM), [])
  }

  /** mosquitto__loop_rc_handle: a handler that reports an error costs the connection. */
  function LoopRcHandle(r: (Session, Rc)): Session {
    if r.1 == Success then r.0 else r.0.(sockOpen := false)
  }

  /** Packets are only read while the socket is open. */
  function Next(s: Session, step: Step): Session {
    match step
    case DoPublish(qos, sends) => if qos <= 2 then Publish(s, qos, sends) else s
    case DoReconnect(outcome, max) => Reconnect(s, outcome, max)
    case SocketLost => s.(sockOpen := false)
    case OnPuback(body, sends) => if s.sockOpen then LoopRcHandle(PubackComp(s, 1, body, sends)) else s
    case OnPubcomp(body, sends) => if s.sockOpen then LoopRcHandle(PubackComp(s, 2, body, sends)) else s
    case OnPubrec(body, sends) => if s.sockOpen then LoopRcHandle(Pubrec(s, body, sends)) else s
    case OnPublish(qos, mid, sendOk) => if s.sockOpen then LoopRcHandle(Incoming(s, qos, mid, sendOk)) else s
    case OnPubrel(body, sendOk) => if s.sockOpen then LoopRcHandle(Pubrel(s, body, sendOk)) else s
    case OnConnack(reason, max) => if s.sockOpen then LoopRcHandle(Connack(s, reason, max)) else s
  }

  function Run(s: Session, steps: seq<Step>): Session
    decreases |steps|
  {
    if steps == [] then s else Run(Next(s, steps[0]), steps[1..])
  }
}
