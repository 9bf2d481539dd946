/**
 Outgoing flow control and the QoS 2 promise (sections 4.9 and 4.3.3 of MQTT v5.0),
 over every run in which the broker only acknowledges what was sent to it.
 */
module FlowControl {
  import opened Basics
  import opened Delivery

  /** The message has passed its PUBREC: only PUBREL may be sent for it. */
  predicate Acknowledged(m: Message) {
    m.qos == 2 && m.state in {WaitForPubcomp, ResendPubrel}
  }

  /** Number of messages that hold a unit of the send quota. */
  function InFlight(d: MsgData): int {
    d.maximum - d.quota
  }

  /** Messages of QoS 1 or 2 with serials already given out. */
  predicate Messages12(ms: seq<Message>, bound: nat) {
    forall i :: 0 <= i < |ms| ==> ms[i].qos in {1, 2} && ms[i].serial < bound
  }

  predicate WellFormed(s: Session) {
    0 <= s.msgsOut.quota <= s.msgsOut.maximum && Messages12(s.msgsOut.inflight, s.nextSerial)
  }

  /** The first `k` messages are in flight and no others. */
  predicate InFlightPrefix(ms: seq<Message>, k: int) {
    && (forall i :: 0 <= i < k && i < |ms| ==> ms[i].state != Invalid)
    && (forall i :: 0 <= k <= i < |ms| ==> ms[i].state == Invalid)
  }

  /**
   Always: acknowledged messages sit below the maximum, where no message is left waiting,
   and an exhausted quota means that the list reaches the maximum.
   */
  ghost predicate FlowInv(s: Session) {
    var ms, d := s.msgsOut.inflight, s.msgsOut;
    && WellFormed(s)
    && (forall i :: 0 <= i < |ms| && i < d.maximum ==> ms[i].state != Invalid)
    && (forall i :: d.maximum <= i < |ms| ==> !Acknowledged(ms[i]))
    && (d.quota == 0 ==> |ms| >= d.maximum)
    && (s.sockOpen ==> ConnectedInv(d))
  }

  /**
   While the socket is open: the in-flight messages are a prefix whose length plus the
   quota is the maximum, and a positive quota leaves nothing waiting.
   */
  ghost predicate ConnectedInv(d: MsgData) {
    && InFlight(d) <= |d.inflight|
    && InFlightPrefix(d.inflight, InFlight(d))
    && (d.quota > 0 ==> |d.inflight| == InFlight(d))
  }

  /** The broker refers to a message of this QoS that has been sent. */
  predicate Expected(s: Session, mid: nat, qos: nat) {
    var ms := s.msgsOut.inflight;
    var i := IndexOf(ms, mid);
    i < |ms| && ms[i].qos == qos && ms[i].state != Invalid
  }

  /**
   A decoded acknowledgement that reaches the queue: its message has been sent, or there is
   none with its identifier and the quota cannot be raised.
   */
  predicate LegalAck(s: Session, mid: nat, qos: nat, sends: nat) {
    && sends > |s.msgsOut.inflight|
    && if LookupRc(s.msgsOut.inflight, mid, qos) == Success then Expected(s, mid, qos)
       else s.msgsOut.quota == s.msgsOut.maximum
  }

  /** A lower maximum cuts off no acknowledged message; a higher one finds no message waiting. */
  predicate Follows(d: MsgData, max: nat) {
    && (forall i :: 0 <= max <= i < |d.inflight| ==> !Acknowledged(d.inflight[i]))
    && (max > d.maximum ==> |d.inflight| <= d.maximum)
  }

  /**
   The hypotheses on a run: sends succeed while the socket is open, the broker acknowledges
   only messages that have been sent, and a CONNACK changes the receive maximum only in a
   way the queue can follow.  Packets that a handler refuses, because of their flags, body,
   QoS or the state of the client, are allowed: they cost the connection.
   */
  predicate Legal(s: Session, step: Step) {
    match step
    case DoPublish(_, sends) => sends > |s.msgsOut.inflight|
    case OnPuback(body, sends) => Reaches(s, body) && LookupRc(s.msgsOut.inflight, body.mid, 1) != Protocol ==> LegalAck(s, body.mid, 1, sends)
    case OnPubcomp(body, sends) => Reaches(s, body) && LookupRc(s.msgsOut.inflight, body.mid, 2) != Protocol ==> LegalAck(s, body.mid, 2, sends)
    case OnPubrec(body, sends) =>
      Reaches(s, body) ==>
        if Rejects(s.v5, body.reason) then LegalAck(s, body.mid, 2, sends)
        else LookupRc(s.msgsOut.inflight, body.mid, 2) == Success ==> Expected(s, body.mid, 2)
    case OnConnack(_, max) => max.Some? ==> Follows(s.msgsOut, max.value)
    case _ => true
  }

  /** The handler gets as far as looking for the message. */
  predicate Reaches(s: Session, body: AckBody) {
    s.state == Active && body.Ack?
  }

  predicate LegalRun(s: Session, steps: seq<Step>)
    decreases |steps|
  {
    steps == [] || (Legal(s, steps[0]) && LegalRun(Next(s, steps[0]), steps[1..]))
  }

  /** The message `n` has been published and, if it is still queued, has passed its PUBREC. */
  predicate PastPubrec(s: Session, n: nat) {
    n < s.nextSerial && AllAcknowledged(s.msgsOut.inflight, n)
  }

  predicate AllAcknowledged(ms: seq<Message>, n: nat) {
    forall i :: 0 <= i < |ms| && ms[i].serial == n ==> Acknowledged(ms[i])
  }

  /** No call of send__publish for message `n`. */
  predicate NeverPublished(log: seq<Event>, n: nat) {
    forall i :: 0 <= i < |log| && log[i].PublishSent? ==> log[i].serial != n
  }

  /** `t` adds to the log of `s`, but no call of send__publish for message `n`. */
  predicate Silent(s: Session, t: Session, n: nat) {
    && |s.log| <= |t.log| && t.log[..|s.log|] == s.log
    && NeverPublished(t.log[|s.log|..], n)
  }

  /** `t` is a good successor of `s` as far as message `n` can tell. */
  ghost predicate Keeps(s: Session, t: Session, n: nat) {
    && FlowInv(t)
    && (PastPubrec(s, n) ==> PastPubrec(t, n) && Silent(s, t, n))
  }

  /** Good steps compose. */
  lemma Chain(s: Session, s1: Session, t: Session, n: nat)
    requires PastPubrec(s, n) ==> PastPubrec(s1, n) && Silent(s, s1, n)
    requires Keeps(s1, t, n)
    ensures Keeps(s, t, n)
  {
    if PastPubrec(s, n) {
      assert t.log[..|s.log|] == t.log[..|s1.log|][..|s.log|];
      assert t.log[|s.log|..] == s1.log[|s.log|..] + t.log[|s1.log|..];
    }
  }

  // ----- message__release_to_inflight

  /** With an open socket the release fills the quota from the front of the waiting messages. */
  lemma {:induction false} ReleaseFills(ms: seq<Message>, quota: int, sends: nat, k: nat)
    requires k <= |ms| && quota >= 0 && sends >= |ms| - k
    requires InFlightPrefix(ms, k)
    requires forall i :: 0 <= i < |ms| ==> ms[i].qos in {1, 2}
    ensures var r, n := Release(ms, quota, sends), Min(|ms|, k + quota);
            && r.rc == Success && r.quota == quota - (n - k)
            && (forall i :: 0 <= i < |ms| ==> r.inflight[i] == if k <= i < n then Sending(ms[i]) else ms[i])
    decreases |ms|
  {
    if ms != [] && quota > 0 {
      if k > 0 {
        ReleaseFills(ms[1..], quota, sends, k - 1);
      } else {
        ReleaseFills(ms[1..], quota - 1, sends - 1, 0);
      }
    }
  }

  /** Position of the first waiting message, or the length of the list. */
  function FirstWaiting(ms: seq<Message>): (i: nat)
    ensures i <= |ms| && (i < |ms| ==> Releasable(ms[i]))
    ensures forall j :: 0 <= j < i ==> !Releasable(ms[j])
  {
    if ms == [] || Releasable(ms[0]) then 0 else 1 + FirstWaiting(ms[1..])
  }

  /** With a closed socket the release marks the first waiting message and gives up. */
  lemma {:induction false} ReleaseGivesUp(ms: seq<Message>, quota: int)
    ensures var r, i := Release(ms, quota, 0), FirstWaiting(ms);
            if quota > 0 && i < |ms|
            then r == Released(ms[i := Sending(ms[i])], quota, [PublishSent(ms[i].serial, ms[i].dup, false)], NoConn)
            else r == Released(ms, quota, [], Success)
    decreases |ms|
  {
    if ms != [] && quota > 0 && !Releasable(ms[0]) {
      ReleaseGivesUp(ms[1..], quota);
    }
  }

  /** Only waiting messages are passed to send__publish. */
  lemma {:induction false} ReleaseIsSilent(ms: seq<Message>, quota: int, sends: nat, n: nat)
    requires AllAcknowledged(ms, n)
    ensures var r := Release(ms, quota, sends);
            AllAcknowledged(r.inflight, n) && NeverPublished(r.log, n)
    decreases |ms|
  {
    if ms != [] && quota > 0 {
      if !Releasable(ms[0]) {
        ReleaseIsSilent(ms[1..], quota, sends, n);
      } else if sends > 0 {
        ReleaseIsSilent(ms[1..], quota - 1, sends - 1, n);
      }
    }
  }

  // ----- One lemma per operation

  /** A session whose release is still to be done: in-flight prefix, quota not yet spent. */
  predicate Pending(s: Session) {
    && WellFormed(s) && InFlight(s.msgsOut) <= |s.msgsOut.inflight|
    && InFlightPrefix(s.msgsOut.inflight, InFlight(s.msgsOut))
  }

  lemma ReleaseKeeps(s: Session, sends: nat, n: nat)
    requires Pending(s) && s.sockOpen && sends >= |s.msgsOut.inflight|
    ensures Keeps(s, ReleaseOut(s, sends), n)
  {
    ReleaseFills(s.msgsOut.inflight, s.msgsOut.quota, sends, InFlight(s.msgsOut));
    if PastPubrec(s, n) {
      ReleaseIsSilent(s.msgsOut.inflight, s.msgsOut.quota, sends, n);
    }
  }

  /** What FlowInv says about the messages, whatever the quota. */
  predicate Placed(ms: seq<Message>, max: nat, bound: nat) {
    && Messages12(ms, bound)
    && (forall i :: 0 <= i < |ms| && i < max ==> ms[i].state != Invalid)
    && (forall i :: max <= i < |ms| ==> !Acknowledged(ms[i]))
  }

  /** A new last message, and the first waiting one marked: below the maximum that is the new one. */
  lemma MarkedKeepsPlaces(ms: seq<Message>, max: nat, bound: nat, m: Message)
    requires Placed(ms, max, bound) && m.qos in {1, 2} && m.state == Invalid && m.serial == bound
    ensures var all := ms + [m];
            var i := FirstWaiting(all);
            && i < |all| && Placed(all[i := Sending(all[i])], max, bound + 1)
            && (|ms| >= max ==> Placed(all, max, bound + 1))
  {
    hide FirstWaiting;
    var all := ms + [m];
    var i := FirstWaiting(all);
    assert i <= |ms| by { assert Releasable(all[|ms|]); }
    if i < |ms| {
      assert Releasable(ms[i]);
      assert i >= max;
    }
  }

  lemma MarkedIsSilent(ms: seq<Message>, m: Message, i: nat, n: nat)
    requires AllAcknowledged(ms, n) && m.serial != n && i <= |ms| && Releasable((ms + [m])[i])
    ensures var all := ms + [m];
            AllAcknowledged(all[i := Sending(all[i])], n) && AllAcknowledged(all, n) && all[i].serial != n
  {
  }

  /** While disconnected a publish is marked as sent at most, and keeps its place at the end. */
  lemma OfflinePublishKeeps(s: Session, qos: nat, sends: nat, n: nat)
    requires FlowInv(s) && !s.sockOpen && qos in {1, 2}
    ensures Keeps(s, Publish(s, qos, sends), n)
  {
    hide Release, FirstWaiting, Placed, AllAcknowledged;
    var ms, d := s.msgsOut.inflight, s.msgsOut;
    var m := Message(s.nextSerial, NextMid(s.lastMid), qos, Invalid, false);
    ReleaseGivesUp(ms + [m], d.quota);
    FlowPlaced(s);
    MarkedKeepsPlaces(ms, d.maximum, s.nextSerial, m);
    var t := Publish(s, qos, sends);
    var i := FirstWaiting(ms + [m]);
    assert t.msgsOut.inflight == if d.quota == 0 then ms + [m] else (ms + [m])[i := Sending((ms + [m])[i])];
    PlacedFlow(t);
    if PastPubrec(s, n) {
      MarkedIsSilent(ms, m, i, n);
    }
  }

  lemma FlowPlaced(s: Session)
    requires FlowInv(s)
    ensures Placed(s.msgsOut.inflight, s.msgsOut.maximum, s.nextSerial)
  {
  }

  lemma PlacedFlow(s: Session)
    requires !s.sockOpen && Placed(s.msgsOut.inflight, s.msgsOut.maximum, s.nextSerial)
    requires 0 <= s.msgsOut.quota <= s.msgsOut.maximum && (s.msgsOut.quota == 0 ==> |s.msgsOut.inflight| >= s.msgsOut.maximum)
    ensures FlowInv(s)
  {
  }

  lemma PublishKeeps(s: Session, qos: nat, sends: nat, n: nat)
    requires FlowInv(s) && qos <= 2 && sends > |s.msgsOut.inflight|
    ensures Keeps(s, Publish(s, qos, sends), n)
  {
    if qos > 0 {
      if s.sockOpen {
        ReleaseKeeps(Enqueue(s, qos), sends, n);
      } else {
        OfflinePublishKeeps(s, qos, sends, n);
      }
    }
  }

  /** Removing an expected message and returning its quota leaves room for one release. */
  lemma CompleteKeeps(s: Session, mid: nat, qos: nat, n: nat)
    requires FlowInv(s) && s.sockOpen && Expected(s, mid, qos)
    ensures var s1 := Complete(s, mid).(msgsOut := Increment(RemoveMid(s.msgsOut, mid)));
            && Pending(s1)
            && (PastPubrec(s, n) ==> PastPubrec(s1, n) && Silent(s, s1, n))
  {
    var ms, i := s.msgsOut.inflight, IndexOf(s.msgsOut.inflight, mid);
    assert i < InFlight(s.msgsOut);
  }

  /** Any change of the quota is harmless once the connection is lost. */
  lemma ClosingKeeps(s: Session, t: Session, n: nat)
    requires FlowInv(s) && !t.sockOpen && t.nextSerial >= s.nextSerial
    requires t.msgsOut.inflight == s.msgsOut.inflight && t.msgsOut.maximum == s.msgsOut.maximum
    requires s.msgsOut.quota <= t.msgsOut.quota <= t.msgsOut.maximum
    requires |s.log| <= |t.log| && t.log[..|s.log|] == s.log
    requires forall i :: |s.log| <= i < |t.log| ==> !t.log[i].PublishSent?
    ensures Keeps(s, t, n)
  {
  }

  lemma ReturnedKeeps(s: Session, mid: nat, qos: nat, sends: nat, n: nat)
    requires FlowInv(s) && s.sockOpen && LegalAck(s, mid, qos, sends)
    ensures var s1 := if LookupRc(s.msgsOut.inflight, mid, qos) == Success then Complete(s, mid) else s;
            Keeps(s, ReleaseOut(s1.(msgsOut := Increment(s1.msgsOut)), sends), n)
  {
    hide IndexOf, FlowInv, Keeps, ReleaseOut;
    if LookupRc(s.msgsOut.inflight, mid, qos) == Success {
      CompleteKeeps(s, mid, qos, n);
      var s1 := Complete(s, mid).(msgsOut := Increment(RemoveMid(s.msgsOut, mid)));
      ReleaseKeeps(s1, sends, n);
      Chain(s, s1, ReleaseOut(s1, sends), n);
    } else {
      ConnectedPending(s);
      ReleaseKeeps(s, sends, n);
    }
  }

  lemma ConnectedPending(s: Session)
    requires FlowInv(s) && s.sockOpen
    ensures Pending(s)
  {
  }

  lemma AckKeeps(s: Session, qos: nat, body: AckBody, sends: nat, n: nat)
    requires FlowInv(s) && s.sockOpen && qos in {1, 2}
    requires Legal(s, if qos == 1 then OnPuback(body, sends) else OnPubcomp(body, sends))
    ensures Keeps(s, LoopRcHandle(PubackComp(s, qos, body, sends)), n)
  {
    hide IndexOf, Keeps, ReleaseOut;
    var r := PubackComp(s, qos, body, sends);
    if r.1 == Success {
      ReturnedKeeps(s, body.mid, qos, sends, n);
    } else {
      ClosingKeeps(s, LoopRcHandle(r), n);
    }
  }

  /** A PUBACK or PUBCOMP for an unknown identifier breaks the invariant exactly when it raises the quota. */
  lemma StrayAckIff(s: Session, qos: nat, mid: nat, reason: nat, sends: nat)
    requires FlowInv(s) && s.sockOpen && s.state == Active && sends > |s.msgsOut.inflight|
    requires LookupRc(s.msgsOut.inflight, mid, qos) == NotFound
    ensures FlowInv(PubackComp(s, qos, Ack(mid, reason), sends).0) <==> s.msgsOut.quota == s.msgsOut.maximum
  {
    hide IndexOf;
    var d, t := s.msgsOut, PubackComp(s, qos, Ack(mid, reason), sends).0;
    var k := InFlight(d);
    ReleaseFills(d.inflight, Increment(d).quota, sends, k);
    if k > 0 {
      var m := Min(|d.inflight|, k + d.quota + 1);
      assert InFlight(t.msgsOut) == m - 1 && t.msgsOut.inflight[m - 1].state != Invalid;
    }
  }

  lemma AcceptedPubrecKeeps(s: Session, mid: nat, n: nat)
    requires FlowInv(s) && s.sockOpen && Expected(s, mid, 2)
    ensures var t := s.(msgsOut := s.msgsOut.(inflight := SetState(s.msgsOut.inflight, mid, WaitForPubcomp)),
                        log := s.log + [PubrelSent(mid)]);
            Keeps(s, t, n)
  {
    assert IndexOf(s.msgsOut.inflight, mid) < InFlight(s.msgsOut);
  }

  lemma PubrecKeeps(s: Session, body: AckBody, sends: nat, n: nat)
    requires FlowInv(s) && s.sockOpen && Legal(s, OnPubrec(body, sends))
    ensures Keeps(s, LoopRcHandle(Pubrec(s, body, sends)), n)
  {
    hide IndexOf, FlowInv, Keeps, ReleaseOut, SetState;
    var r := Pubrec(s, body, sends);
    if r.1 != Success {
      SocketLostKeeps(s, n);
    } else if Rejects(s.v5, body.reason) {
      ReturnedKeeps(s, body.mid, 2, sends, n);
    } else if LookupRc(s.msgsOut.inflight, body.mid, 2) == Success {
      AcceptedPubrecKeeps(s, body.mid, n);
    } else {
      ReceivingKeeps(s, r.0, n);
    }
  }

  /** Recounting at CONNACK changes neither message states nor the quota. */
  lemma RecountIsIdentity(s: Session)
    requires FlowInv(s) && s.sockOpen
    ensures var t := Reset(s, true).msgsOut;
            t.inflight == s.msgsOut.inflight && t.quota == s.msgsOut.quota && t.maximum == s.msgsOut.maximum
  {
    var ms, t := s.msgsOut.inflight, Reset(s, true).msgsOut;
    forall i | 0 <= i < |ms| ensures t.inflight[i] == ms[i] {
      if i >= s.msgsOut.maximum { assert ms[i].state == Invalid; }
    }
  }

  /** message__retry_check sends PUBREL, not PUBLISH, for an acknowledged message. */
  lemma {:induction false} RetryIsSilent(ms: seq<Message>, n: nat)
    requires AllAcknowledged(ms, n)
    ensures NeverPublished(RetryLog(ms), n)
    decreases |ms|
  {
    if ms != [] {
      RetryIsSilent(ms[1..], n);
    }
  }

  lemma RetryKeeps(s: Session, n: nat)
    requires FlowInv(s)
    ensures Keeps(s, RetryCheck(s), n)
  {
    if PastPubrec(s, n) {
      RetryIsSilent(s.msgsOut.inflight, n);
    }
  }

  /** The CONNACK recount under a new maximum. */
  lemma RecountKeeps(s: Session, max: nat, n: nat)
    requires FlowInv(s) && s.sockOpen && (max == s.msgsOut.maximum || Follows(s.msgsOut, max))
    ensures Keeps(s, Reset(s.(msgsOut := s.msgsOut.(maximum := max)), true), n)
  {
    var ms, t := s.msgsOut.inflight, ResetOut(s.msgsOut.(maximum := max), true);
    assert forall i :: 0 <= i < Min(|ms|, max) ==> t.inflight[i] == ms[i] && ms[i].state != Invalid;
  }

  lemma ConnackKeeps(s: Session, reason: nat, max: Option<nat>, n: nat)
    requires FlowInv(s) && s.sockOpen && Legal(s, OnConnack(reason, max))
    ensures Keeps(s, LoopRcHandle(Connack(s, reason, max)), n)
  {
    hide FlowInv, Keeps, RetryCheck;
    var m := if max.Some? then max.value else s.msgsOut.maximum;
    RecountKeeps(s, m, n);
    var s1 := Reset(s.(msgsOut := s.msgsOut.(maximum := m)), true);
    KeepsMeaning(s, s1, n);
    if reason == 0 {
      var s2 := if s1.state == Disconnecting then s1 else s1.(state := Active);
      SameFlow(s1, s2, n);
      RetryKeeps(s2, n);
      Chain(s, s2, RetryCheck(s2), n);
    } else {
      SocketLostKeeps(s1, n);
      Chain(s, s1, s1.(sockOpen := false), n);
    }
  }

  lemma KeepsMeaning(s: Session, t: Session, n: nat)
    requires Keeps(s, t, n)
    ensures FlowInv(t) && (PastPubrec(s, n) ==> PastPubrec(t, n) && Silent(s, t, n))
  {
  }

  lemma SameFlow(s: Session, t: Session, n: nat)
    requires FlowInv(s) && t == s.(state := t.state)
    ensures FlowInv(t) && (PastPubrec(s, n) ==> PastPubrec(t, n))
  {
  }

  /** Replay keeps acknowledged messages acknowledged: they all sit inside the maximum. */
  lemma ReconnectKeeps(s: Session, outcome: ConnectOutcome, max: Option<nat>, n: nat)
    requires FlowInv(s)
    ensures Keeps(s, Reconnect(s, outcome, max), n)
  {
    var ms, t := s.msgsOut.inflight, ResetOut(s.msgsOut, false);
    var k := Min(|ms|, t.maximum);
    assert Reconnect(s, outcome, max).msgsOut == t;
    assert forall i :: 0 <= i < k ==> ms[i].state != Invalid && t.inflight[i] == Replay(ms[i]);
  }

  /** Incoming traffic leaves the outgoing queue alone. */
  lemma ReceivingKeeps(s: Session, t: Session, n: nat)
    requires FlowInv(s) && t.msgsOut == s.msgsOut && (t.sockOpen ==> s.sockOpen) && t.nextSerial >= s.nextSerial
    requires |s.log| <= |t.log| && t.log[..|s.log|] == s.log
    requires forall i :: |s.log| <= i < |t.log| ==> !t.log[i].PublishSent?
    ensures Keeps(s, t, n)
  {
  }

  lemma IncomingKeeps(s: Session, qos: nat, mid: nat, sendOk: bool, n: nat)
    requires FlowInv(s)
    ensures Keeps(s, LoopRcHandle(Incoming(s, qos, mid, sendOk)), n)
  {
    hide FlowInv, Keeps;
    ReceivingKeeps(s, LoopRcHandle(Incoming(s, qos, mid, sendOk)), n);
  }

  lemma PubrelKeeps(s: Session, body: AckBody, sendOk: bool, n: nat)
    requires FlowInv(s)
    ensures Keeps(s, LoopRcHandle(Pubrel(s, body, sendOk)), n)
  {
    hide FlowInv, Keeps, IndexOf;
    ReceivingKeeps(s, LoopRcHandle(Pubrel(s, body, sendOk)), n);
  }

  lemma SocketLostKeeps(s: Session, n: nat)
    requires FlowInv(s)
    ensures Keeps(s, s, n) && Keeps(s, s.(sockOpen := false), n)
  {
  }

  /** Every legal step keeps the flow-control invariant, and never re-sends a message past its PUBREC. */
  lemma StepKeeps(s: Session, step: Step, n: nat)
    requires FlowInv(s) && Legal(s, step)
    ensures Keeps(s, Next(s, step), n)
  {
    hide Publish, PubackComp, Pubrec, Incoming, Pubrel, Connack, Reconnect, LoopRcHandle, LegalAck, Follows, FlowInv, Keeps,
      IndexOf, LookupRc;
    SocketLostKeeps(s, n);
    if Next(s, step) != s && Next(s, step) != s.(sockOpen := false) {
      match step
      case DoPublish(qos, sends) => PublishKeeps(s, qos, sends, n);
      case OnPuback(body, sends) => AckKeeps(s, 1, body, sends, n);
      case OnPubcomp(body, sends) => AckKeeps(s, 2, body, sends, n);
      case OnPubrec(body, sends) => PubrecKeeps(s, body, sends, n);
      case OnPublish(qos, mid, sendOk) => IncomingKeeps(s, qos, mid, sendOk, n);
      case OnPubrel(body, sendOk) => PubrelKeeps(s, body, sendOk, n);
      case OnConnack(reason, max) => ConnackKeeps(s, reason, max, n);
      case DoReconnect(outcome, max) => ReconnectKeeps(s, outcome, max, n);
    }
  }

  // ----- Whole runs

  /**
   Section 4.3.3 of MQTT v5.0: once a message has passed its PUBREC, no later step of the run
   hands it to send__publish again, whatever disconnects, offline publishes, reconnects and
   CONNACKs the run contains.  The flow-control invariant holds at the end as well.
   */
  lemma {:induction false} NeverBackwards(s: Session, steps: seq<Step>, n: nat)
    requires FlowInv(s) && LegalRun(s, steps)
    ensures Keeps(s, Run(s, steps), n)
    decreases |steps|
  {
    hide Next, Legal, FlowInv;
    if steps == [] {
      SocketLostKeeps(s, n);
    } else {
      StepKeeps(s, steps[0], n);
      NeverBackwards(Next(s, steps[0]), steps[1..], n);
      Chain(s, Next(s, steps[0]), Run(s, steps), n);
    }
  }

  /** Runs compose. */
  lemma {:induction false} RunConcat(s: Session, a: seq<Step>, b: seq<Step>)
    ensures Run(s, a + b) == Run(Run(s, a), b)
    ensures LegalRun(s, a + b) <==> LegalRun(s, a) && LegalRun(Run(s, a), b)
    decreases |a|
  {
    hide Next, Legal;
    if a == [] {
      assert a + b == b;
    } else {
      assert (a + b)[0] == a[0] && (a + b)[1..] == a[1..] + b;
      RunConcat(Next(s, a[0]), a[1..], b);
    }
  }

  /** The QoS 2 promise for a new client: `before` is the run up to the PUBREC, `after` is everything later. */
  lemma AcknowledgedForGood(v5: bool, before: seq<Step>, after: seq<Step>, n: nat)
    requires LegalRun(Init(v5), before + after) && PastPubrec(Run(Init(v5), before), n)
    ensures var s, t := Run(Init(v5), before), Run(Init(v5), before + after);
            PastPubrec(t, n) && Silent(s, t, n)
  {
    hide Run, LegalRun, PastPubrec, Silent;
    RunConcat(Init(v5), before, after);
    NeverBackwards(Init(v5), before, n);
    NeverBackwards(Run(Init(v5), before), after, n);
  }

  /**
   Section 4.9 of MQTT v5.0: at every step boundary of a run from a new client, while
   connected, exactly `maximum - quota` messages are in flight, they are the oldest ones,
   and none is waiting while there is quota.
   */
  lemma ConnectedFlow(v5: bool, steps: seq<Step>)
    requires LegalRun(Init(v5), steps)
    ensures var s := Run(Init(v5), steps);
            var ms, k := s.msgsOut.inflight, InFlight(s.msgsOut);
            && 0 <= k <= s.msgsOut.maximum
            && (s.sockOpen ==>
                  && k <= |ms|
                  && (forall i :: 0 <= i < |ms| ==> (ms[i].state != Invalid <==> i < k))
                  && (s.msgsOut.quota > 0 ==> |ms| == k))
  {
    NeverBackwards(Init(v5), steps, 0);
  }

  // ----- The hypothesis on CONNACK is needed

  /** A CONNACK sets no acknowledged message back exactly when its maximum cuts none off. */
  lemma ConnackSetsBackIff(s: Session, reason: nat, max: nat)
    ensures var ms, ms' := s.msgsOut.inflight, Connack(s, reason, Some(max)).0.msgsOut.inflight;
            (forall i :: 0 <= i < |ms| && Acknowledged(ms[i]) ==> Acknowledged(ms'[i]))
            <==> (forall i :: 0 <= max <= i < |ms| ==> !Acknowledged(ms[i]))
  {
    var ms, ms' := s.msgsOut.inflight, Connack(s, reason, Some(max)).0.msgsOut.inflight;
    assert forall i :: 0 <= i < |ms| ==> Acknowledged(ms'[i]) == (i < max && Acknowledged(ms[i]));
  }

  /** The flow-control invariant survives a CONNACK exactly when no message waits for a raised maximum. */
  lemma ConnackFlowIff(s: Session, reason: nat, max: nat)
    requires FlowInv(s) && s.sockOpen
    ensures FlowInv(Connack(s, reason, Some(max)).0)
            <==> (max > s.msgsOut.maximum ==> |s.msgsOut.inflight| <= s.msgsOut.maximum)
  {
    var ms, d, t := s.msgsOut.inflight, s.msgsOut, Connack(s, reason, Some(max)).0;
    if max > d.maximum && |ms| > d.maximum {
      assert t.msgsOut.inflight[d.maximum].state == Invalid;
    } else {
      LoweredRecount(s, max);
      RetryKeepsStates(Reset(s.(msgsOut := d.(maximum := max)), true));
    }
  }

  lemma LoweredRecount(s: Session, max: nat)
    requires FlowInv(s) && s.sockOpen
    requires max > s.msgsOut.maximum ==> |s.msgsOut.inflight| <= s.msgsOut.maximum
    ensures FlowInv(Reset(s.(msgsOut := s.msgsOut.(maximum := max)), true))
  {
    var ms, t := s.msgsOut.inflight, ResetOut(s.msgsOut.(maximum := max), true);
    assert forall i :: 0 <= i < Min(|ms|, max) ==> t.inflight[i] == ms[i] && ms[i].state != Invalid;
  }

  lemma RetryKeepsStates(s: Session)
    requires FlowInv(s)
    ensures FlowInv(RetryCheck(s)) && FlowInv(RetryCheck(s.(state := Active)))
  {
    RetryKeeps(s, 0);
    RetryKeeps(s.(state := Active), 0);
  }
}
