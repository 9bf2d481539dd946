/**
 No message is lost or reported twice, in either direction, for any behaviour of the
 broker and the network: the steps of a run are not restricted in any way.
 */
module Conservation {
  import opened Basics
  import opened Delivery

  datatype Kind = IsQueued | IsCompleted | IsStored | IsDelivered | IsDropped

  /** The event is of this kind and about message `n`; only QoS 2 deliveries count. */
  predicate About(e: Event, kind: Kind, n: nat) {
    match kind
    case IsQueued => e == Queued(n)
    case IsCompleted => e == Completed(n)
    case IsStored => e == Stored(n)
    case IsDelivered => e == Delivered(n, 2)
    case IsDropped => e == Dropped(n)
  }

  /** How often the log mentions message `n` in this way. */
  function Tally(log: seq<Event>, kind: Kind, n: nat): nat {
    if log == [] then 0
    else Tally(log[..|log| - 1], kind, n) + if About(log[|log| - 1], kind, n) then 1 else 0
  }

  /** How often message `n` is in the list. */
  function Copies(ms: seq<Message>, n: nat): nat {
    if ms == [] then 0
    else Copies(ms[..|ms| - 1], n) + if ms[|ms| - 1].serial == n then 1 else 0
  }

  /** Everything that went into a queue is accounted for exactly once. */
  predicate Balanced(log: seq<Event>, out: seq<Message>, in': seq<Message>, next: nat, n: nat) {
    && Tally(log, IsQueued, n) == Tally(log, IsCompleted, n) + Copies(out, n)
    && Tally(log, IsStored, n) == Tally(log, IsDelivered, n) + Tally(log, IsDropped, n) + Copies(in', n)
    && Tally(log, IsQueued, n) <= (if n < next then 1 else 0)
    && Tally(log, IsStored, n) <= (if n < next then 1 else 0)
  }

  predicate Conserved(s: Session, n: nat) {
    Balanced(s.log, s.msgsOut.inflight, s.msgsIn.inflight, s.nextSerial, n)
  }

  predicate Increasing(ms: seq<Message>, bound: nat) {
    && (forall i, j :: 0 <= i < j < |ms| ==> ms[i].serial < ms[j].serial)
    && (forall i :: 0 <= i < |ms| ==> ms[i].serial < bound)
  }

  /** Queue order and queue_len; msgs_in never holds anything but QoS 2 messages. */
  predicate Queues(s: Session) {
    && Increasing(s.msgsOut.inflight, s.nextSerial)
    && Increasing(s.msgsIn.inflight, s.nextSerial)
    && (forall i :: 0 <= i < |s.msgsIn.inflight| ==> s.msgsIn.inflight[i].qos == 2)
    && s.msgsOut.queueLen == |s.msgsOut.inflight|
    && s.msgsIn.queueLen == |s.msgsIn.inflight|
  }

  // ----- Tallies

  lemma TallyOne(log: seq<Event>, e: Event, n: nat)
    ensures forall kind :: Tally(log + [e], kind, n) == Tally(log, kind, n) + if About(e, kind, n) then 1 else 0
  {
    assert (log + [e])[..|log|] == log;
  }

  /** Calls of send functions and deliveries below QoS 2: they move no queued message. */
  predicate MovesNothing(log: seq<Event>) {
    forall i :: 0 <= i < |log| ==>
      match log[i]
      case Queued(_) => false
      case Completed(_) => false
      case Stored(_) => false
      case Delivered(_, qos) => qos != 2
      case Dropped(_) => false
      case _ => true
  }

  lemma {:induction false} TallySends(log: seq<Event>, sent: seq<Event>, n: nat)
    requires MovesNothing(sent)
    ensures forall kind :: Tally(log + sent, kind, n) == Tally(log, kind, n)
    decreases |sent|
  {
    if sent == [] {
      assert log + sent == log;
    } else {
      var front := sent[..|sent| - 1];
      TallySends(log, front, n);
      TallyOne(log + front, sent[|front|], n);
      assert log + front + [sent[|front|]] == log + sent;
    }
  }

  lemma CopiesAppended(ms: seq<Message>, m: Message, n: nat)
    ensures Copies(ms + [m], n) == Copies(ms, n) + if m.serial == n then 1 else 0
  {
    assert (ms + [m])[..|ms|] == ms;
  }

  lemma {:induction false} CopiesRemoved(ms: seq<Message>, i: nat, n: nat)
    requires i < |ms|
    ensures Copies(RemoveAt(ms, i), n) == Copies(ms, n) - if ms[i].serial == n then 1 else 0
    decreases |ms|
  {
    var last := |ms| - 1;
    if i == last {
      assert RemoveAt(ms, i) == ms[..last];
    } else {
      assert RemoveAt(ms, i) == RemoveAt(ms[..last], i) + [ms[last]];
      CopiesAppended(RemoveAt(ms[..last], i), ms[last], n);
      CopiesRemoved(ms[..last], i, n);
    }
  }

  lemma IncreasingRemoved(ms: seq<Message>, i: nat, bound: nat)
    requires i < |ms| && Increasing(ms, bound)
    ensures Increasing(RemoveAt(ms, i), bound)
  {
  }

  predicate SameSerials(a: seq<Message>, b: seq<Message>) {
    |a| == |b| && forall i :: 0 <= i < |a| ==> a[i].serial == b[i].serial
  }

  lemma {:induction false} CopiesSame(a: seq<Message>, b: seq<Message>, n: nat)
    requires SameSerials(a, b)
    ensures Copies(a, n) == Copies(b, n)
    decreases |a|
  {
    if a != [] {
      CopiesSame(a[..|a| - 1], b[..|b| - 1], n);
    }
  }

  // ----- Steps

  /** The queues hold the same messages and the log has gained nothing that moves one. */
  predicate SameMessages(s: Session, t: Session, sent: seq<Event>) {
    && t.log == s.log + sent && MovesNothing(sent)
    && SameSerials(s.msgsOut.inflight, t.msgsOut.inflight)
    && t.msgsIn.inflight == s.msgsIn.inflight
    && t.nextSerial >= s.nextSerial
  }

  lemma SameMessagesConserve(s: Session, t: Session, sent: seq<Event>, n: nat)
    requires Conserved(s, n) && SameMessages(s, t, sent)
    ensures Conserved(t, n)
  {
    TallySends(s.log, sent, n);
    CopiesSame(s.msgsOut.inflight, t.msgsOut.inflight, n);
  }

  /** Quotas, connection state and socket do not matter here. */
  predicate SameQueues(s: Session, t: Session) {
    && t.msgsOut.inflight == s.msgsOut.inflight && t.msgsOut.queueLen == s.msgsOut.queueLen
    && t.msgsIn.inflight == s.msgsIn.inflight && t.msgsIn.queueLen == s.msgsIn.queueLen
    && t.log == s.log && t.nextSerial == s.nextSerial
  }

  lemma SameQueuesConserve(s: Session, t: Session, n: nat)
    requires Conserved(s, n) && Queues(s) && SameQueues(s, t)
    ensures Conserved(t, n) && Queues(t)
  {
    hide Increasing, Tally, Copies;
  }

  lemma {:induction false} ReleaseSerials(ms: seq<Message>, quota: int, sends: nat)
    ensures var r := Release(ms, quota, sends); MovesNothing(r.log) && SameSerials(ms, r.inflight)
    decreases |ms|
  {
    if ms != [] && quota > 0 {
      ReleaseSerials(ms[1..], quota, sends);
      if sends > 0 {
        ReleaseSerials(ms[1..], quota - 1, sends - 1);
      }
    }
  }

  lemma ReleaseConserves(s: Session, sends: nat, n: nat)
    requires Conserved(s, n) && Queues(s)
    ensures Conserved(ReleaseOut(s, sends), n) && Queues(ReleaseOut(s, sends))
  {
    hide Release, Tally, Copies;
    var r := Release(s.msgsOut.inflight, s.msgsOut.quota, Capacity(s, sends));
    ReleaseSerials(s.msgsOut.inflight, s.msgsOut.quota, Capacity(s, sends));
    SameMessagesConserve(s, ReleaseOut(s, sends), r.log, n);
  }

  lemma EnqueueConserves(s: Session, qos: nat, n: nat)
    requires Conserved(s, n) && Queues(s)
    ensures Conserved(Enqueue(s, qos), n) && Queues(Enqueue(s, qos))
  {
    hide Tally, Copies;
    TallyOne(s.log, Queued(s.nextSerial), n);
    CopiesAppended(s.msgsOut.inflight, Message(s.nextSerial, NextMid(s.lastMid), qos, Invalid, false), n);
  }

  /** Taking message `i` out of a queue and saying so keeps the balance. */
  lemma RemovalBalances(log: seq<Event>, ms: seq<Message>, i: nat, e: Event, n: nat)
    requires i < |ms|
    ensures Copies(RemoveAt(ms, i), n) == Copies(ms, n) - if ms[i].serial == n then 1 else 0
    ensures forall kind :: Tally(log + [e], kind, n) == Tally(log, kind, n) + if About(e, kind, n) then 1 else 0
  {
    CopiesRemoved(ms, i, n);
    TallyOne(log, e, n);
  }

  lemma CompleteConserves(s: Session, mid: nat, n: nat)
    requires Conserved(s, n) && Queues(s) && IndexOf(s.msgsOut.inflight, mid) < |s.msgsOut.inflight|
    ensures Conserved(Complete(s, mid), n) && Queues(Complete(s, mid))
  {
    hide IndexOf, Tally, Copies;
    var ms, i := s.msgsOut.inflight, IndexOf(s.msgsOut.inflight, mid);
    var t := Complete(s, mid);
    assert Queues(t) by { IncreasingRemoved(ms, i, s.nextSerial); }
    assert Conserved(t, n) by { RemovalBalances(s.log, ms, i, Completed(ms[i].serial), n); }
  }

  lemma AckConserves(s: Session, qos: nat, body: AckBody, sends: nat, n: nat)
    requires Conserved(s, n) && Queues(s)
    ensures var t := PubackComp(s, qos, body, sends).0; Conserved(t, n) && Queues(t)
  {
    hide Conserved, Queues, IndexOf, Complete, ReleaseOut;
    if s.state == Active && !body.BadFlags? {
      var s1 := s.(msgsOut := Increment(s.msgsOut));
      SameQueuesConserve(s, s1, n);
      if body.Ack? {
        if LookupRc(s1.msgsOut.inflight, body.mid, qos) == Success {
          CompleteConserves(s1, body.mid, n);
          ReleaseConserves(Complete(s1, body.mid), sends, n);
        } else {
          ReleaseConserves(s1, sends, n);
        }
      }
    }
  }

  lemma RejectedConserves(s: Session, mid: nat, sends: nat, n: nat)
    requires Conserved(s, n) && Queues(s)
    ensures var s1 := if LookupRc(s.msgsOut.inflight, mid, 2) == Success then Complete(s, mid) else s;
            var t := ReleaseOut(s1.(msgsOut := Increment(s1.msgsOut)), sends);
            Conserved(t, n) && Queues(t)
  {
    hide Conserved, Queues, IndexOf, Complete, ReleaseOut;
    var s1 := if LookupRc(s.msgsOut.inflight, mid, 2) == Success then Complete(s, mid) else s;
    if LookupRc(s.msgsOut.inflight, mid, 2) == Success { CompleteConserves(s, mid, n); }
    var s2 := s1.(msgsOut := Increment(s1.msgsOut));
    SameQueuesConserve(s1, s2, n);
    ReleaseConserves(s2, sends, n);
  }

  lemma PubrecConserves(s: Session, body: AckBody, sends: nat, n: nat)
    requires Conserved(s, n) && Queues(s)
    ensures var t := Pubrec(s, body, sends).0; Conserved(t, n) && Queues(t)
  {
    hide Balanced, IndexOf, Complete, ReleaseOut;
    if s.state == Active && body.Ack? {
      if Rejects(s.v5, body.reason) {
        RejectedConserves(s, body.mid, sends, n);
      } else if LookupRc(s.msgsOut.inflight, body.mid, 2) != Protocol {
        SameMessagesConserve(s, Pubrec(s, body, sends).0, [PubrelSent(body.mid)], n);
      }
    }
  }

  lemma StoreConserves(s: Session, d: MsgData, m: Message, n: nat)
    requires Conserved(s, n) && Queues(s)
    requires m.serial == s.nextSerial && m.qos == 2
    requires d.inflight == s.msgsIn.inflight + [m] && d.queueLen == s.msgsIn.queueLen + 1
    ensures var t := s.(msgsIn := d, nextSerial := s.nextSerial + 1, log := s.log + [Stored(s.nextSerial)]);
            Conserved(t, n) && Queues(t)
  {
    hide Tally, Copies;
    TallyOne(s.log, Stored(s.nextSerial), n);
    CopiesAppended(s.msgsIn.inflight, m, n);
  }

  lemma IncomingConserves(s: Session, qos: nat, mid: nat, sendOk: bool, n: nat)
    requires Conserved(s, n) && Queues(s)
    ensures var t := Incoming(s, qos, mid, sendOk).0; Conserved(t, n) && Queues(t)
  {
    hide Balanced;
    var t := Incoming(s, qos, mid, sendOk).0;
    if t != s && qos < 2 {
      SameMessagesConserve(s, t, t.log[|s.log|..], n);
    } else if t != s {
      var s1 := s.(log := s.log + [PubrecSent(mid)]);
      SameMessagesConserve(s, s1, [PubrecSent(mid)], n);
      StoreConserves(s1, t.msgsIn, Message(s.nextSerial, mid, 2, WaitForPubrel, false), n);
      assert t.log == s1.log + [Stored(s.nextSerial)];
    }
  }

  /** A pending message leaves msgs_in, delivered or dropped. */
  lemma ReleaseStoredConserves(s: Session, mid: nat, e: Event, n: nat)
    requires Conserved(s, n) && Queues(s) && IndexOf(s.msgsIn.inflight, mid) < |s.msgsIn.inflight|
    requires var serial := s.msgsIn.inflight[IndexOf(s.msgsIn.inflight, mid)].serial;
             e == Delivered(serial, 2) || e == Dropped(serial)
    ensures var t := s.(msgsIn := RemoveMid(s.msgsIn, mid), log := s.log + [e]); Conserved(t, n) && Queues(t)
  {
    hide IndexOf, Tally, Copies;
    var ms, i := s.msgsIn.inflight, IndexOf(s.msgsIn.inflight, mid);
    var t := s.(msgsIn := RemoveMid(s.msgsIn, mid), log := s.log + [e]);
    assert Queues(t) by { IncreasingRemoved(ms, i, s.nextSerial); }
    assert Conserved(t, n) by { RemovalBalances(s.log, ms, i, e, n); }
  }

  lemma PubrelConserves(s: Session, body: AckBody, sendOk: bool, n: nat)
    requires Conserved(s, n) && Queues(s)
    ensures var t := Pubrel(s, body, sendOk).0; Conserved(t, n) && Queues(t)
  {
    hide Balanced, IndexOf, RemoveMid;
    if s.state == Active && body.Ack? {
      var comp := PubcompSent(body.mid, sendOk);
      var s1 := s.(msgsIn := Increment(s.msgsIn), log := s.log + [comp]);
      SameMessagesConserve(s, s1, [comp], n);
      if LookupRc(s.msgsIn.inflight, body.mid, 2) == Success {
        var serial := s.msgsIn.inflight[IndexOf(s.msgsIn.inflight, body.mid)].serial;
        ReleaseStoredConserves(s1, body.mid, if sendOk then Delivered(serial, 2) else Dropped(serial), n);
      }
    }
  }

  lemma {:induction false} OnlyQos2IsIdentity(ms: seq<Message>)
    requires forall i :: 0 <= i < |ms| ==> ms[i].qos == 2
    ensures OnlyQos2(ms) == ms
    decreases |ms|
  {
    if ms != [] {
      OnlyQos2IsIdentity(ms[1..]);
    }
  }

  lemma ResetConserves(s: Session, only: bool, n: nat)
    requires Conserved(s, n) && Queues(s)
    ensures Conserved(Reset(s, only), n) && Queues(Reset(s, only))
  {
    OnlyQos2IsIdentity(s.msgsIn.inflight);
    SameMessagesConserve(s, Reset(s, only), [], n);
  }

  lemma {:induction false} RetryLogSends(ms: seq<Message>)
    ensures MovesNothing(RetryLog(ms))
    decreases |ms|
  {
    if ms != [] {
      RetryLogSends(ms[1..]);
    }
  }

  lemma RetryConserves(s: Session, n: nat)
    requires Conserved(s, n) && Queues(s)
    ensures Conserved(RetryCheck(s), n) && Queues(RetryCheck(s))
  {
    RetryLogSends(s.msgsOut.inflight);
    SameMessagesConserve(s, RetryCheck(s), RetryLog(s.msgsOut.inflight), n);
  }

  lemma ConnackConserves(s: Session, reason: nat, max: Option<nat>, n: nat)
    requires Conserved(s, n) && Queues(s)
    ensures var t := Connack(s, reason, max).0; Conserved(t, n) && Queues(t)
  {
    hide Conserved, Queues, Reset, RetryCheck;
    var s0 := if max.Some? then s.(msgsOut := s.msgsOut.(maximum := max.value)) else s;
    SameQueuesConserve(s, s0, n);
    ResetConserves(s0, true, n);
    var s1 := Reset(s0, true);
    SameQueuesConserve(s1, s1.(state := Active), n);
    RetryConserves(if s1.state == Disconnecting then s1 else s1.(state := Active), n);
  }

  lemma PublishConserves(s: Session, qos: nat, sends: nat, n: nat)
    requires Conserved(s, n) && Queues(s)
    ensures var t := Publish(s, qos, sends); Conserved(t, n) && Queues(t)
  {
    hide Balanced, Enqueue, ReleaseOut;
    if qos == 0 {
      SameMessagesConserve(s, Publish(s, 0, sends), [PublishSent(s.nextSerial, false, Capacity(s, sends) > 0)], n);
    } else {
      EnqueueConserves(s, qos, n);
      ReleaseConserves(Enqueue(s, qos), sends, n);
    }
  }

  lemma ReconnectConserves(s: Session, outcome: ConnectOutcome, max: Option<nat>, n: nat)
    requires Conserved(s, n) && Queues(s)
    ensures var t := Reconnect(s, outcome, max); Conserved(t, n) && Queues(t)
  {
    hide Conserved, Queues, Reset;
    ResetConserves(s, false, n);
    SameQueuesConserve(Reset(s, false), Reconnect(s, outcome, max), n);
  }

  /** Losing the connection after an error moves no message. */
  lemma ClosingConserves(r: (Session, Rc), n: nat)
    requires Conserved(r.0, n) && Queues(r.0)
    ensures Conserved(LoopRcHandle(r), n) && Queues(LoopRcHandle(r))
  {
    SameQueuesConserve(r.0, LoopRcHandle(r), n);
  }

  lemma HandlerConserves(s: Session, step: Step, n: nat)
    requires Conserved(s, n) && Queues(s) && s.sockOpen
    requires !step.DoPublish? && !step.SocketLost? && !step.DoReconnect?
    ensures Conserved(Next(s, step), n) && Queues(Next(s, step))
  {
    hide Conserved, Queues, PubackComp, Pubrec, Incoming, Pubrel, Connack, LoopRcHandle;
    match step
    case OnPuback(body, sends) =>
      AckConserves(s, 1, body, sends, n);
      ClosingConserves(PubackComp(s, 1, body, sends), n);
    case OnPubcomp(body, sends) =>
      AckConserves(s, 2, body, sends, n);
      ClosingConserves(PubackComp(s, 2, body, sends), n);
    case OnPubrec(body, sends) =>
      PubrecConserves(s, body, sends, n);
      ClosingConserves(Pubrec(s, body, sends), n);
    case OnPublish(qos, mid, sendOk) =>
      IncomingConserves(s, qos, mid, sendOk, n);
      ClosingConserves(Incoming(s, qos, mid, sendOk), n);
    case OnPubrel(body, sendOk) =>
      PubrelConserves(s, body, sendOk, n);
      ClosingConserves(Pubrel(s, body, sendOk), n);
    case OnConnack(reason, max) =>
      ConnackConserves(s, reason, max, n);
      ClosingConserves(Connack(s, reason, max), n);
  }

  lemma StepConserves(s: Session, step: Step, n: nat)
    requires Conserved(s, n) && Queues(s)
    ensures Conserved(Next(s, step), n) && Queues(Next(s, step))
  {
    hide Conserved, Queues, Publish, PubackComp, Pubrec, Incoming, Pubrel, Connack, Reconnect, LoopRcHandle;
    match step
    case DoPublish(qos, sends) => PublishConserves(s, qos, sends, n);
    case SocketLost => SameQueuesConserve(s, Next(s, step), n);
    case DoReconnect(outcome, max) => ReconnectConserves(s, outcome, max, n);
    case _ =>
      if s.sockOpen {
        HandlerConserves(s, step, n);
      }
  }

  lemma {:induction false} RunConserves(s: Session, steps: seq<Step>, n: nat)
    requires Conserved(s, n) && Queues(s)
    ensures Conserved(Run(s, steps), n) && Queues(Run(s, steps))
    decreases |steps|
  {
    hide Conserved, Queues, Next;
    if steps != [] {
      StepConserves(s, steps[0], n);
      RunConserves(Next(s, steps[0]), steps[1..], n);
    }
  }

  lemma NothingYet(v5: bool)
    ensures Conserved(Init(v5), 0) && Queues(Init(v5))
  {
    var s := Init(v5);
    assert Queues(s);
    EmptyBalanced(s.log, s.msgsOut.inflight, s.msgsIn.inflight, s.nextSerial);
  }

  lemma EmptyBalanced(log: seq<Event>, out: seq<Message>, in': seq<Message>, next: nat)
    requires log == [] && out == [] && in' == []
    ensures Balanced(log, out, in', next, 0)
  {
  }

  // ----- What a run from a new client guarantees

  /**
   Every message given to a QoS > 0 publish is still queued, in publish order, or was reported
   complete exactly once, never both; queue_len is the length of its list.
   */
  lemma OutgoingConserved(v5: bool, steps: seq<Step>, n: nat)
    ensures var s := Run(Init(v5), steps);
            && Tally(s.log, IsCompleted, n) + Copies(s.msgsOut.inflight, n) == Tally(s.log, IsQueued, n) <= 1
            && (forall i, j :: 0 <= i < j < |s.msgsOut.inflight| ==>
                  s.msgsOut.inflight[i].serial < s.msgsOut.inflight[j].serial)
            && s.msgsOut.queueLen == |s.msgsOut.inflight| && s.msgsIn.queueLen == |s.msgsIn.inflight|
  {
    RunConserves(Init(v5), steps, n);
  }

  /** An incoming QoS 2 message is pending, was delivered once, or was dropped with its PUBCOMP unsent. */
  lemma ReceiptsConserved(v5: bool, steps: seq<Step>, n: nat)
    ensures var s := Run(Init(v5), steps);
            Tally(s.log, IsDelivered, n) + Tally(s.log, IsDropped, n) + Copies(s.msgsIn.inflight, n)
            == Tally(s.log, IsStored, n) <= 1
  {
    RunConserves(Init(v5), steps, n);
  }

  // ----- Which message a PUBREL releases

  /** Position of the last pending message with this identifier. */
  predicate Newest(ms: seq<Message>, mid: nat, j: nat) {
    j < |ms| && ms[j].mid == mid && forall i :: j < i < |ms| ==> ms[i].mid != mid
  }

  /**
   PUBREL delivers the message last stored for its identifier exactly when that message is
   the only one pending for it: handle__publish does not look for an earlier one.
   */
  lemma PubrelDeliversNewestIff(s: Session, mid: nat, reason: nat, j: nat)
    requires Queues(s) && s.state == Active && Newest(s.msgsIn.inflight, mid, j)
    ensures Pubrel(s, Ack(mid, reason), true).0.log[|s.log| + 1..] == [Delivered(s.msgsIn.inflight[j].serial, 2)]
            <==> forall i :: 0 <= i < j ==> s.msgsIn.inflight[i].mid != mid
  {
    var ms := s.msgsIn.inflight;
    var i := IndexOf(ms, mid);
    var event := Delivered(ms[i].serial, 2);
    assert Pubrel(s, Ack(mid, reason), true).0.log == s.log + [PubcompSent(mid, true)] + [event];
    assert [event][0] == event;
  }
}
