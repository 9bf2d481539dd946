/**
 What happens to the queues when a connection is opened and accepted: which messages are sent
 again, and how.
 */
module Replay {
  import opened Basics
  import opened Delivery
  import C = Conservation
  import F = FlowControl

  /** The states that messages of the outgoing queue are in, in every run. */
  predicate Shaped(m: Message) {
    if m.qos == 1 then m.state in {Invalid, WaitForPuback, PublishQos1}
    else m.qos == 2 && m.state in {Invalid, WaitForPubrec, PublishQos2, WaitForPubcomp, ResendPubrel}
  }

  predicate AllShaped(ms: seq<Message>) {
    forall i :: 0 <= i < |ms| ==> Shaped(ms[i])
  }

  lemma {:induction false} ReleaseShapes(ms: seq<Message>, quota: int, sends: nat)
    requires AllShaped(ms)
    ensures AllShaped(Release(ms, quota, sends).inflight)
    decreases |ms|
  {
    if ms != [] && quota > 0 {
      ReleaseShapes(ms[1..], quota, sends);
      if sends > 0 {
        ReleaseShapes(ms[1..], quota - 1, sends - 1);
      }
    }
  }

  lemma AckShapes(s: Session, qos: nat, body: AckBody, sends: nat)
    requires AllShaped(s.msgsOut.inflight)
    ensures AllShaped(PubackComp(s, qos, body, sends).0.msgsOut.inflight)
  {
    hide Release, IndexOf;
    if s.state == Active && body.Ack? {
      var s1 := s.(msgsOut := Increment(s.msgsOut));
      var s2 := if LookupRc(s1.msgsOut.inflight, body.mid, qos) == Success then Complete(s1, body.mid) else s1;
      ReleaseShapes(s2.msgsOut.inflight, s2.msgsOut.quota, Capacity(s2, sends));
    }
  }

  lemma PubrecShapes(s: Session, body: AckBody, sends: nat)
    requires AllShaped(s.msgsOut.inflight)
    ensures AllShaped(Pubrec(s, body, sends).0.msgsOut.inflight)
  {
    hide Release, IndexOf;
    if s.state == Active && body.Ack? {
      var s1 := if LookupRc(s.msgsOut.inflight, body.mid, 2) == Success then Complete(s, body.mid) else s;
      var s2 := s1.(msgsOut := Increment(s1.msgsOut));
      ReleaseShapes(s2.msgsOut.inflight, s2.msgsOut.quota, Capacity(s2, sends));
    }
  }

  lemma PublishShapes(s: Session, qos: nat, sends: nat)
    requires AllShaped(s.msgsOut.inflight) && qos <= 2
    ensures AllShaped(Publish(s, qos, sends).msgsOut.inflight)
  {
    hide Release;
    if qos > 0 {
      var s1 := Enqueue(s, qos);
      ReleaseShapes(s1.msgsOut.inflight, s1.msgsOut.quota, Capacity(s1, sends));
    }
  }

  lemma StepShapes(s: Session, step: Step)
    requires AllShaped(s.msgsOut.inflight)
    ensures AllShaped(Next(s, step).msgsOut.inflight)
  {
    hide Publish, PubackComp, Pubrec, IndexOf, OnlyQos2, RetryLog;
    match step
    case DoPublish(qos, sends) => if qos <= 2 { PublishShapes(s, qos, sends); }
    case OnPuback(body, sends) => AckShapes(s, 1, body, sends);
    case OnPubcomp(body, sends) => AckShapes(s, 2, body, sends);
    case OnPubrec(body, sends) => PubrecShapes(s, body, sends);
    case _ =>
  }

  lemma {:induction false} RunShapes(s: Session, steps: seq<Step>)
    requires AllShaped(s.msgsOut.inflight)
    ensures AllShaped(Run(s, steps).msgsOut.inflight)
    decreases |steps|
  {
    hide Next, AllShaped;
    if steps != [] {
      StepShapes(s, steps[0]);
      RunShapes(Next(s, steps[0]), steps[1..]);
    }
  }

  // ----- The entries that replay adds

  /** A QoS 2 message that has not been sent is not sent by the replay either. */
  predicate Waits(m: Message) {
    m.qos == 2 && m.state == Invalid
  }

  /** PUBREL for a QoS 2 message past its PUBREC, otherwise the PUBLISH again, marked as a duplicate. */
  function Again(m: Message): Event {
    if m.qos == 2 && m.state in {WaitForPubcomp, ResendPubrel} then PubrelSent(m.mid) else PublishSent(m.serial, true, true)
  }

  function AllAgain(ms: seq<Message>): seq<Event> {
    if ms == [] then [] else (if Waits(ms[0]) then [] else [Again(ms[0])]) + AllAgain(ms[1..])
  }

  /** The messages once the connection has been opened, and once it has been accepted. */
  predicate Reopened(ms: seq<Message>, ms': seq<Message>, max: nat) {
    |ms'| == |ms| && forall i :: 0 <= i < |ms| ==>
      ms'[i] == ms[i].(state :=
        if i >= max || Waits(ms[i]) then Invalid
        else if ms[i].qos == 1 then PublishQos1
        else if ms[i].state in {WaitForPubcomp, ResendPubrel} then ResendPubrel
        else PublishQos2)
  }

  lemma OpeningReopens(s: Session, receiveMaximum: Option<nat>)
    requires AllShaped(s.msgsOut.inflight)
    ensures var d, t := s.msgsOut, Next(s, DoReconnect(Opened, receiveMaximum));
            && t.sockOpen && t.state == Connected && t.log == s.log
            && Reopened(d.inflight, t.msgsOut.inflight, d.maximum)
            && t.msgsOut.maximum == d.maximum && t.msgsOut.queueLen == |d.inflight|
            && t.msgsOut.quota == (if |d.inflight| < d.maximum then d.maximum - |d.inflight| else 0)
  {
    hide OnlyQos2;
  }

  lemma {:induction false} RetrySends(ms: seq<Message>, ms': seq<Message>, max: nat)
    requires AllShaped(ms) && Reopened(ms, ms', max)
    ensures RetryLog(ms') == AllAgain(ms[..Min(|ms|, max)])
    ensures forall i :: 0 <= i < |ms| ==> RetryAll(ms')[i] == if i < max && !Waits(ms[i]) then ms'[i].(dup := true) else ms'[i]
    decreases |ms|
  {
    if ms != [] {
      var n := Min(|ms|, max);
      var rest := if max > 0 then max - 1 else 0;
      assert ms'[0] == ms[0].(state := ms'[0].state);
      RetrySends(ms[1..], ms'[1..], rest);
      forall i | 0 < i < |ms| ensures RetryAll(ms')[i] == if i < max && !Waits(ms[i]) then ms'[i].(dup := true) else ms'[i] {
        assert ms'[1..][i - 1] == ms'[i];
      }
      if max > 0 {
        assert ms[..n][1..] == ms[1..][..Min(|ms| - 1, rest)];
      } else {
        assert ms[1..][..0] == [] && ms[..0] == [];
      }
    }
  }

  lemma AcceptingSends(s: Session)
    requires s.sockOpen && s.state == Connected
    requires forall i :: s.msgsOut.maximum <= i < |s.msgsOut.inflight| ==> s.msgsOut.inflight[i].state == Invalid
    ensures var t := Next(s, OnConnack(0, None));
            && t.sockOpen && t.state == Active && t.log == s.log + RetryLog(s.msgsOut.inflight)
            && t.msgsOut.inflight == RetryAll(s.msgsOut.inflight) && t.msgsOut.maximum == s.msgsOut.maximum
            && t.msgsOut.quota == s.msgsOut.maximum - Min(|s.msgsOut.inflight|, s.msgsOut.maximum)
  {
    hide OnlyQos2, RetryLog;
    assert ResetOut(s.msgsOut, true).inflight == s.msgsOut.inflight;
  }

  /**
   After any run, a reconnect and its CONNACK send every message below the maximum again,
   in queue order and marked as a duplicate, except QoS 2 messages that have never been sent:
   PUBREL for those past their PUBREC, PUBLISH for the others.  The messages beyond wait.
   */
  lemma ReplaySendsAgain(v5: bool, steps: seq<Step>, receiveMaximum: Option<nat>)
    ensures var s := Run(Init(v5), steps);
            var t := Next(Next(s, DoReconnect(Opened, receiveMaximum)), OnConnack(0, None));
            var ms, ms', max := s.msgsOut.inflight, t.msgsOut.inflight, s.msgsOut.maximum;
            && t.sockOpen && t.state == Active
            && t.log == s.log + AllAgain(ms[..Min(|ms|, max)])
            && |ms'| == |ms| && forall i :: 0 <= i < |ms| ==>
                 if i >= max || Waits(ms[i]) then ms'[i] == ms[i].(state := Invalid)
                 else
                   && ms'[i].dup && ms'[i].serial == ms[i].serial && ms'[i].mid == ms[i].mid && ms'[i].qos == ms[i].qos
                   && ms'[i].state == if ms[i].qos == 1 then PublishQos1
                                      else if ms[i].state in {WaitForPubcomp, ResendPubrel} then ResendPubrel
                                      else PublishQos2
  {
    hide Run, Next, RetryLog, RetryAll;
    var s := Run(Init(v5), steps);
    RunShapes(Init(v5), steps);
    OpeningReopens(s, receiveMaximum);
    var s1 := Next(s, DoReconnect(Opened, receiveMaximum));
    RetrySends(s.msgsOut.inflight, s1.msgsOut.inflight, s.msgsOut.maximum);
    AcceptingSends(s1);
  }

  lemma {:induction false} AgainLength(ms: seq<Message>)
    ensures |AllAgain(ms)| <= |ms|
    ensures |AllAgain(ms)| == |ms| <==> forall i :: 0 <= i < |ms| ==> !Waits(ms[i])
    decreases |ms|
  {
    if ms != [] {
      AgainLength(ms[1..]);
      assert forall i :: 1 <= i < |ms| ==> ms[i] == ms[1..][i - 1];
    }
  }

  lemma {:induction false} AgainInOrder(ms: seq<Message>)
    requires forall i :: 0 <= i < |ms| ==> !Waits(ms[i])
    ensures |AllAgain(ms)| == |ms| && forall i :: 0 <= i < |ms| ==> AllAgain(ms)[i] == Again(ms[i])
    decreases |ms|
  {
    if ms != [] {
      AgainInOrder(ms[1..]);
    }
  }

  /** One entry for each message below the maximum: exactly when none of them is a QoS 2 message still waiting. */
  lemma OneEntryEachIff(v5: bool, steps: seq<Step>, receiveMaximum: Option<nat>)
    ensures var s := Run(Init(v5), steps);
            var t := Next(Next(s, DoReconnect(Opened, receiveMaximum)), OnConnack(0, None));
            var ms, n := s.msgsOut.inflight, Min(|s.msgsOut.inflight|, s.msgsOut.maximum);
            |t.log| == |s.log| + n <==> forall i :: 0 <= i < n ==> !Waits(ms[i])
  {
    hide Run, Next;
    ReplaySendsAgain(v5, steps, receiveMaximum);
    var s := Run(Init(v5), steps);
    AgainLength(s.msgsOut.inflight[..Min(|s.msgsOut.inflight|, s.msgsOut.maximum)]);
  }

  /** In the runs of `FlowControl` no such message waits: one entry for each, in queue order. */
  lemma LegalReplay(v5: bool, steps: seq<Step>, receiveMaximum: Option<nat>)
    requires F.LegalRun(Init(v5), steps)
    ensures var s := Run(Init(v5), steps);
            var t := Next(Next(s, DoReconnect(Opened, receiveMaximum)), OnConnack(0, None));
            var ms, n := s.msgsOut.inflight, Min(|s.msgsOut.inflight|, s.msgsOut.maximum);
            && |t.log| == |s.log| + n && t.log[..|s.log|] == s.log
            && forall i :: 0 <= i < n ==>
                 && t.log[|s.log| + i] == Again(ms[i])
                 && t.msgsOut.inflight[i].dup
  {
    hide Run, Next, F.LegalRun;
    F.NeverBackwards(Init(v5), steps, 0);
    ReplaySendsAgain(v5, steps, receiveMaximum);
    var s := Run(Init(v5), steps);
    var ms, n := s.msgsOut.inflight, Min(|s.msgsOut.inflight|, s.msgsOut.maximum);
    NoneWaits(s);
    AgainInOrder(ms[..n]);
  }

  lemma NoneWaits(s: Session)
    requires F.FlowInv(s)
    ensures forall i :: 0 <= i < |s.msgsOut.inflight| && i < s.msgsOut.maximum ==> !Waits(s.msgsOut.inflight[i])
  {
  }

  // ----- The other outcomes, and the incoming queue

  /**
   CONNACK with a reason other than 0 replays nothing and costs the connection; the return
   code tells a refusal from nonsense.
   */
  lemma ConnackRefused(s: Session, reason: nat, max: Option<nat>)
    requires s.sockOpen && reason != 0
    ensures var t := Next(s, OnConnack(reason, max));
            && !t.sockOpen && t.state == s.state && t.log == s.log
            && Connack(s, reason, max).1 == (if reason <= 5 then ConnRefused else Protocol)
  {
    hide OnlyQos2;
  }

  lemma NotOpened(s: Session, outcome: ConnectOutcome, max: Option<nat>)
    requires outcome != Opened
    ensures var t := Next(s, DoReconnect(outcome, max));
            && !t.sockOpen && t.log == s.log && t.state == (if outcome == Refused then ConnectPending else New)
            && t.msgsOut == Next(s, DoReconnect(Opened, max)).msgsOut
  {
    hide OnlyQos2;
  }

  /** A reconnect keeps the pending incoming messages, in order, and sets the receive quota. */
  lemma PendingKept(s: Session, outcome: ConnectOutcome, max: Option<nat>)
    requires C.Queues(s)
    ensures var d, d' := s.msgsIn, Next(s, DoReconnect(outcome, max)).msgsIn;
            && d'.inflight == d.inflight && d'.queueLen == |d.inflight|
            && (if s.v5 && outcome != Refused && max.Some? then d'.maximum == d'.quota == max.value
                else d'.maximum == d.maximum && d'.quota == (if |d.inflight| < d.maximum then d.maximum - |d.inflight| else 0))
  {
    hide OnlyQos2;
    C.OnlyQos2IsIdentity(s.msgsIn.inflight);
  }

  /** So does the recount at CONNACK, which sets both maxima and quotas. */
  lemma ConnackRecounts(s: Session, reason: nat, max: Option<nat>)
    requires C.Queues(s) && s.sockOpen
    ensures var t, m := Next(s, OnConnack(reason, max)), if max.Some? then max.value else s.msgsOut.maximum;
            && t.msgsIn == MsgData(s.msgsIn.inflight, |s.msgsIn.inflight|,
                                   if |s.msgsIn.inflight| < s.msgsIn.maximum then s.msgsIn.maximum - |s.msgsIn.inflight| else 0,
                                   s.msgsIn.maximum)
            && t.msgsOut.maximum == m && t.msgsOut.queueLen == |s.msgsOut.inflight|
            && t.msgsOut.quota == (if |s.msgsOut.inflight| < m then m - |s.msgsOut.inflight| else 0)
            && (reason == 0 && s.state != Disconnecting ==> t.sockOpen && t.state == Active)
  {
    hide OnlyQos2, RetryLog;
    C.OnlyQos2IsIdentity(s.msgsIn.inflight);
  }
}
