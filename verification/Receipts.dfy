/**
 Which message a PUBREL hands over, in whole runs: handle__publish does not look for a
 pending message with the same identifier, so everything depends on the broker not reusing one.
 */
module Receipts {
  import opened Basics
  import opened Delivery
  import C = Conservation

  predicate DistinctPending(s: Session) {
    forall i, j :: 0 <= i < j < |s.msgsIn.inflight| ==> s.msgsIn.inflight[i].mid != s.msgsIn.inflight[j].mid
  }

  predicate Unused(s: Session, mid: nat) {
    forall i :: 0 <= i < |s.msgsIn.inflight| ==> s.msgsIn.inflight[i].mid != mid
  }

  /** An incoming PUBLISH that the client stores. */
  predicate Stores(s: Session, qos: nat, mid: nat) {
    s.sockOpen && s.state == Active && qos == 2 && mid != 0 && !(s.v5 && s.msgsIn.quota == 0)
  }

  predicate Fresh(s: Session, step: Step) {
    match step
    case OnPublish(qos, mid, _) => Stores(s, qos, mid) ==> Unused(s, mid)
    case _ => true
  }

  predicate FreshRun(s: Session, steps: seq<Step>)
    decreases |steps|
  {
    steps == [] || (Fresh(s, steps[0]) && FreshRun(Next(s, steps[0]), steps[1..]))
  }

  /** The pending messages after a step: as before, one more at the end, or one less. */
  lemma PendingAfter(s: Session, step: Step)
    requires C.Queues(s)
    ensures var ms, ms' := s.msgsIn.inflight, Next(s, step).msgsIn.inflight;
            match step
            case OnPublish(qos, mid, _) =>
              ms' == if Stores(s, qos, mid) then ms + [Message(s.nextSerial, mid, 2, WaitForPubrel, false)] else ms
            case OnPubrel(Ack(mid, _), _) =>
              ms' == if s.sockOpen && s.state == Active && LookupRc(ms, mid, 2) == Success then RemoveAt(ms, IndexOf(ms, mid))
                     else ms
            case _ => ms' == ms
  {
    hide Release, IndexOf, SetState, OnlyQos2, RetryLog;
    C.OnlyQos2IsIdentity(s.msgsIn.inflight);
  }

  /** Pending identifiers stay distinct exactly when the step does not store a message under a pending one. */
  lemma DistinctIff(s: Session, step: Step)
    requires C.Queues(s) && DistinctPending(s)
    ensures DistinctPending(Next(s, step)) <==> Fresh(s, step)
  {
    hide Next, IndexOf, Stores, C.Queues;
    PendingAfter(s, step);
    var ms, ms' := s.msgsIn.inflight, Next(s, step).msgsIn.inflight;
    match step
    case OnPublish(qos, mid, _) =>
      if Stores(s, qos, mid) {
        assert ms'[|ms|].mid == mid;
        assert forall i :: 0 <= i < |ms| ==> ms'[i] == ms[i];
      }
    case _ =>
  }

  lemma {:induction false} RunDistinct(s: Session, steps: seq<Step>)
    requires C.Conserved(s, 0) && C.Queues(s) && DistinctPending(s) && FreshRun(s, steps)
    ensures C.Queues(Run(s, steps)) && DistinctPending(Run(s, steps))
    decreases |steps|
  {
    hide Next, C.Queues, C.Conserved, DistinctPending, Fresh;
    if steps != [] {
      DistinctIff(s, steps[0]);
      C.StepConserves(s, steps[0], 0);
      RunDistinct(Next(s, steps[0]), steps[1..]);
    }
  }

  /** Message `n` is pending under this identifier. */
  predicate Pending(s: Session, mid: nat, n: nat) {
    exists i :: 0 <= i < |s.msgsIn.inflight| && s.msgsIn.inflight[i].mid == mid && s.msgsIn.inflight[i].serial == n
  }

  predicate Releases(step: Step, mid: nat) {
    step.OnPubrel? && step.body.Ack? && step.body.mid == mid
  }

  lemma StaysPending(s: Session, step: Step, mid: nat, n: nat)
    requires C.Queues(s) && Pending(s, mid, n) && !Releases(step, mid)
    ensures Pending(Next(s, step), mid, n)
  {
    hide Next, C.Queues;
    PendingAfter(s, step);
    var ms, ms' := s.msgsIn.inflight, Next(s, step).msgsIn.inflight;
    var i :| 0 <= i < |ms| && ms[i].mid == mid && ms[i].serial == n;
    match step
    case OnPubrel(Ack(other, _), _) =>
      var j := IndexOf(ms, other);
      if ms' != ms {
        assert ms'[if i < j then i else i - 1] == ms[i];
      } else {
        assert ms'[i] == ms[i];
      }
    case _ => assert ms'[i] == ms[i];
  }

  predicate NoRelease(steps: seq<Step>, mid: nat) {
    forall i :: 0 <= i < |steps| ==> !Releases(steps[i], mid)
  }

  lemma {:induction false} RunStaysPending(s: Session, steps: seq<Step>, mid: nat, n: nat)
    requires C.Conserved(s, 0) && C.Queues(s) && Pending(s, mid, n) && NoRelease(steps, mid)
    ensures Pending(Run(s, steps), mid, n)
    decreases |steps|
  {
    hide Next, C.Queues, C.Conserved, Pending, Releases;
    if steps != [] {
      StaysPending(s, steps[0], mid, n);
      C.StepConserves(s, steps[0], 0);
      assert forall i :: 0 <= i < |steps| - 1 ==> steps[1..][i] == steps[i + 1];
      RunStaysPending(Next(s, steps[0]), steps[1..], mid, n);
    }
  }

  /** A PUBREL for a pending message delivers that message and frees its identifier. */
  lemma PubrelDelivers(s: Session, mid: nat, n: nat, reason: nat)
    requires C.Queues(s) && DistinctPending(s) && Pending(s, mid, n) && s.sockOpen && s.state == Active
    ensures var t := Next(s, OnPubrel(Ack(mid, reason), true));
            t.log == s.log + [PubcompSent(mid, true)] + [Delivered(n, 2)] && Unused(t, mid)
  {
    var ms := s.msgsIn.inflight;
    var i :| 0 <= i < |ms| && ms[i].mid == mid && ms[i].serial == n;
    assert IndexOf(ms, mid) == i;
  }

  /** A PUBREL for an identifier that is not pending answers PUBCOMP and delivers nothing. */
  lemma PubrelDeliversNothing(s: Session, mid: nat, reason: nat)
    requires Unused(s, mid) && s.sockOpen && s.state == Active
    ensures Next(s, OnPubrel(Ack(mid, reason), true))
            == s.(msgsIn := Increment(s.msgsIn), log := s.log + [PubcompSent(mid, true)])
  {
    assert IndexOf(s.msgsIn.inflight, mid) == |s.msgsIn.inflight|;
  }

  lemma InitialReceipts(v5: bool)
    ensures C.Conserved(Init(v5), 0) && C.Queues(Init(v5)) && DistinctPending(Init(v5))
  {
    C.NothingYet(v5);
  }

  /**
   In a run that reuses no pending identifier, a stored message is delivered by the first
   PUBREL for its identifier, whatever comes between; a second PUBREL delivers nothing.
   */
  lemma PubrelDeliversStored(v5: bool, before: seq<Step>, mid: nat, sendOk: bool, middle: seq<Step>, reason: nat)
    requires var s := Run(Init(v5), before);
             && FreshRun(Init(v5), before) && Stores(s, 2, mid) && Unused(s, mid)
             && FreshRun(Next(s, OnPublish(2, mid, sendOk)), middle) && NoRelease(middle, mid)
    requires var t := Run(Next(Run(Init(v5), before), OnPublish(2, mid, sendOk)), middle); t.sockOpen && t.state == Active
    ensures var s := Run(Init(v5), before);
            var t := Run(Next(s, OnPublish(2, mid, sendOk)), middle);
            var u := Next(t, OnPubrel(Ack(mid, reason), true));
            && u.log == t.log + [PubcompSent(mid, true)] + [Delivered(s.nextSerial, 2)]
            && Unused(u, mid)
  {
    hide Run, FreshRun, C.Queues, C.Conserved, DistinctPending, Pending, NoRelease;
    InitialReceipts(v5);
    RunDistinct(Init(v5), before);
    C.RunConserves(Init(v5), before, 0);
    var s := Run(Init(v5), before);
    var publish := OnPublish(2, mid, sendOk);
    C.StepConserves(s, publish, 0);
    DistinctIff(s, publish);
    StoredIsPending(s, mid, sendOk);
    var s1 := Next(s, publish);
    RunDistinct(s1, middle);
    RunStaysPending(s1, middle, mid, s.nextSerial);
    PubrelDelivers(Run(s1, middle), mid, s.nextSerial, reason);
  }

  lemma StoredIsPending(s: Session, mid: nat, sendOk: bool)
    requires C.Queues(s) && Stores(s, 2, mid)
    ensures Pending(Next(s, OnPublish(2, mid, sendOk)), mid, s.nextSerial)
  {
    hide Next, C.Queues;
    PendingAfter(s, OnPublish(2, mid, sendOk));
    assert Next(s, OnPublish(2, mid, sendOk)).msgsIn.inflight[|s.msgsIn.inflight|].serial == s.nextSerial;
  }
}
