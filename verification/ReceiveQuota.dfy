/**
 The receive quota of an MQTT v5.0 client (section 4.9): in which runs it bounds the number of
 pending incoming messages by the receive maximum, and exactly which steps break that.
 */
module ReceiveQuota {
  import opened Basics
  import opened Delivery
  import C = Conservation

  /** Every pending message holds one unit of the quota. */
  predicate Balanced(d: MsgData) {
    d.quota + |d.inflight| == d.maximum
  }

  /**
   No more messages are pending than allowed; while packets are handled, the quota says how
   many more there may be.  Between a CONNECT and its CONNACK the quota counts for nothing.
   */
  predicate Counted(s: Session) {
    && |s.msgsIn.inflight| <= s.msgsIn.maximum
    && (s.sockOpen && s.state == Active ==> Balanced(s.msgsIn))
  }

  /**
   What the broker and the application have to keep: a PUBREL is for a pending message, or
   nothing is pending; a receive maximum named in a CONNECT covers what is pending.
   */
  predicate Allowed(s: Session, step: Step) {
    var ms := s.msgsIn.inflight;
    match step
    case OnPubrel(Ack(mid, _), sendOk) =>
      s.sockOpen && s.state == Active && sendOk && ms != [] ==> exists i :: 0 <= i < |ms| && ms[i].mid == mid
    case DoReconnect(outcome, max) => outcome != Refused && max.Some? ==> |ms| <= max.value
    case _ => true
  }

  lemma FoundIff(s: Session, mid: nat)
    requires C.Queues(s)
    ensures var ms := s.msgsIn.inflight;
            && LookupRc(ms, mid, 2) != Protocol
            && (LookupRc(ms, mid, 2) == Success <==> exists i :: 0 <= i < |ms| && ms[i].mid == mid)
  {
  }

  lemma PubrelCountedIff(s: Session, body: AckBody, sendOk: bool)
    requires s.v5 && s.sockOpen && C.Queues(s) && Counted(s)
    ensures Counted(LoopRcHandle(Pubrel(s, body, sendOk))) <==> Allowed(s, OnPubrel(body, sendOk))
  {
    hide IndexOf;
    if body.Ack? { FoundIff(s, body.mid); }
  }

  lemma IncomingCounted(s: Session, qos: nat, mid: nat, sendOk: bool)
    requires s.v5 && Counted(s) && s.sockOpen
    ensures Counted(LoopRcHandle(Incoming(s, qos, mid, sendOk)))
  {
  }

  lemma ReconnectCountedIff(s: Session, outcome: ConnectOutcome, max: Option<nat>)
    requires s.v5 && C.Queues(s) && Counted(s)
    ensures Counted(Reconnect(s, outcome, max)) <==> Allowed(s, DoReconnect(outcome, max))
  {
    hide OnlyQos2;
    C.OnlyQos2IsIdentity(s.msgsIn.inflight);
  }

  /** The recount at CONNACK puts the quota right, whatever it was. */
  lemma ConnackCounted(s: Session, reason: nat, max: Option<nat>)
    requires C.Queues(s) && |s.msgsIn.inflight| <= s.msgsIn.maximum
    ensures Counted(LoopRcHandle(Connack(s, reason, max))) && Balanced(Connack(s, reason, max).0.msgsIn)
  {
    hide OnlyQos2, RetryLog;
    C.OnlyQos2IsIdentity(s.msgsIn.inflight);
  }

  /** The outgoing side does not touch the incoming queue. */
  lemma SendingCounted(s: Session, step: Step)
    requires Counted(s) && !(step.OnPublish? || step.OnPubrel? || step.OnConnack? || step.DoReconnect?)
    ensures Counted(Next(s, step))
  {
    hide Release, IndexOf, SetState;
  }

  /** A step breaks the bound, or the quota that is to keep it, exactly when it is not allowed. */
  lemma StepCountedIff(s: Session, step: Step)
    requires s.v5 && C.Queues(s) && Counted(s)
    ensures Counted(Next(s, step)) <==> Allowed(s, step)
  {
    hide Publish, PubackComp, Pubrec, Incoming, Pubrel, Connack, Reconnect, LoopRcHandle, C.Queues, Counted;
    match step
    case OnPublish(qos, mid, sendOk) => if s.sockOpen { IncomingCounted(s, qos, mid, sendOk); }
    case OnPubrel(body, sendOk) => if s.sockOpen { PubrelCountedIff(s, body, sendOk); }
    case OnConnack(reason, max) => if s.sockOpen { CountedBound(s); ConnackCounted(s, reason, max); }
    case DoReconnect(outcome, max) => ReconnectCountedIff(s, outcome, max);
    case _ => SendingCounted(s, step);
  }

  lemma CountedBound(s: Session)
    requires Counted(s)
    ensures |s.msgsIn.inflight| <= s.msgsIn.maximum
  {
  }

  predicate AllowedRun(s: Session, steps: seq<Step>)
    decreases |steps|
  {
    steps == [] || (Allowed(s, steps[0]) && AllowedRun(Next(s, steps[0]), steps[1..]))
  }

  lemma VersionStays(s: Session, step: Step)
    ensures Next(s, step).v5 == s.v5
  {
    hide Release, IndexOf, SetState, OnlyQos2, RetryLog;
  }

  lemma {:induction false} RunCounted(s: Session, steps: seq<Step>)
    requires s.v5 && C.Conserved(s, 0) && C.Queues(s) && Counted(s) && AllowedRun(s, steps)
    ensures Counted(Run(s, steps))
    decreases |steps|
  {
    hide Next, Counted, C.Queues, C.Conserved, Allowed;
    if steps != [] {
      StepCountedIff(s, steps[0]);
      C.StepConserves(s, steps[0], 0);
      VersionStays(s, steps[0]);
      RunCounted(Next(s, steps[0]), steps[1..]);
    }
  }

  /**
   In every such run, with any number of reconnects that name a receive maximum, no more
   messages are pending than the receive maximum in force, and while the connection is up
   the quota is exactly the room left.
   */
  lemma PendingWithinMaximum(steps: seq<Step>)
    requires AllowedRun(Init(true), steps)
    ensures var s := Run(Init(true), steps);
            && |s.msgsIn.inflight| <= s.msgsIn.maximum
            && (s.sockOpen && s.state == Active ==> s.msgsIn.quota == s.msgsIn.maximum - |s.msgsIn.inflight|)
  {
    hide Run, AllowedRun, C.Conserved, C.Queues;
    C.NothingYet(true);
    RunCounted(Init(true), steps);
  }
}
