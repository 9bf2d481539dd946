/**
 Runs of a new client that show where the hypotheses of `FlowControl` and the conditions of
 `Conservation` are needed.  The steps are calculated one at a time.
 */
module ConcreteRuns {
  import opened Basics
  import opened Delivery
  import F = FlowControl

  const NOTHING_PENDING := MsgData([], 0, INITIAL_MAXIMUM, INITIAL_MAXIMUM)

  function At(open: bool, state: ClientState, published: nat, out: MsgData, log: seq<Event>): Session {
    Session(open, state, true, published, published, out, NOTHING_PENDING, log)
  }

  lemma RunSnoc(s: Session, steps: seq<Step>, step: Step)
    ensures Run(s, steps + [step]) == Next(Run(s, steps), step)
  {
    hide Next;
    F.RunConcat(s, steps, [step]);
    var t := Run(s, steps);
    assert [step][1..] == [];
    assert Run(t, [step]) == Run(Next(t, step), []);
  }

  // ----- One step each

  lemma Opens(s: Session)
    requires s.msgsIn == NOTHING_PENDING
    ensures Next(s, DoReconnect(Opened, None))
            == s.(sockOpen := true, state := Connected, msgsOut := ResetOut(s.msgsOut, false))
  {
  }

  lemma Accepted(s: Session, max: Option<nat>)
    requires s.sockOpen && s.state == Connected && s.msgsIn == NOTHING_PENDING
    ensures var m := if max.Some? then max.value else s.msgsOut.maximum;
            var out := ResetOut(s.msgsOut.(maximum := m), true);
            Next(s, OnConnack(0, max))
            == s.(state := Active, msgsOut := out.(inflight := RetryAll(out.inflight)), log := s.log + RetryLog(out.inflight))
  {
    hide RetryLog;
  }

  /** A publish while there is quota and nothing is waiting, and one that has to wait. */
  lemma Publishes(s: Session)
    requires s.sockOpen && s.msgsOut.quota >= 0 && s.lastMid < 0xFFFF
    requires forall i :: 0 <= i < |s.msgsOut.inflight| ==> s.msgsOut.inflight[i].state != Invalid && s.msgsOut.inflight[i].qos == 2
    ensures var d := s.msgsOut;
            var m := Message(s.nextSerial, s.lastMid + 1, 2, if d.quota > 0 then WaitForPubrec else Invalid, false);
            Next(s, DoPublish(2, 9))
            == s.(lastMid := s.lastMid + 1, nextSerial := s.nextSerial + 1,
                  msgsOut := MsgData(d.inflight + [m], d.queueLen + 1, if d.quota > 0 then d.quota - 1 else 0, d.maximum),
                  log := s.log + [Queued(s.nextSerial)]
                         + if d.quota > 0 then [PublishSent(s.nextSerial, false, true)] else [])
  {
    hide Release;
    var ms, m := s.msgsOut.inflight, Message(s.nextSerial, s.lastMid + 1, 2, Invalid, false);
    OnlyLastWaits(ms, m, s.msgsOut.quota, 9);
    assert Enqueue(s, 2).msgsOut.inflight == ms + [m];
  }

  lemma {:induction false} OnlyLastWaits(ms: seq<Message>, m: Message, quota: int, sends: nat)
    requires quota >= 0 && sends > 0 && m.qos == 2 && m.state == Invalid
    requires forall i :: 0 <= i < |ms| ==> ms[i].state != Invalid
    ensures Release(ms + [m], quota, sends)
            == if quota > 0 then Released(ms + [Sending(m)], quota - 1, [PublishSent(m.serial, m.dup, true)], Success)
               else Released(ms + [m], quota, [], Success)
    decreases |ms|
  {
    var all := ms + [m];
    if ms == [] {
      assert all[1..] == [];
    } else if quota > 0 {
      assert all[1..] == ms[1..] + [m] && all[0] == ms[0];
      OnlyLastWaits(ms[1..], m, quota, sends);
      assert [ms[0]] + (ms[1..] + [Sending(m)]) == ms + [Sending(m)];
    }
  }

  lemma Acknowledges(s: Session, mid: nat, i: nat)
    requires s.sockOpen && s.state == Active && i < |s.msgsOut.inflight| && IndexOf(s.msgsOut.inflight, mid) == i
    requires s.msgsOut.inflight[i].qos == 2
    ensures Next(s, OnPubrec(Ack(mid, 0), 9))
            == s.(msgsOut := s.msgsOut.(inflight := s.msgsOut.inflight[i := s.msgsOut.inflight[i].(state := WaitForPubcomp)]),
                  log := s.log + [PubrelSent(mid)])
  {
    hide IndexOf;
  }

  // ----- A CONNACK that lowers the receive maximum

  function Sent(serial: nat, state: MsgState, dup: bool): Message {
    Message(serial, serial + 1, 2, state, dup)
  }

  function Two(a: Message, b: Message, quota: int, maximum: nat): MsgData {
    MsgData([a, b], 2, quota, maximum)
  }

  const CONNECTING := [DoReconnect(Opened, None), OnConnack(0, None)]

  /** Two messages are published and pass their PUBREC. */
  const UP_TO_PUBREC := CONNECTING + [DoPublish(2, 9), DoPublish(2, 9), OnPubrec(Ack(1, 0), 9), OnPubrec(Ack(2, 0), 9)]

  const PUBREC_LOG := [Queued(0), PublishSent(0, false, true), Queued(1), PublishSent(1, false, true), PubrelSent(1), PubrelSent(2)]

  lemma AfterConnecting()
    ensures Run(Init(true), CONNECTING) == At(true, Active, 0, NOTHING_PENDING, [])
  {
    hide Run, Next;
    var s0 := Init(true);
    RunNothing(s0);
    RunSnoc(s0, [], DoReconnect(Opened, None));
    assert [] + [DoReconnect(Opened, None)] == [DoReconnect(Opened, None)];
    Opens(s0);
    NothingToReset(false);
    NothingToReset(true);
    var s1 := Next(s0, DoReconnect(Opened, None));
    Accepted(s1, None);
    RunSnoc(s0, [DoReconnect(Opened, None)], OnConnack(0, None));
    assert [DoReconnect(Opened, None)] + [OnConnack(0, None)] == CONNECTING;
  }

  lemma RunNothing(s: Session)
    ensures Run(s, []) == s
  {
  }

  lemma NothingToReset(only: bool)
    ensures ResetOut(NOTHING_PENDING, only) == NOTHING_PENDING && RetryAll([]) == [] && RetryLog([]) == []
  {
    assert ResetOut(NOTHING_PENDING, only).inflight == [];
  }

  lemma AfterPubrec()
    ensures Run(Init(true), UP_TO_PUBREC)
            == At(true, Active, 2, Two(Sent(0, WaitForPubcomp, false), Sent(1, WaitForPubcomp, false), 18, 20), PUBREC_LOG)
  {
    hide Run, Next, IndexOf;
    var s0 := Init(true);
    AfterConnecting();
    var s2 := Run(s0, CONNECTING);
    Publishes(s2);
    var s3 := Next(s2, DoPublish(2, 9));
    assert s3.msgsOut.inflight == [Sent(0, WaitForPubrec, false)];
    Publishes(s3);
    var s4 := Next(s3, DoPublish(2, 9));
    assert s4.msgsOut == Two(Sent(0, WaitForPubrec, false), Sent(1, WaitForPubrec, false), 18, 20);
    FirstAndSecond(s4.msgsOut.inflight);
    Acknowledges(s4, 1, 0);
    var s5 := Next(s4, OnPubrec(Ack(1, 0), 9));
    FirstAndSecond(s5.msgsOut.inflight);
    Acknowledges(s5, 2, 1);
    var s6 := Next(s5, OnPubrec(Ack(2, 0), 9));
    assert s6.log == PUBREC_LOG;
    assert s6.msgsOut.inflight == [Sent(0, WaitForPubcomp, false), Sent(1, WaitForPubcomp, false)];
    FourMore(s0, CONNECTING, DoPublish(2, 9), DoPublish(2, 9), OnPubrec(Ack(1, 0), 9), OnPubrec(Ack(2, 0), 9));
  }

  lemma FirstAndSecond(ms: seq<Message>)
    requires |ms| == 2 && ms[0].mid == 1 && ms[1].mid == 2
    ensures IndexOf(ms, 1) == 0 && IndexOf(ms, 2) == 1
  {
  }

  lemma FourMore(s: Session, steps: seq<Step>, a: Step, b: Step, c: Step, d: Step)
    ensures Run(s, steps + [a, b, c, d]) == Next(Next(Next(Next(Run(s, steps), a), b), c), d)
  {
    hide Next, Run;
    RunSnoc(s, steps, a);
    RunSnoc(s, steps + [a], b);
    RunSnoc(s, steps + [a] + [b], c);
    RunSnoc(s, steps + [a] + [b] + [c], d);
    assert steps + [a] + [b] + [c] + [d] == steps + [a, b, c, d];
  }

  /** The connection is lost, and the next CONNACK allows one message. */
  lemma AfterLowering(s: Session)
    requires s == At(true, Active, 2, Two(Sent(0, WaitForPubcomp, false), Sent(1, WaitForPubcomp, false), 18, 20), PUBREC_LOG)
    ensures Next(Next(Next(s, SocketLost), DoReconnect(Opened, None)), OnConnack(0, Some(1)))
            == At(true, Active, 2, Two(Sent(0, ResendPubrel, true), Sent(1, Invalid, false), 0, 1), s.log + [PubrelSent(1)])
  {
    var s1 := Next(s, SocketLost);
    assert s1 == s.(sockOpen := false);
    hide Next;
    Opens(s1);
    var s2 := Next(s1, DoReconnect(Opened, None));
    var m0, m1 := Sent(0, ResendPubrel, false), Sent(1, Invalid, false);
    assert s2.msgsOut.inflight == [m0, Sent(1, ResendPubrel, false)];
    Accepted(s2, Some(1));
    assert ResetOut(s2.msgsOut.(maximum := 1), true).inflight == [m0, m1];
    assert RetryAll([m0, m1]) == [Sent(0, ResendPubrel, true), m1];
    assert [m0, m1][1..] == [m1] && [m1][1..] == [];
    assert RetryLog([m1]) == [] + RetryLog([]);
    assert RetryLog([m0, m1]) == [PubrelSent(1)];
  }

  lemma SecondIsPublished(s: Session)
    requires s.sockOpen && s.state == Active && s.msgsOut == Two(Sent(0, ResendPubrel, true), Sent(1, Invalid, false), 0, 1)
    ensures Next(s, OnPubcomp(Ack(1, 0), 9)).log == s.log + [Completed(0), PublishSent(1, false, true)]
  {
    hide Release;
    var ms, m1 := s.msgsOut.inflight, Sent(1, Invalid, false);
    var s1 := s.(msgsOut := Increment(s.msgsOut));
    assert IndexOf(ms, 1) == 0 && RemoveAt(ms, 0) == [m1];
    var s2 := Complete(s1, 1);
    assert s2.msgsOut == MsgData([m1], 1, 1, 1);
    OnlyLastWaits([], m1, 1, 9);
    assert [] + [m1] == [m1];
  }

  /**
   A run of a new client in which a message that has passed its PUBREC is published again:
   after a lost connection a CONNACK lowers the maximum to one, and a PUBCOMP follows.
   */
  lemma LoweredMaximumPublishesAgain()
    ensures var s := Run(Init(true), UP_TO_PUBREC);
            var t := Run(Init(true), UP_TO_PUBREC + [SocketLost, DoReconnect(Opened, None), OnConnack(0, Some(1)),
                                                     OnPubcomp(Ack(1, 0), 9)]);
            && F.PastPubrec(s, 1)
            && t.log == s.log + [PubrelSent(1), Completed(0), PublishSent(1, false, true)]
  {
    hide Run, Next;
    AfterPubrec();
    var s := Run(Init(true), UP_TO_PUBREC);
    AfterLowering(s);
    var s1 := Next(Next(Next(s, SocketLost), DoReconnect(Opened, None)), OnConnack(0, Some(1)));
    SecondIsPublished(s1);
    FourMore(Init(true), UP_TO_PUBREC, SocketLost, DoReconnect(Opened, None), OnConnack(0, Some(1)), OnPubcomp(Ack(1, 0), 9));
    assert s.log + [PubrelSent(1)] + [Completed(0), PublishSent(1, false, true)]
           == s.log + [PubrelSent(1), Completed(0), PublishSent(1, false, true)];
  }

  // ----- A CONNACK that raises it

  /** The first CONNACK allows one message, so the second one published has to wait. */
  const UP_TO_WAITING := [DoReconnect(Opened, None)] + [OnConnack(0, Some(1)), DoPublish(2, 9), DoPublish(2, 9), SocketLost]

  lemma AfterWaiting()
    ensures Run(Init(true), UP_TO_WAITING)
            == At(false, Active, 2, Two(Sent(0, WaitForPubrec, false), Sent(1, Invalid, false), 0, 1),
                  [Queued(0), PublishSent(0, false, true), Queued(1)])
  {
    hide Run, Next;
    var s0 := Init(true);
    RunNothing(s0);
    RunSnoc(s0, [], DoReconnect(Opened, None));
    assert [] + [DoReconnect(Opened, None)] == [DoReconnect(Opened, None)];
    Opens(s0);
    NothingToReset(false);
    var s1 := Next(s0, DoReconnect(Opened, None));
    Accepted(s1, Some(1));
    var none := MsgData([], 0, 1, 1);
    assert ResetOut(NOTHING_PENDING.(maximum := 1), true) == none by { assert ResetOut(NOTHING_PENDING.(maximum := 1), true).inflight == []; }
    NothingToReset(true);
    var s2 := Next(s1, OnConnack(0, Some(1)));
    assert s2 == At(true, Active, 0, none, []);
    Publishes(s2);
    var s3 := Next(s2, DoPublish(2, 9));
    assert s3.msgsOut.inflight == [Sent(0, WaitForPubrec, false)];
    Publishes(s3);
    var s4 := Next(s3, DoPublish(2, 9));
    assert s4.msgsOut == Two(Sent(0, WaitForPubrec, false), Sent(1, Invalid, false), 0, 1);
    assert s4.log == [Queued(0), PublishSent(0, false, true), Queued(1)];
    JustLost(s4);
    FourMore(s0, [DoReconnect(Opened, None)], OnConnack(0, Some(1)), DoPublish(2, 9), DoPublish(2, 9), SocketLost);
  }

  lemma JustLost(s: Session)
    ensures Next(s, SocketLost) == s.(sockOpen := false)
  {
  }

  /** A run in which the next CONNACK allows three messages, and one keeps waiting although there is quota. */
  lemma RaisedMaximumLeavesWaiting()
    ensures var s := Next(Next(Run(Init(true), UP_TO_WAITING), DoReconnect(Opened, None)), OnConnack(0, Some(3)));
            && s.sockOpen && s.state == Active && s.msgsOut.quota == 1
            && |s.msgsOut.inflight| == 2 && s.msgsOut.inflight[1].state == Invalid
            && !F.FlowInv(s)
  {
    hide Run, Next;
    AfterWaiting();
    var s := Run(Init(true), UP_TO_WAITING);
    Opens(s);
    var s1 := Next(s, DoReconnect(Opened, None));
    assert s1.msgsOut.inflight == [Sent(0, PublishQos2, false), Sent(1, Invalid, false)];
    Accepted(s1, Some(3));
    var t := Next(s1, OnConnack(0, Some(3)));
    assert t.msgsOut.inflight[1] == Sent(1, Invalid, false);
  }

  // ----- Incoming messages

  lemma Stores(s: Session, mid: nat)
    requires s.sockOpen && s.state == Active && s.msgsIn.quota > 0 && mid > 0
    ensures var d := s.msgsIn;
            Next(s, OnPublish(2, mid, true))
            == s.(nextSerial := s.nextSerial + 1, log := s.log + [PubrecSent(mid), Stored(s.nextSerial)],
                  msgsIn := MsgData(d.inflight + [Message(s.nextSerial, mid, 2, WaitForPubrel, false)],
                                    d.queueLen + 1, d.quota - 1, d.maximum))
  {
  }

  lemma DeliversFirst(s: Session, mid: nat)
    requires s.sockOpen && s.state == Active && s.msgsIn.quota < s.msgsIn.maximum
    requires s.msgsIn.inflight != [] && s.msgsIn.inflight[0].mid == mid && s.msgsIn.inflight[0].qos == 2
    ensures var d := s.msgsIn;
            Next(s, OnPubrel(Ack(mid, 0), true))
            == s.(log := s.log + [PubcompSent(mid, true)] + [Delivered(d.inflight[0].serial, 2)],
                  msgsIn := MsgData(d.inflight[1..], d.queueLen - 1, d.quota + 1, d.maximum))
  {
    assert RemoveAt(s.msgsIn.inflight, 0) == s.msgsIn.inflight[1..];
  }

  const TWICE := [OnPublish(2, 7, true), OnPublish(2, 7, true), OnPubrel(Ack(7, 0), true)]

  /**
   A run in which the broker sends a message again before its PUBREL: the copy is delivered
   in place of the next message with that identifier.
   */
  lemma StaleDelivery()
    ensures var again := Run(Init(true), CONNECTING + TWICE);
            var next := Run(Init(true), CONNECTING + TWICE + [OnPublish(2, 7, true), OnPubrel(Ack(7, 0), true)]);
            next.log == again.log + [PubrecSent(7), Stored(2), PubcompSent(7, true), Delivered(1, 2)]
  {
    hide Next, Run;
    var s0 := Init(true);
    AfterConnecting();
    var s := Run(s0, CONNECTING);
    Stores(s, 7);
    var s1 := Next(s, OnPublish(2, 7, true));
    Stores(s1, 7);
    var s2 := Next(s1, OnPublish(2, 7, true));
    DeliversFirst(s2, 7);
    var s3 := Next(s2, OnPubrel(Ack(7, 0), true));
    ThreeMore(s0, CONNECTING, OnPublish(2, 7, true), OnPublish(2, 7, true), OnPubrel(Ack(7, 0), true));
    Stores(s3, 7);
    var s4 := Next(s3, OnPublish(2, 7, true));
    DeliversFirst(s4, 7);
    TwoMore(s0, CONNECTING + TWICE, OnPublish(2, 7, true), OnPubrel(Ack(7, 0), true));
    assert s3.nextSerial == 2 && s4.msgsIn.inflight[0].serial == 1;
  }

  lemma TwoMore(s: Session, steps: seq<Step>, a: Step, b: Step)
    ensures Run(s, steps + [a, b]) == Next(Next(Run(s, steps), a), b)
  {
    hide Next, Run;
    RunSnoc(s, steps, a);
    RunSnoc(s, steps + [a], b);
    assert steps + [a] + [b] == steps + [a, b];
  }

  lemma ThreeMore(s: Session, steps: seq<Step>, a: Step, b: Step, c: Step)
    ensures Run(s, steps + [a, b, c]) == Next(Next(Next(Run(s, steps), a), b), c)
  {
    hide Next, Run;
    TwoMore(s, steps, a, b);
    RunSnoc(s, steps + [a, b], c);
    assert steps + [a, b] + [c] == steps + [a, b, c];
  }

  /** The client announces a receive maximum of one; a PUBREL for an unknown identifier comes between two messages. */
  const STRAY_PUBREL := [DoReconnect(Opened, Some(1)), OnConnack(0, None), OnPublish(2, 5, true)]
                        + [OnPubrel(Ack(6, 0), true), OnPublish(2, 7, true)]

  lemma OpensWith(s: Session, max: nat)
    requires s.v5 && s.msgsIn == NOTHING_PENDING && s.msgsOut == NOTHING_PENDING
    ensures Next(s, DoReconnect(Opened, Some(max)))
            == s.(sockOpen := true, state := Connected, msgsIn := MsgData([], 0, max, max))
  {
    NothingToReset(false);
  }

  lemma AcceptedEmpty(s: Session)
    requires s.sockOpen && s.state == Connected && s.msgsOut == NOTHING_PENDING && s.msgsIn.inflight == []
    ensures Next(s, OnConnack(0, None))
            == s.(state := Active, msgsIn := MsgData([], 0, s.msgsIn.maximum, s.msgsIn.maximum))
  {
    NothingToReset(true);
    assert s.log + [] == s.log;
  }

  lemma ReturnsTooMuch(s: Session, mid: nat)
    requires s.sockOpen && s.state == Active && s.msgsIn.quota < s.msgsIn.maximum
    requires LookupRc(s.msgsIn.inflight, mid, 2) == NotFound
    ensures Next(s, OnPubrel(Ack(mid, 0), true))
            == s.(msgsIn := s.msgsIn.(quota := s.msgsIn.quota + 1), log := s.log + [PubcompSent(mid, true)])
  {
  }

  /** The quota drifts: in the end two messages are pending under a receive maximum of one. */
  lemma StrayPubrelExceedsMaximum()
    ensures var d := Run(Init(true), STRAY_PUBREL).msgsIn;
            d.maximum == 1 && |d.inflight| == 2
  {
    hide Run, Next;
    var s0 := Init(true);
    OpensWith(s0, 1);
    var s1 := Next(s0, DoReconnect(Opened, Some(1)));
    AcceptedEmpty(s1);
    var s2 := Next(s1, OnConnack(0, None));
    Stores(s2, 5);
    var s3 := Next(s2, OnPublish(2, 5, true));
    NotPending(s3.msgsIn.inflight, 6);
    ReturnsTooMuch(s3, 6);
    var s4 := Next(s3, OnPubrel(Ack(6, 0), true));
    Stores(s4, 7);
    RunNothing(s0);
    ThreeMore(s0, [], DoReconnect(Opened, Some(1)), OnConnack(0, None), OnPublish(2, 5, true));
    var opening := [DoReconnect(Opened, Some(1)), OnConnack(0, None), OnPublish(2, 5, true)];
    assert [] + opening == opening;
    TwoMore(s0, opening, OnPubrel(Ack(6, 0), true), OnPublish(2, 7, true));
  }

  lemma NotPending(ms: seq<Message>, mid: nat)
    requires |ms| == 1 && ms[0].mid != mid
    ensures LookupRc(ms, mid, 2) == NotFound
  {
  }
}
