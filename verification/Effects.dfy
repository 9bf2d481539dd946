/**
 What each packet and call does, said in terms of the queues and the log alone: which
 message is removed, changed or added, and what is sent and called back.
 */
module Effects {
  import opened Basics
  import opened Delivery
  import C = Conservation
  import F = FlowControl

  /** The position of the first message with this identifier. */
  predicate FirstAt(ms: seq<Message>, mid: nat, i: nat) {
    i < |ms| && ms[i].mid == mid && forall j :: 0 <= j < i ==> ms[j].mid != mid
  }

  predicate Absent(ms: seq<Message>, mid: nat) {
    forall j :: 0 <= j < |ms| ==> ms[j].mid != mid
  }

  lemma FoundAt(ms: seq<Message>, mid: nat, i: nat)
    requires FirstAt(ms, mid, i)
    ensures IndexOf(ms, mid) == i
  {
  }

  lemma NotFoundAt(ms: seq<Message>, mid: nat)
    requires Absent(ms, mid)
    ensures IndexOf(ms, mid) == |ms|
  {
  }

  // ----- What the release adds

  predicate OnlyPublishes(log: seq<Event>) {
    forall i :: 0 <= i < |log| ==> log[i].PublishSent?
  }

  lemma {:induction false} ReleaseLog(ms: seq<Message>, quota: int, sends: nat)
    ensures OnlyPublishes(Release(ms, quota, sends).log)
    decreases |ms|
  {
    if ms != [] && quota > 0 {
      ReleaseLog(ms[1..], quota, sends);
      if sends > 0 {
        ReleaseLog(ms[1..], quota - 1, sends - 1);
      }
    }
  }

  predicate SameSerials(a: seq<Message>, b: seq<Message>) {
    |a| == |b| && forall i :: 0 <= i < |a| ==> a[i].serial == b[i].serial && a[i].mid == b[i].mid && a[i].qos == b[i].qos
  }

  lemma {:induction false} ReleaseSerials(ms: seq<Message>, quota: int, sends: nat)
    ensures SameSerials(ms, Release(ms, quota, sends).inflight)
    decreases |ms|
  {
    if ms != [] && quota > 0 {
      ReleaseSerials(ms[1..], quota, sends);
      if sends > 0 {
        ReleaseSerials(ms[1..], quota - 1, sends - 1);
      }
    }
  }

  /** `t` has these messages, and its log is that of `s`, these entries, and calls of send__publish. */
  predicate Released(s: Session, t: Session, left: seq<Message>, added: seq<Event>) {
    && SameSerials(left, t.msgsOut.inflight)
    && |s.log| + |added| <= |t.log| && t.log[..|s.log| + |added|] == s.log + added
    && OnlyPublishes(t.log[|s.log| + |added|..])
  }

  lemma ReleaseOutAdds(s: Session, s1: Session, sends: nat, added: seq<Event>)
    requires s1.log == s.log + added
    ensures Released(s, ReleaseOut(s1, sends), s1.msgsOut.inflight, added)
  {
    hide Release;
    var ms, quota, n := s1.msgsOut.inflight, s1.msgsOut.quota, Capacity(s1, sends);
    ReleaseLog(ms, quota, n);
    ReleaseSerials(ms, quota, n);
    var t := ReleaseOut(s1, sends);
    assert t.log == s1.log + Release(ms, quota, n).log;
    assert t.log[|s1.log|..] == Release(ms, quota, n).log;
  }

  // ----- PUBREC

  /** A failure reason, from 0x80 on in MQTT v5.0, ends the delivery: the message leaves the queue and no PUBREL is sent. */
  lemma PubrecRejected(s: Session, mid: nat, reason: nat, sends: nat, i: nat)
    requires s.sockOpen && s.state == Active && s.v5 && reason >= 0x80
    requires FirstAt(s.msgsOut.inflight, mid, i) && s.msgsOut.inflight[i].qos == 2
    ensures var ms, t := s.msgsOut.inflight, Next(s, OnPubrec(Ack(mid, reason), sends));
            && t.sockOpen
            && Released(s, t, ms[..i] + ms[i + 1..], [Completed(ms[i].serial)])
  {
    hide IndexOf, ReleaseOut;
    var ms := s.msgsOut.inflight;
    FoundAt(ms, mid, i);
    var s1 := Complete(s, mid);
    ReleaseOutAdds(s, s1.(msgsOut := Increment(s1.msgsOut)), sends, [Completed(ms[i].serial)]);
    ReleaseOutOnly(s1.(msgsOut := Increment(s1.msgsOut)), sends);
  }

  lemma ReleaseOutOnly(s: Session, sends: nat)
    ensures var t := ReleaseOut(s, sends);
            t.sockOpen == s.sockOpen && t.state == s.state && t.msgsIn == s.msgsIn
  {
  }

  /** Without a message it completes nothing. */
  lemma PubrecRejectedUnknown(s: Session, mid: nat, reason: nat, sends: nat)
    requires s.sockOpen && s.state == Active && s.v5 && reason >= 0x80 && Absent(s.msgsOut.inflight, mid)
    ensures Released(s, Next(s, OnPubrec(Ack(mid, reason), sends)), s.msgsOut.inflight, [])
  {
    hide IndexOf, ReleaseOut;
    NotFoundAt(s.msgsOut.inflight, mid);
    assert s.log + [] == s.log;
    ReleaseOutAdds(s, s.(msgsOut := Increment(s.msgsOut)), sends, []);
  }

  /** Any other PUBREC is answered by PUBREL, and its message waits for PUBCOMP. */
  lemma PubrecAccepted(s: Session, mid: nat, reason: nat, sends: nat, i: nat)
    requires s.sockOpen && s.state == Active && (!s.v5 || reason < 0x80)
    requires FirstAt(s.msgsOut.inflight, mid, i) && s.msgsOut.inflight[i].qos == 2
    ensures var ms := s.msgsOut.inflight;
            Next(s, OnPubrec(Ack(mid, reason), sends))
            == s.(msgsOut := s.msgsOut.(inflight := ms[i := ms[i].(state := WaitForPubcomp)]), log := s.log + [PubrelSent(mid)])
  {
    hide IndexOf;
    FoundAt(s.msgsOut.inflight, mid, i);
  }

  lemma PubrecAcceptedUnknown(s: Session, mid: nat, reason: nat, sends: nat)
    requires s.sockOpen && s.state == Active && (!s.v5 || reason < 0x80) && Absent(s.msgsOut.inflight, mid)
    ensures Next(s, OnPubrec(Ack(mid, reason), sends)) == s.(log := s.log + [PubrelSent(mid)])
  {
    hide IndexOf;
    NotFoundAt(s.msgsOut.inflight, mid);
  }

  // ----- PUBACK and PUBCOMP

  /** The step of a PUBACK, for QoS 1, or of a PUBCOMP, for QoS 2. */
  function AckStep(qos: nat, body: AckBody, sends: nat): Step {
    if qos == 1 then OnPuback(body, sends) else OnPubcomp(body, sends)
  }

  /** The message leaves the queue and is reported complete, and calls of send__publish may follow. */
  lemma AckCompletes(s: Session, qos: nat, mid: nat, reason: nat, sends: nat, i: nat)
    requires s.sockOpen && s.state == Active && qos in {1, 2}
    requires FirstAt(s.msgsOut.inflight, mid, i) && s.msgsOut.inflight[i].qos == qos
    ensures var ms, t := s.msgsOut.inflight, Next(s, AckStep(qos, Ack(mid, reason), sends));
            t.sockOpen && Released(s, t, ms[..i] + ms[i + 1..], [Completed(ms[i].serial)])
  {
    hide IndexOf, ReleaseOut;
    var s0 := s.(msgsOut := Increment(s.msgsOut));
    FoundAt(s0.msgsOut.inflight, mid, i);
    var s1 := Complete(s0, mid);
    ReleaseOutAdds(s, s1, sends, [Completed(s.msgsOut.inflight[i].serial)]);
    ReleaseOutOnly(s1, sends);
  }

  lemma AckUnknown(s: Session, qos: nat, mid: nat, reason: nat, sends: nat)
    requires s.sockOpen && s.state == Active && qos in {1, 2} && Absent(s.msgsOut.inflight, mid)
    ensures Released(s, Next(s, AckStep(qos, Ack(mid, reason), sends)), s.msgsOut.inflight, [])
  {
    hide IndexOf, ReleaseOut;
    NotFoundAt(s.msgsOut.inflight, mid);
    assert s.log + [] == s.log;
    ReleaseOutAdds(s, s.(msgsOut := Increment(s.msgsOut)), sends, []);
  }

  /**
   In the runs of `FlowControl`: exactly one message is released, the oldest one beyond the
   maximum, and only if there is one; otherwise the quota goes up by one.
   */
  lemma AckReleasesNext(s: Session, qos: nat, mid: nat, reason: nat, sends: nat, i: nat)
    requires F.FlowInv(s) && s.sockOpen && s.state == Active && qos in {1, 2} && sends > |s.msgsOut.inflight|
    requires FirstAt(s.msgsOut.inflight, mid, i) && s.msgsOut.inflight[i].qos == qos && s.msgsOut.inflight[i].state != Invalid
    ensures var ms, max, t := s.msgsOut.inflight, s.msgsOut.maximum, Next(s, AckStep(qos, Ack(mid, reason), sends));
            if |ms| > max then
              && t.log == s.log + [Completed(ms[i].serial), PublishSent(ms[max].serial, ms[max].dup, true)]
              && t.msgsOut.quota == 0
              && t.msgsOut.inflight
                 == (ms[..i] + ms[i + 1..])[max - 1 := ms[max].(state := if ms[max].qos == 1 then WaitForPuback
                                                                         else WaitForPubrec)]
            else
              && t.log == s.log + [Completed(ms[i].serial)]
              && t.msgsOut.quota == s.msgsOut.quota + 1
              && t.msgsOut.inflight == ms[..i] + ms[i + 1..]
  {
    hide IndexOf, Release;
    var ms, d := s.msgsOut.inflight, s.msgsOut;
    FoundAt(ms, mid, i);
    var left := ms[..i] + ms[i + 1..];
    var k := F.InFlight(d) - 1;
    assert i <= k;
    if |ms| > d.maximum {
      assert k == d.maximum - 1 && left[k] == ms[d.maximum];
    }
    LeftInFlight(ms, i, k + 1);
    OneReleased(left, d.quota + 1, sends, k);
    assert s.log + [Completed(ms[i].serial)] + [] == s.log + [Completed(ms[i].serial)];
  }

  lemma LeftInFlight(ms: seq<Message>, i: nat, k: nat)
    requires i < k <= |ms| && F.InFlightPrefix(ms, k) && forall j :: 0 <= j < |ms| ==> ms[j].qos in {1, 2}
    ensures var left := ms[..i] + ms[i + 1..];
            F.InFlightPrefix(left, k - 1) && forall j :: 0 <= j < |left| ==> left[j].qos in {1, 2}
  {
    var left := ms[..i] + ms[i + 1..];
    assert forall j :: 0 <= j < |left| ==> left[j] == ms[if j < i then j else j + 1];
  }

  /** With one unit of quota the release sends the oldest waiting message; with none waiting it does nothing. */
  lemma OneReleased(ms: seq<Message>, quota: int, sends: nat, k: nat)
    requires k <= |ms| && quota >= 0 && sends >= |ms| - k && F.InFlightPrefix(ms, k)
    requires forall i :: 0 <= i < |ms| ==> ms[i].qos in {1, 2}
    requires k < |ms| ==> quota == 1
    ensures var r := Release(ms, quota, sends);
            if k < |ms| then
              && r.inflight == ms[k := ms[k].(state := if ms[k].qos == 1 then WaitForPuback else WaitForPubrec)]
              && r.quota == 0 && r.log == [PublishSent(ms[k].serial, ms[k].dup, true)]
            else
              r.inflight == ms && r.quota == quota && r.log == []
  {
    hide Release;
    F.ReleaseFills(ms, quota, sends, k);
    ReleaseLogOf(ms, quota, sends, k);
    var r := Release(ms, quota, sends);
    if k < |ms| {
      assert r.log[k - k] == PublishSent(ms[k].serial, ms[k].dup, true);
    }
  }

  lemma {:induction false} ReleaseLogOf(ms: seq<Message>, quota: int, sends: nat, k: nat)
    requires k <= |ms| && quota >= 0 && sends >= |ms| - k
    requires F.InFlightPrefix(ms, k)
    requires forall i :: 0 <= i < |ms| ==> ms[i].qos in {1, 2}
    ensures var log, n := Release(ms, quota, sends).log, Min(|ms|, k + quota);
            |log| == n - k && forall i :: k <= i < n ==> log[i - k] == PublishSent(ms[i].serial, ms[i].dup, true)
    decreases |ms|
  {
    if ms != [] && quota > 0 {
      if k > 0 {
        ReleaseLogOf(ms[1..], quota, sends, k - 1);
      } else {
        ReleaseLogOf(ms[1..], quota - 1, sends - 1, 0);
      }
    }
  }

  // ----- Packets that are refused

  /** A message of another QoS under this identifier: the connection is lost, and PUBACK and PUBCOMP have raised the quota. */
  lemma AckMismatch(s: Session, qos: nat, mid: nat, reason: nat, sends: nat, i: nat)
    requires s.sockOpen && s.state == Active && qos in {1, 2}
    requires FirstAt(s.msgsOut.inflight, mid, i) && s.msgsOut.inflight[i].qos != qos
    ensures var d := s.msgsOut;
            Next(s, AckStep(qos, Ack(mid, reason), sends))
            == s.(sockOpen := false, msgsOut := d.(quota := if d.quota < d.maximum then d.quota + 1 else d.quota))
  {
    hide IndexOf;
    FoundAt(s.msgsOut.inflight, mid, i);
  }

  /**
   Before the CONNACK, or with wrong flags or body, an acknowledgement changes nothing but the
   connection, and with a wrong body the quota.
   */
  lemma AckRefused(s: Session, qos: nat, body: AckBody, sends: nat)
    requires s.sockOpen && qos in {1, 2} && (s.state != Active || !body.Ack?)
    ensures var d := s.msgsOut;
            Next(s, AckStep(qos, body, sends))
            == s.(sockOpen := false,
                  msgsOut := d.(quota := if s.state == Active && body.BadBody? && d.quota < d.maximum then d.quota + 1
                                         else d.quota))
  {
  }

  lemma PubrecRefused(s: Session, body: AckBody, sends: nat)
    requires s.sockOpen && (s.state != Active || !body.Ack?)
    ensures Next(s, OnPubrec(body, sends)) == s.(sockOpen := false)
  {
  }

  lemma PubrelRefused(s: Session, body: AckBody, sendOk: bool)
    requires s.sockOpen && (s.state != Active || !body.Ack?)
    ensures Next(s, OnPubrel(body, sendOk)) == s.(sockOpen := false)
  {
  }

  // ----- Outgoing PUBLISH

  function Following(mid: nat): nat {
    if mid == 0xFFFF then 1 else mid + 1
  }

  /** QoS 0: one call of send__publish, and no message to remember. */
  lemma PublishesAtOnce(s: Session, sends: nat)
    requires s.lastMid < 0x1_0000
    ensures Next(s, DoPublish(0, sends))
            == s.(lastMid := Following(s.lastMid), nextSerial := s.nextSerial + 1,
                  log := s.log + [PublishSent(s.nextSerial, false, s.sockOpen && sends > 0)])
  {
  }

  /** QoS 1 and 2: the message is last in the queue; it is sent in the same call if there is quota, otherwise it waits. */
  lemma PublishesOrWaits(s: Session, qos: nat, sends: nat)
    requires F.FlowInv(s) && s.sockOpen && qos in {1, 2} && sends > |s.msgsOut.inflight| && s.lastMid < 0x1_0000
    ensures var d, n := s.msgsOut, s.nextSerial;
            var state := if d.quota == 0 then Invalid else if qos == 1 then WaitForPuback else WaitForPubrec;
            Next(s, DoPublish(qos, sends))
            == s.(lastMid := Following(s.lastMid), nextSerial := n + 1,
                  msgsOut := MsgData(d.inflight + [Message(n, Following(s.lastMid), qos, state, false)], d.queueLen + 1,
                                     if d.quota == 0 then 0 else d.quota - 1, d.maximum),
                  log := s.log + [Queued(n)] + if d.quota == 0 then [] else [PublishSent(n, false, true)])
  {
    hide Release;
    var d := s.msgsOut;
    var m := Message(s.nextSerial, Following(s.lastMid), qos, Invalid, false);
    var all := d.inflight + [m];
    var k := F.InFlight(d);
    F.ReleaseFills(all, d.quota, sends, k);
    ReleaseLogOf(all, d.quota, sends, k);
    var r := Release(all, d.quota, sends);
    assert Enqueue(s, qos).msgsOut.inflight == all;
    if d.quota == 0 {
      assert r.inflight == all && r.log == [];
    } else {
      assert k == |d.inflight|;
      assert r.inflight == d.inflight + [Sending(m)];
      assert r.log[k - k] == PublishSent(all[k].serial, all[k].dup, true) && all[k] == m;
    }
  }

  // ----- Incoming PUBLISH

  /** The packets that are accepted. */
  predicate Accepts(s: Session, qos: nat, mid: nat) {
    s.sockOpen && s.state == Active && qos <= 2 && (qos > 0 ==> mid != 0 && !(s.v5 && s.msgsIn.quota == 0))
  }

  lemma IncomingRefused(s: Session, qos: nat, mid: nat, sendOk: bool)
    requires !Accepts(s, qos, mid)
    ensures Next(s, OnPublish(qos, mid, sendOk)) == s.(sockOpen := false)
  {
  }

  /** QoS 0 and 1: delivered in the same step; QoS 1 is acknowledged with its own identifier. */
  lemma IncomingDelivered(s: Session, qos: nat, mid: nat, sendOk: bool)
    requires Accepts(s, qos, mid) && qos <= 1
    ensures var d := s.msgsIn;
            var taken := if d.quota > 0 then d.quota - 1 else d.quota;
            Next(s, OnPublish(qos, mid, sendOk))
            == s.(nextSerial := s.nextSerial + 1, sockOpen := qos == 0 || sendOk,
                  msgsIn := if qos == 0 then d else d.(quota := if taken < d.maximum then taken + 1 else taken),
                  log := s.log + (if qos == 1 then [PubackSent(mid)] else []) + [Delivered(s.nextSerial, qos)])
  {
    assert s.log + [PubackSent(mid)] + [Delivered(s.nextSerial, 1)] == s.log + [PubackSent(mid), Delivered(s.nextSerial, 1)];
  }

  /** QoS 2: answered by PUBREC and stored under its identifier, last in its queue, for the price of one unit of quota. */
  lemma IncomingStored(s: Session, mid: nat, sendOk: bool)
    requires Accepts(s, 2, mid)
    ensures var d, n := s.msgsIn, s.nextSerial;
            Next(s, OnPublish(2, mid, sendOk))
            == s.(nextSerial := n + 1, sockOpen := sendOk, log := s.log + [PubrecSent(mid), Stored(n)],
                  msgsIn := MsgData(d.inflight + [Message(n, mid, 2, WaitForPubrel, false)], d.queueLen + 1,
                                    if d.quota > 0 then d.quota - 1 else d.quota, d.maximum))
  {
  }

  // ----- PUBREL

  /**
   The pending message leaves its queue and is delivered, or dropped when PUBCOMP cannot be
   sent; a unit of quota comes back.
   */
  lemma PubrelHandsOver(s: Session, mid: nat, reason: nat, sendOk: bool, i: nat)
    requires s.sockOpen && s.state == Active && FirstAt(s.msgsIn.inflight, mid, i) && s.msgsIn.inflight[i].qos == 2
    ensures var d, n := s.msgsIn, s.msgsIn.inflight[i].serial;
            Next(s, OnPubrel(Ack(mid, reason), sendOk))
            == s.(sockOpen := sendOk,
                  log := s.log + [PubcompSent(mid, sendOk), if sendOk then Delivered(n, 2) else Dropped(n)],
                  msgsIn := MsgData(d.inflight[..i] + d.inflight[i + 1..], d.queueLen - 1,
                                    if d.quota < d.maximum then d.quota + 1 else d.quota, d.maximum))
  {
    hide IndexOf;
    FoundAt(s.msgsIn.inflight, mid, i);
    var e := if sendOk then Delivered(s.msgsIn.inflight[i].serial, 2) else Dropped(s.msgsIn.inflight[i].serial);
    assert s.log + [PubcompSent(mid, sendOk)] + [e] == s.log + [PubcompSent(mid, sendOk), e];
  }

  lemma PubrelUnknown(s: Session, mid: nat, reason: nat, sendOk: bool)
    requires s.sockOpen && s.state == Active && Absent(s.msgsIn.inflight, mid)
    ensures var d := s.msgsIn;
            Next(s, OnPubrel(Ack(mid, reason), sendOk))
            == s.(sockOpen := sendOk, log := s.log + [PubcompSent(mid, sendOk)],
                  msgsIn := d.(quota := if d.quota < d.maximum then d.quota + 1 else d.quota))
  {
    hide IndexOf;
    NotFoundAt(s.msgsIn.inflight, mid);
  }

  // ----- QoS 0 and 1 over whole runs

  /** The entries about incoming QoS 0 and 1 messages. */
  predicate IsLow(e: Event) {
    e.PubackSent? || (e.Delivered? && e.qos != 2)
  }

  function Low(log: seq<Event>): seq<Event> {
    if log == [] then []
    else Low(log[..|log| - 1]) + if IsLow(log[|log| - 1]) then [log[|log| - 1]] else []
  }

  lemma {:induction false} LowConcat(a: seq<Event>, b: seq<Event>)
    ensures Low(a + b) == Low(a) + Low(b)
    decreases |b|
  {
    if b == [] {
      assert a + b == a;
    } else {
      LowConcat(a, b[..|b| - 1]);
      assert (a + b)[..|a + b| - 1] == a + b[..|b| - 1];
    }
  }

  lemma {:induction false} NoneLow(log: seq<Event>)
    requires forall i :: 0 <= i < |log| ==> !IsLow(log[i])
    ensures Low(log) == []
    decreases |log|
  {
    if log != [] {
      NoneLow(log[..|log| - 1]);
    }
  }

  /** What a step has to add about them. */
  function LowAdded(s: Session, step: Step): seq<Event> {
    match step
    case OnPublish(qos, mid, _) =>
      if !Accepts(s, qos, mid) || qos == 2 then []
      else if qos == 0 then [Delivered(s.nextSerial, 0)]
      else [PubackSent(mid), Delivered(s.nextSerial, 1)]
    case _ => []
  }

  function LowOfRun(s: Session, steps: seq<Step>): seq<Event>
    decreases |steps|
  {
    if steps == [] then [] else LowAdded(s, steps[0]) + LowOfRun(Next(s, steps[0]), steps[1..])
  }

  /** The log grows, and these entries are added. */
  predicate Adds(s: Session, t: Session, added: seq<Event>) {
    t.log == s.log + added
  }

  lemma {:induction false} RetryAddsNoLow(ms: seq<Message>)
    ensures forall i :: 0 <= i < |RetryLog(ms)| ==> !IsLow(RetryLog(ms)[i])
    decreases |ms|
  {
    if ms != [] {
      RetryAddsNoLow(ms[1..]);
    }
  }

  lemma ReleaseAddsNoLow(s: Session, s1: Session, sends: nat, added: seq<Event>)
    requires s1.log == s.log + added && forall i :: 0 <= i < |added| ==> !IsLow(added[i])
    ensures Low(ReleaseOut(s1, sends).log) == Low(s.log)
  {
    hide Release;
    var r := Release(s1.msgsOut.inflight, s1.msgsOut.quota, Capacity(s1, sends));
    ReleaseLog(s1.msgsOut.inflight, s1.msgsOut.quota, Capacity(s1, sends));
    NoneLow(added + r.log);
    LowConcat(s.log, added + r.log);
    assert s1.log + r.log == s.log + (added + r.log);
  }

  lemma AddsNoLow(s: Session, t: Session, added: seq<Event>)
    requires t.log == s.log + added && forall i :: 0 <= i < |added| ==> !IsLow(added[i])
    ensures Low(t.log) == Low(s.log)
  {
    NoneLow(added);
    LowConcat(s.log, added);
  }

  lemma AcksAddNoLow(s: Session, step: Step)
    requires step.OnPuback? || step.OnPubcomp? || step.OnPubrec?
    ensures Low(Next(s, step).log) == Low(s.log)
  {
    hide IndexOf, ReleaseOut, Low, IsLow, SetState, RemoveMid;
    assert s.log + [] == s.log;
    match step
    case OnPubrec(body, sends) =>
      PubrecAddsNoLow(s, body, sends);
    case OnPuback(body, sends) => PubackAddsNoLow(s, 1, body, sends);
    case OnPubcomp(body, sends) => PubackAddsNoLow(s, 2, body, sends);
  }

  lemma PubackAddsNoLow(s: Session, qos: nat, body: AckBody, sends: nat)
    ensures Low(PubackComp(s, qos, body, sends).0.log) == Low(s.log)
  {
    hide IndexOf, ReleaseOut, Low, RemoveMid;
    if s.state == Active && body.Ack? {
      var s1 := s.(msgsOut := Increment(s.msgsOut));
      assert s.log + [] == s.log;
      if LookupRc(s1.msgsOut.inflight, body.mid, qos) == Success {
        var e := Completed(s1.msgsOut.inflight[IndexOf(s1.msgsOut.inflight, body.mid)].serial);
        ReleaseAddsNoLow(s, Complete(s1, body.mid), sends, [e]);
      } else {
        ReleaseAddsNoLow(s, s1, sends, []);
      }
    }
  }

  lemma PubrecAddsNoLow(s: Session, body: AckBody, sends: nat)
    ensures Low(Pubrec(s, body, sends).0.log) == Low(s.log)
  {
    hide IndexOf, ReleaseOut, Low, RemoveMid, SetState;
    if s.state == Active && body.Ack? {
      assert s.log + [] == s.log;
      if Rejects(s.v5, body.reason) {
        if LookupRc(s.msgsOut.inflight, body.mid, 2) == Success {
          var e := Completed(s.msgsOut.inflight[IndexOf(s.msgsOut.inflight, body.mid)].serial);
          var s1 := Complete(s, body.mid);
          ReleaseAddsNoLow(s, s1.(msgsOut := Increment(s1.msgsOut)), sends, [e]);
        } else {
          ReleaseAddsNoLow(s, s.(msgsOut := Increment(s.msgsOut)), sends, []);
        }
      } else if LookupRc(s.msgsOut.inflight, body.mid, 2) != Protocol {
        AddsNoLow(s, Pubrec(s, body, sends).0, [PubrelSent(body.mid)]);
      }
    }
  }

  lemma PubrelAddsNoLow(s: Session, body: AckBody, sendOk: bool)
    ensures Low(Pubrel(s, body, sendOk).0.log) == Low(s.log)
  {
    hide IndexOf, Low, RemoveMid;
    if s.state == Active && body.Ack? {
      var comp, ms := PubcompSent(body.mid, sendOk), s.msgsIn.inflight;
      if LookupRc(ms, body.mid, 2) == Success {
        var n := ms[IndexOf(ms, body.mid)].serial;
        var e := if sendOk then Delivered(n, 2) else Dropped(n);
        assert s.log + [comp] + [e] == s.log + [comp, e];
        AddsNoLow(s, Pubrel(s, body, sendOk).0, [comp, e]);
      } else {
        AddsNoLow(s, Pubrel(s, body, sendOk).0, [comp]);
      }
    }
  }

  lemma PublishAddsNoLow(s: Session, qos: nat, sends: nat)
    ensures Low(Publish(s, qos, sends).log) == Low(s.log)
  {
    hide ReleaseOut, Low;
    if qos == 0 {
      AddsNoLow(s, Publish(s, qos, sends), [PublishSent(s.nextSerial, false, Capacity(s, sends) > 0)]);
    } else {
      ReleaseAddsNoLow(s, Enqueue(s, qos), sends, [Queued(s.nextSerial)]);
    }
  }

  lemma ConnackAddsNoLow(s: Session, reason: nat, max: Option<nat>)
    ensures Low(Connack(s, reason, max).0.log) == Low(s.log)
  {
    hide Low, RetryLog, OnlyQos2;
    if reason == 0 {
      var m := if max.Some? then max.value else s.msgsOut.maximum;
      var out := ResetOut(s.msgsOut.(maximum := m), true);
      RetryAddsNoLow(out.inflight);
      AddsNoLow(s, Connack(s, reason, max).0, RetryLog(out.inflight));
    }
  }

  /** A step adds the delivery, and the PUBACK, of the QoS 0 or 1 packet it accepts, and nothing else of the kind. */
  lemma StepAddsLow(s: Session, step: Step)
    ensures Low(Next(s, step).log) == Low(s.log) + LowAdded(s, step)
  {
    hide Low, PubackComp, Pubrec, Pubrel, Publish, Connack;
    match step
    case DoPublish(qos, sends) => PublishAddsNoLow(s, qos, sends);
    case OnPublish(qos, mid, sendOk) => IncomingAddsLow(s, qos, mid, sendOk);
    case OnPubrel(body, sendOk) => PubrelAddsNoLow(s, body, sendOk);
    case OnConnack(reason, max) => ConnackAddsNoLow(s, reason, max);
    case SocketLost =>
    case DoReconnect(outcome, max) => ReconnectLog(s, outcome, max);
    case _ => AcksAddNoLow(s, step);
  }

  lemma ReconnectLog(s: Session, outcome: ConnectOutcome, max: Option<nat>)
    ensures Reconnect(s, outcome, max).log == s.log
  {
  }

  lemma IncomingAddsLow(s: Session, qos: nat, mid: nat, sendOk: bool)
    ensures Low(Next(s, OnPublish(qos, mid, sendOk)).log) == Low(s.log) + LowAdded(s, OnPublish(qos, mid, sendOk))
  {
    hide Low, Next;
    if !Accepts(s, qos, mid) {
      IncomingRefused(s, qos, mid, sendOk);
    } else if qos == 2 {
      IncomingStored(s, mid, sendOk);
      AddsNoLow(s, Next(s, OnPublish(2, mid, sendOk)), [PubrecSent(mid), Stored(s.nextSerial)]);
    } else {
      IncomingDelivered(s, qos, mid, sendOk);
      var added := LowAdded(s, OnPublish(qos, mid, sendOk));
      assert s.log + [PubackSent(mid)] + [Delivered(s.nextSerial, 1)] == s.log + [PubackSent(mid), Delivered(s.nextSerial, 1)];
      assert s.log + [] == s.log;
      LowConcat(s.log, added);
      AllLow(added);
    }
  }

  lemma {:induction false} AllLow(log: seq<Event>)
    requires forall i :: 0 <= i < |log| ==> IsLow(log[i])
    ensures Low(log) == log
    decreases |log|
  {
    if log != [] {
      AllLow(log[..|log| - 1]);
      assert log == log[..|log| - 1] + [log[|log| - 1]];
    }
  }

  /**
   Over a whole run, with any broker: every accepted QoS 0 or 1 packet is delivered exactly
   once, in its own step, QoS 1 after one PUBACK with its identifier, and there are no other
   such deliveries and no other PUBACKs.
   */
  lemma {:induction false} LowQosDelivered(s: Session, steps: seq<Step>)
    ensures Low(Run(s, steps).log) == Low(s.log) + LowOfRun(s, steps)
    decreases |steps|
  {
    hide Next, Low, LowAdded;
    if steps != [] {
      StepAddsLow(s, steps[0]);
      LowQosDelivered(Next(s, steps[0]), steps[1..]);
    }
  }
}
