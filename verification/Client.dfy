/**
 The delivery machine with its fields updated in place, one loop or handler at a time.
 Every method is proved to have the effect of its function in `Delivery`, so the
 theorems about runs hold of these methods.
 */
module ClientModel {
  import opened Basics
  import opened Delivery

  /** Releasing `rest` next completes what the release `r0` was to do. */
  predicate Releasing(r0: Released, log0: seq<Event>, done: seq<Message>, rest: seq<Message>,
                      quota: int, left: nat, log: seq<Event>)
  {
    var r := Release(rest, quota, left);
    && r0.inflight == done + r.inflight && r0.quota == r.quota && r0.rc == r.rc
    && log0 + r0.log == log + r.log
  }

  /** The last thing logged is a call of send__publish that has failed. */
  predicate EndsUnsent(log: seq<Event>) {
    log != [] && var e := log[|log| - 1]; e.PublishSent? && !e.ok
  }

  lemma {:induction false} ReleaseEnds(ms: seq<Message>, quota: int, sends: nat)
    ensures var r := Release(ms, quota, sends);
            r.rc == if EndsUnsent(r.log) then NoConn else Success
    decreases |ms|
  {
    if ms != [] && quota > 0 {
      if !Releasable(ms[0]) {
        ReleaseEnds(ms[1..], quota, sends);
      } else if sends > 0 {
        ReleaseEnds(ms[1..], quota - 1, sends - 1);
      }
    }
  }

  lemma StartRelease(ms: seq<Message>, quota: int, sends: nat, log: seq<Event>)
    ensures Releasing(Release(ms, quota, sends), log, ms[..0], ms[0..], quota, sends, log)
  {
    assert ms[0..] == ms;
  }

  lemma PassOne(r0: Released, log0: seq<Event>, ms: seq<Message>, i: nat, quota: int, left: nat, log: seq<Event>)
    requires i < |ms| && Releasing(r0, log0, ms[..i], ms[i..], quota, left, log)
    requires quota > 0 && !Releasable(ms[i])
    ensures Releasing(r0, log0, ms[..i + 1], ms[i + 1..], quota, left, log)
  {
    assert ms[i..][1..] == ms[i + 1..];
  }

  /** One successful send: `next` is the list with message `i` marked as sent. */
  lemma SendOne(r0: Released, log0: seq<Event>, ms: seq<Message>, i: nat, quota: int, left: nat, log: seq<Event>,
                next: seq<Message>)
    requires i < |ms| && Releasing(r0, log0, ms[..i], ms[i..], quota, left, log)
    requires quota > 0 && left > 0 && Releasable(ms[i]) && next == ms[i := Sending(ms[i])]
    ensures Releasing(r0, log0, next[..i + 1], next[i + 1..], quota - 1, left - 1,
                      log + [PublishSent(ms[i].serial, ms[i].dup, true)])
  {
    assert ms[i..][1..] == ms[i + 1..] == next[i + 1..];
    var r := Release(next[i + 1..], quota - 1, left - 1);
    assert next[..i] == ms[..i] && next[..i + 1] == next[..i] + [next[i]];
    assert log + ([PublishSent(ms[i].serial, ms[i].dup, true)] + r.log)
           == log + [PublishSent(ms[i].serial, ms[i].dup, true)] + r.log;
  }

  lemma FailOne(r0: Released, log0: seq<Event>, ms: seq<Message>, i: nat, quota: int, log: seq<Event>,
                next: seq<Message>)
    requires i < |ms| && Releasing(r0, log0, ms[..i], ms[i..], quota, 0, log)
    requires quota > 0 && Releasable(ms[i]) && next == ms[i := Sending(ms[i])]
    ensures r0.inflight == next && r0.quota == quota && r0.rc == NoConn
    ensures log0 + r0.log == log + [PublishSent(ms[i].serial, ms[i].dup, false)]
  {
    assert next == ms[..i] + ([Sending(ms[i])] + ms[i..][1..]);
  }

  lemma StopRelease(r0: Released, log0: seq<Event>, ms: seq<Message>, i: nat, quota: int, left: nat, log: seq<Event>)
    requires i <= |ms| && Releasing(r0, log0, ms[..i], ms[i..], quota, left, log)
    requires quota <= 0 || i == |ms|
    ensures r0.inflight == ms && r0.quota == quota && r0.rc == Success && log0 + r0.log == log
  {
    assert ms == ms[..i] + ms[i..];
  }

  /** Deleting or keeping one message of msgs_in while it is reset. */
  lemma KeepOne(ms: seq<Message>, i: nat)
    requires i < |ms|
    ensures ms[i].qos == 2 ==> ms[..i + 1] + OnlyQos2(ms[i + 1..]) == ms[..i] + OnlyQos2(ms[i..])
    ensures ms[i].qos != 2 ==> RemoveAt(ms, i)[..i] + OnlyQos2(RemoveAt(ms, i)[i..]) == ms[..i] + OnlyQos2(ms[i..])
  {
    assert ms[i..][1..] == ms[i + 1..];
    if ms[i].qos == 2 {
      assert ms[..i + 1] == ms[..i] + [ms[i]];
      assert ms[..i] + [ms[i]] + OnlyQos2(ms[i + 1..]) == ms[..i] + ([ms[i]] + OnlyQos2(ms[i + 1..]));
    } else {
      assert RemoveAt(ms, i)[i..] == ms[i + 1..] && RemoveAt(ms, i)[..i] == ms[..i];
      assert [] + OnlyQos2(ms[i + 1..]) == OnlyQos2(ms[i + 1..]);
    }
  }

  lemma NothingKept(ms: seq<Message>)
    ensures ms[..|ms|] + OnlyQos2(ms[|ms|..]) == ms
  {
  }

  /** The first `i` messages of `ms` have been sent again. */
  predicate Retrying(ms: seq<Message>, i: nat, cur: seq<Message>, log0: seq<Event>, log: seq<Event>) {
    && i <= |ms| == |cur|
    && (forall j :: 0 <= j < |ms| ==> cur[j] == if j < i then RetryOne(ms[j]) else ms[j])
    && log + RetryLog(ms[i..]) == log0 + RetryLog(ms)
  }

  lemma StartRetry(ms: seq<Message>, log: seq<Event>)
    ensures Retrying(ms, 0, ms, log, log)
  {
    assert ms[0..] == ms;
  }

  lemma RetryNext(ms: seq<Message>, i: nat, cur: seq<Message>, log0: seq<Event>, log: seq<Event>, sent: seq<Event>)
    requires Retrying(ms, i, cur, log0, log) && i < |ms|
    requires sent == if Retried(ms[i]) then [RetryEvent(ms[i])] else []
    ensures Retrying(ms, i + 1, cur[i := RetryOne(cur[i])], log0, log + sent)
  {
    assert ms[i..][1..] == ms[i + 1..];
    assert log + sent + RetryLog(ms[i + 1..]) == log + (sent + RetryLog(ms[i + 1..]));
  }

  lemma RetryUntouched(ms: seq<Message>, i: nat, cur: seq<Message>, log0: seq<Event>, log: seq<Event>)
    requires Retrying(ms, i + 1, cur, log0, log)
    ensures i + 1 < |ms| ==> cur[i + 1] == ms[i + 1]
  {
  }

  lemma EndRetry(ms: seq<Message>, cur: seq<Message>, log0: seq<Event>, log: seq<Event>)
    requires Retrying(ms, |ms|, cur, log0, log)
    ensures cur == RetryAll(ms) && log == log0 + RetryLog(ms)
  {
    assert ms[|ms|..] == [] && log + [] == log;
  }

  class Client {
    const v5: bool
    var sockOpen: bool
    var state: ClientState
    var lastMid: nat
    var nextSerial: nat
    var outInflight: seq<Message>
    var outQueueLen: int
    var outQuota: int
    var outMaximum: nat
    var inInflight: seq<Message>
    var inQueueLen: int
    var inQuota: int
    var inMaximum: nat
    var log: seq<Event>

    function Out(): MsgData
      reads this
    {
      MsgData(outInflight, outQueueLen, outQuota, outMaximum)
    }

    function In(): MsgData
      reads this
    {
      MsgData(inInflight, inQueueLen, inQuota, inMaximum)
    }

    function View(): Session
      reads this
    {
      Session(sockOpen, state, v5, lastMid, nextSerial, Out(), In(), log)
    }

    constructor (v5: bool)
      ensures View() == Init(v5) && outQuota == outMaximum == inQuota == inMaximum == 20
    {
      this.v5 := v5;
      sockOpen, state, lastMid, nextSerial := false, New, 0, 0;
      outInflight, outQueueLen, outQuota, outMaximum := [], 0, INITIAL_MAXIMUM, INITIAL_MAXIMUM;
      inInflight, inQueueLen, inQuota, inMaximum := [], 0, INITIAL_MAXIMUM, INITIAL_MAXIMUM;
      log := [];
    }

    // ----- util_mosq.c

    method MidGenerate() returns (mid: nat)
      requires lastMid < 0x1_0000
      modifies this`lastMid
      ensures mid == lastMid == NextMid(old(lastMid))
      ensures mid == if old(lastMid) == 65535 then 1 else old(lastMid) + 1
    {
      lastMid := (lastMid + 1) % 0x1_0000;
      if lastMid == 0 {
        lastMid := lastMid + 1;
      }
      mid := lastMid;
    }

    method IncrementSendQuota()
      modifies this`outQuota
      ensures Out() == Increment(old(Out()))
    {
      if outQuota < outMaximum { outQuota := outQuota + 1; }
    }

    method DecrementSendQuota()
      modifies this`outQuota
      ensures Out() == Decrement(old(Out()))
    {
      if outQuota > 0 { outQuota := outQuota - 1; }
    }

    method IncrementReceiveQuota()
      modifies this`inQuota
      ensures In() == Increment(old(In()))
    {
      if inQuota < inMaximum { inQuota := inQuota + 1; }
    }

    method DecrementReceiveQuota()
      modifies this`inQuota
      ensures In() == Decrement(old(In()))
    {
      if inQuota > 0 { inQuota := inQuota - 1; }
    }

    // ----- messages_mosq.c

    /** The body of the release loop for a message that is waiting. */
    method SendWaiting(i: nat, left: nat) returns (ok: bool)
      requires i < |outInflight| && Releasable(outInflight[i]) && outQuota > 0
      modifies this`outInflight, this`outQuota, this`log
      ensures var m := old(outInflight)[i];
              && outInflight == old(outInflight)[i := Sending(m)]
              && log == old(log) + [PublishSent(m.serial, m.dup, ok)]
              && ok == (left > 0)
              && outQuota == old(outQuota) - if ok then 1 else 0
    {
      var cur := outInflight[i];
      if cur.qos == 1 {
        cur := cur.(state := WaitForPuback);
      } else if cur.qos == 2 {
        cur := cur.(state := WaitForPubrec);
      }
      outInflight := outInflight[i := cur];
      ok := left > 0;
      log := log + [PublishSent(cur.serial, cur.dup, ok)];
      if ok {
        DecrementSendQuota();
      }
    }

    method ReleaseToInflight(sends: nat) returns (rc: Rc)
      modifies this`outInflight, this`outQuota, this`log
      ensures var r := Release(old(outInflight), old(outQuota), if sockOpen then sends else 0);
              && outInflight == r.inflight && outQuota == r.quota
              && log == old(log) + r.log && rc == r.rc
    {
      hide Release, Releasing;
      var left: nat := if sockOpen then sends else 0;
      ghost var r0, log0 := Release(outInflight, outQuota, left), log;
      StartRelease(outInflight, outQuota, left, log);
      var i := 0;
      while i < |outInflight|
        invariant 0 <= i <= |outInflight|
        invariant Releasing(r0, log0, outInflight[..i], outInflight[i..], outQuota, left, log)
      {
        ghost var ms, quota, log1 := outInflight, outQuota, log;
        if outQuota > 0 {
          var cur := outInflight[i];
          if cur.qos > 0 && cur.state == Invalid {
            var ok := SendWaiting(i, left);
            if !ok {
              FailOne(r0, log0, ms, i, quota, log1, outInflight);
              return NoConn;
            }
            SendOne(r0, log0, ms, i, quota, left, log1, outInflight);
            left := left - 1;
          } else {
            PassOne(r0, log0, ms, i, quota, left, log1);
          }
        } else {
          StopRelease(r0, log0, ms, i, quota, left, log1);
          return Success;
        }
        i := i + 1;
      }
      StopRelease(r0, log0, outInflight, i, outQuota, left, log);
      rc := Success;
    }

    method Remove(out: bool, mid: nat, qos: nat) returns (rc: Rc, message: Option<Message>)
      modifies this`outInflight, this`outQueueLen, this`inInflight, this`inQueueLen
      ensures var d := if out then old(Out()) else old(In());
              && rc == LookupRc(d.inflight, mid, qos)
              && (if out then In() == old(In()) else Out() == old(Out()))
              && (if out then Out() else In()) == (if rc == Success then RemoveMid(d, mid) else d)
              && (message.Some? <==> rc == Success)
              && (rc == Success ==> message.value == d.inflight[IndexOf(d.inflight, mid)])
    {
      var ms := if out then outInflight else inInflight;
      message := None;
      var i := 0;
      while i < |ms|
        invariant 0 <= i <= IndexOf(ms, mid)
      {
        if ms[i].mid == mid {
          if ms[i].qos != qos {
            return Protocol, None;
          }
          if out {
            outInflight := RemoveAt(outInflight, i);
            outQueueLen := outQueueLen - 1;
          } else {
            inInflight := RemoveAt(inInflight, i);
            inQueueLen := inQueueLen - 1;
          }
          return Success, Some(ms[i]);
        }
        i := i + 1;
      }
      rc := NotFound;
    }

    method OutUpdate(mid: nat, newState: MsgState, qos: nat) returns (rc: Rc)
      modifies this`outInflight
      ensures rc == LookupRc(old(outInflight), mid, qos)
      ensures outInflight == if rc == Success then SetState(old(outInflight), mid, newState) else old(outInflight)
    {
      var i := 0;
      while i < |outInflight|
        invariant 0 <= i <= IndexOf(outInflight, mid)
        invariant outInflight == old(outInflight)
      {
        if outInflight[i].mid == mid {
          if outInflight[i].qos != qos {
            return Protocol;
          }
          outInflight := outInflight[i := outInflight[i].(state := newState)];
          return Success;
        }
        i := i + 1;
      }
      rc := NotFound;
    }

    /** The msgs_in half of message__reconnect_reset. */
    method ResetReceived()
      modifies this`inInflight, this`inQueueLen, this`inQuota
      ensures In() == ResetIn(old(In()))
    {
      hide OnlyQos2;
      ghost var ms := inInflight;
      inQuota := inMaximum;
      inQueueLen := 0;
      var i := 0;
      assert inInflight[..0] + OnlyQos2(inInflight[0..]) == OnlyQos2(ms) by { assert inInflight[0..] == ms; }
      while i < |inInflight|
        invariant 0 <= i <= |inInflight|
        invariant inQueueLen + |inInflight| - i == |ms|
        invariant inInflight[..i] + OnlyQos2(inInflight[i..]) == OnlyQos2(ms)
        invariant inQuota == inMaximum - Min(i, inMaximum)
        decreases |inInflight| - i
      {
        KeepOne(inInflight, i);
        inQueueLen := inQueueLen + 1;
        if inInflight[i].qos != 2 {
          inInflight := RemoveAt(inInflight, i);
        } else {
          DecrementReceiveQuota();
          i := i + 1;
        }
      }
      NothingKept(inInflight);
    }

    /** The msgs_out half of message__reconnect_reset. */
    method ResetSent(updateQuotaOnly: bool)
      modifies this`outInflight, this`outQueueLen, this`outQuota
      ensures Out() == ResetOut(old(Out()), updateQuotaOnly)
    {
      ghost var ms := outInflight;
      ghost var target := ResetOut(Out(), updateQuotaOnly).inflight;
      outQuota := outMaximum;
      outQueueLen := 0;
      var i := 0;
      while i < |outInflight|
        invariant 0 <= i <= |outInflight| == |ms| == |target|
        invariant outQueueLen == i && outQuota == outMaximum - Min(i, outMaximum)
        invariant forall j :: 0 <= j < i ==> outInflight[j] == target[j]
        invariant forall j :: i <= j < |ms| ==> outInflight[j] == ms[j]
      {
        var message := outInflight[i];
        outQueueLen := outQueueLen + 1;
        if outQuota != 0 {
          DecrementSendQuota();
          if !updateQuotaOnly {
            if message.qos == 1 {
              message := message.(state := PublishQos1);
            } else if message.qos == 2 {
              if message.state == WaitForPubrec {
                message := message.(state := PublishQos2);
              } else if message.state == WaitForPubcomp {
                message := message.(state := ResendPubrel);
              }
            }
          }
        } else {
          message := message.(state := Invalid);
        }
        outInflight := outInflight[i := message];
        i := i + 1;
      }
      assert outInflight == target;
    }

    method ReconnectReset(updateQuotaOnly: bool)
      modifies this
      ensures View() == Reset(old(View()), updateQuotaOnly)
    {
      ResetReceived();
      ResetSent(updateQuotaOnly);
    }

    method RetryMessages()
      modifies this`outInflight, this`log
      ensures View() == RetryCheck(old(View()))
    {
      hide Retrying, RetryLog;
      ghost var ms, log0 := outInflight, log;
      StartRetry(ms, log);
      var i := 0;
      while i < |outInflight|
        invariant 0 <= i <= |outInflight| == |ms|
        invariant i < |ms| ==> outInflight[i] == ms[i]
        invariant Retrying(ms, i, outInflight, log0, log)
      {
        var msg := outInflight[i];
        ghost var cur, log1 := outInflight, log;
        RetryNext(ms, i, cur, log0, log1, if Retried(msg) then [RetryEvent(msg)] else []);
        if msg.state == PublishQos1 || msg.state == PublishQos2 {
          outInflight := outInflight[i := msg.(dup := true)];
          log := log + [PublishSent(msg.serial, true, true)];
        } else if msg.state == WaitForPubrel {
          outInflight := outInflight[i := msg.(dup := true)];
          log := log + [PubrecSent(msg.mid)];
        } else if msg.state == ResendPubrel || msg.state == WaitForPubcomp {
          outInflight := outInflight[i := msg.(dup := true)];
          log := log + [PubrelSent(msg.mid)];
        }
        assert outInflight == cur[i := RetryOne(msg)];
        assert log == log1 + if Retried(msg) then [RetryEvent(msg)] else [];
        RetryUntouched(ms, i, outInflight, log0, log);
        i := i + 1;
      }
      EndRetry(ms, outInflight, log0, log);
    }

    // ----- API calls and handlers

    method PublishMessage(qos: nat, sends: nat) returns (rc: Rc)
      requires lastMid < 0x1_0000 && qos <= 2
      modifies this
      ensures View() == Publish(old(View()), qos, sends)
      ensures lastMid < 0x1_0000
      ensures rc == if EndsUnsent(log) then NoConn else Success
    {
      hide Release, Enqueue, NextMid;
      if qos == 0 {
        var mid := MidGenerate();
        var ok := sockOpen && sends > 0;
        log := log + [PublishSent(nextSerial, false, ok)];
        nextSerial := nextSerial + 1;
        return if ok then Success else NoConn;
      }
      QueueMessage(qos);
      ReleaseEnds(outInflight, outQuota, if sockOpen then sends else 0);
      rc := ReleaseToInflight(sends);
    }

    /** The new message, and the part of message__queue before the release. */
    method QueueMessage(qos: nat)
      requires lastMid < 0x1_0000
      modifies this
      ensures View() == Enqueue(old(View()), qos) && lastMid < 0x1_0000
      ensures log == old(log) + [Queued(old(nextSerial))]
    {
      var mid := MidGenerate();
      outInflight := outInflight + [Message(nextSerial, mid, qos, Invalid, false)];
      outQueueLen := outQueueLen + 1;
      log := log + [Queued(nextSerial)];
      nextSerial := nextSerial + 1;
    }

    method HandlePubackComp(qos: nat, body: AckBody, sends: nat) returns (rc: Rc)
      modifies this
      ensures (View(), rc) == PubackComp(old(View()), qos, body, sends)
    {
      hide Release, IndexOf;
      if state != Active {
        return Protocol;
      }
      if body.BadFlags? {
        return MalformedPacket;
      }
      IncrementSendQuota();
      if body.BadBody? {
        return MalformedPacket;
      }
      var message;
      rc, message := Remove(true, body.mid, qos);
      if rc == Success {
        log := log + [Completed(message.value.serial)];
      } else if rc != NotFound {
        return;
      }
      var _ := ReleaseToInflight(sends);
      rc := Success;
    }

    method HandlePubrec(body: AckBody, sends: nat) returns (rc: Rc)
      modifies this
      ensures (View(), rc) == Pubrec(old(View()), body, sends)
    {
      hide Release, IndexOf, SetState, RemoveMid;
      if state != Active {
        return Protocol;
      }
      if !body.Ack? {
        return MalformedPacket;
      }
      if body.reason < 0x80 || !v5 {
        rc := OutUpdate(body.mid, WaitForPubcomp, 2);
      } else {
        RejectPublish(body.mid, sends);
        return Success;
      }
      if rc != NotFound && rc != Success {
        return;
      }
      log := log + [PubrelSent(body.mid)];
      rc := Success;
    }

    /** The part of handle__pubrec for a reason code that says failure. */
    method RejectPublish(mid: nat, sends: nat)
      modifies this
      ensures var s := old(View());
              var s1 := if LookupRc(s.msgsOut.inflight, mid, 2) == Success then Complete(s, mid) else s;
              View() == ReleaseOut(s1.(msgsOut := Increment(s1.msgsOut)), sends)
    {
      hide Release, IndexOf, LookupRc;
      var rc, message := Remove(true, mid, 2);
      if rc == Success {
        log := log + [Completed(message.value.serial)];
      }
      IncrementSendQuota();
      var _ := ReleaseToInflight(sends);
    }

    method HandlePublish(qos: nat, mid: nat, sendOk: bool) returns (rc: Rc)
      modifies this
      ensures (View(), rc) == Incoming(old(View()), qos, mid, sendOk)
    {
      if state != Active {
        return Protocol;
      }
      if qos > 0 {
        if v5 && inQuota == 0 {
          return Protocol;
        }
        if mid == 0 {
          return Protocol;
        }
      }
      rc := if sendOk then Success else SendError;
      match qos {
        case 0 =>
          log := log + [Delivered(nextSerial, 0)];
          rc := Success;
        case 1 =>
          DecrementReceiveQuota();
          IncrementReceiveQuota();
          log := log + [PubackSent(mid)];
          log := log + [Delivered(nextSerial, 1)];
        case 2 =>
          DecrementReceiveQuota();
          log := log + [PubrecSent(mid)];
          inInflight := inInflight + [Message(nextSerial, mid, 2, WaitForPubrel, false)];
          inQueueLen := inQueueLen + 1;
          log := log + [Stored(nextSerial)];
        case _ =>
          return Protocol;
      }
      nextSerial := nextSerial + 1;
      assert log == Incoming(old(View()), qos, mid, sendOk).0.log;
    }

    method HandlePubrel(body: AckBody, sendOk: bool) returns (rc: Rc)
      modifies this
      ensures (View(), rc) == Pubrel(old(View()), body, sendOk)
    {
      hide IndexOf;
      if state != Active {
        return Protocol;
      }
      if !body.Ack? {
        return MalformedPacket;
      }
      IncrementReceiveQuota();
      log := log + [PubcompSent(body.mid, sendOk)];
      var message;
      rc, message := Remove(false, body.mid, 2);
      if rc == Success {
        log := log + [if sendOk then Delivered(message.value.serial, 2) else Dropped(message.value.serial)];
      }
      if !sendOk {
        return SendError;
      }
      if rc == NotFound {
        return Success;
      }
    }

    method HandleConnack(reason: nat, receiveMaximum: Option<nat>) returns (rc: Rc)
      modifies this
      ensures (View(), rc) == Connack(old(View()), reason, receiveMaximum)
    {
      if receiveMaximum.Some? {
        outMaximum := receiveMaximum.value;
      }
      outQuota := outMaximum;
      ReconnectReset(true);
      if reason == 0 {
        if state != Disconnecting {
          state := Active;
        }
        RetryMessages();
        return Success;
      }
      return if reason <= 5 then ConnRefused else Protocol;
    }

    method ReconnectClient(outcome: ConnectOutcome, receiveMaximum: Option<nat>)
      modifies this
      ensures View() == Reconnect(old(View()), outcome, receiveMaximum)
    {
      ReconnectReset(false);
      sockOpen := false;
      if outcome == Refused {
        state := ConnectPending;
        return;
      }
      sockOpen := true;
      state := Connected;
      if v5 && receiveMaximum.Some? {
        inMaximum := receiveMaximum.value;
        inQuota := receiveMaximum.value;
      }
      if outcome == ConnectNotSent {
        sockOpen := false;
        state := New;
      }
    }

    // ----- loop.c

    /** mosquitto__loop_rc_handle, called with what the handler of a packet has returned. */
    method CloseOnError(rc: Rc)
      modifies this`sockOpen
      ensures View() == LoopRcHandle((old(View()), rc))
    {
      if rc != Success {
        sockOpen := false;
      }
    }

    /** One turn of mosquitto_loop_read for a packet of the given kind: the transition system takes the same step. */
    method ReadOne(step: Step)
      requires sockOpen && !step.DoPublish? && !step.SocketLost? && !step.DoReconnect?
      modifies this
      ensures View() == Next(old(View()), step)
    {
      hide PubackComp, Pubrec, Incoming, Pubrel, Connack, LoopRcHandle;
      var rc;
      match step {
        case OnPuback(body, sends) => rc := HandlePubackComp(1, body, sends);
        case OnPubcomp(body, sends) => rc := HandlePubackComp(2, body, sends);
        case OnPubrec(body, sends) => rc := HandlePubrec(body, sends);
        case OnPublish(qos, mid, sendOk) => rc := HandlePublish(qos, mid, sendOk);
        case OnPubrel(body, sendOk) => rc := HandlePubrel(body, sendOk);
        case OnConnack(reason, max) => rc := HandleConnack(reason, max);
      }
      CloseOnError(rc);
    }
  }
}
