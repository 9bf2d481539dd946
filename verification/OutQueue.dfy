/**
 packet__queue, packet__write and packet__cleanup_all: the linked list of outgoing packets,
 written to a socket that may take any number of bytes at a time.
 */
module OutQueue {
  import opened Basics
  import opened Wire

  datatype WriteResult = Accepts(n: nat) | WouldBlock | ConnLost

  datatype SendRc = Ok | NoConn | Lost

  class OutPacket {
    const bytes: seq<byte>
    const mid: nat
    var pos: nat
    var toProcess: nat
    var next: OutPacket?

    constructor (bytes: seq<byte>, mid: nat)
      ensures this.bytes == bytes && this.mid == mid && pos == 0 && toProcess == |bytes| && next == null
    {
      this.bytes, this.mid, pos, toProcess, next := bytes, mid, 0, |bytes|, null;
    }

    predicate Started()
      reads this
    {
      pos + toProcess == |bytes|
    }
  }

  /** What is kept of a packet once it has been freed. */
  datatype Sent = Sent(bytes: seq<byte>, mid: nat)

  function Packets(list: seq<OutPacket>): seq<Sent> {
    seq(|list|, i requires 0 <= i < |list| => Sent(list[i].bytes, list[i].mid))
  }

  function Packet(p: OutPacket?): seq<Sent> {
    if p == null then [] else [Sent(p.bytes, p.mid)]
  }

  function Bytes(ps: seq<Sent>): seq<byte> {
    if ps == [] then [] else Bytes(ps[..|ps| - 1]) + ps[|ps| - 1].bytes
  }

  /** command & 0xF6 == CMD_PUBLISH: a PUBLISH of QoS 0, whatever its DUP and RETAIN bits. */
  predicate IsQos0Publish(bytes: seq<byte>) {
    bytes != [] && bytes[0] / 16 == 3 && bytes[0] / 2 % 4 == 0
  }

  predicate IsDisconnect(bytes: seq<byte>) {
    bytes != [] && bytes[0] / 16 == 14
  }

  /** The mids of the QoS 0 PUBLISH packets, in order. */
  function Published(ps: seq<Sent>): seq<nat> {
    if ps == [] then []
    else Published(ps[..|ps| - 1]) + if IsQos0Publish(ps[|ps| - 1].bytes) then [ps[|ps| - 1].mid] else []
  }

  /** The first bytes of these packets. */
  lemma FirstBytes(bytes: seq<byte>)
    requires bytes != []
    ensures IsQos0Publish(bytes) <==> bytes[0] in {0x30, 0x31, 0x38, 0x39}
    ensures IsDisconnect(bytes) <==> 0xE0 <= bytes[0] <= 0xEF
  {
  }

  lemma PacketsAppend(list: seq<OutPacket>, p: OutPacket)
    ensures Packets(list + [p]) == Packets(list) + [Sent(p.bytes, p.mid)]
  {
  }

  lemma PacketsFirst(list: seq<OutPacket>)
    requires list != []
    ensures Packets(list) == Packet(list[0]) + Packets(list[1..])
  {
  }

  /** One more packet written in full. */
  lemma OneMore(ps: seq<Sent>, p: Sent)
    ensures Bytes(ps + [p]) == Bytes(ps) + p.bytes
    ensures Published(ps + [p]) == Published(ps) + if IsQos0Publish(p.bytes) then [p.mid] else []
  {
    assert (ps + [p])[..|ps|] == ps;
  }

  /** The nodes of a packet list, its last node and its length. */
  predicate Linked(list: seq<OutPacket>, first: OutPacket?, last: OutPacket?, count: int)
    reads list
  {
    && first == (if list == [] then null else list[0])
    && (list != [] ==> last == list[|list| - 1] && list[|list| - 1].next == null)
    && (forall i :: 0 <= i < |list| - 1 ==> list[i].next == list[i + 1])
    && (forall i, j :: 0 <= i < j < |list| ==> list[i] != list[j])
    && (forall i :: 0 <= i < |list| ==> list[i].pos == 0 && list[i].Started())
    && count == |list|
  }

  /** Taking the first node off the list. */
  lemma LinkedTail(list: seq<OutPacket>, first: OutPacket, last: OutPacket?, count: int)
    requires Linked(list, first, last, count)
    ensures list != [] && first == list[0] && first !in list[1..] && first.pos == 0 && first.Started()
    ensures first.next == null <==> list[1..] == []
    ensures Linked(list[1..], first.next, last, count - 1)
    ensures first.next == null ==> Linked(list[1..], first.next, null, count - 1)
  {
    var rest := list[1..];
    if rest != [] {
      assert list[0].next == list[1];
    }
    assert forall i :: 0 <= i < |rest| ==> rest[i] == list[i + 1];
  }

  lemma EmptyList(list: seq<OutPacket>, last: OutPacket?, count: int)
    requires Linked(list, null, last, count)
    ensures list == [] && Packets(list) == []
  {
  }

  /** The answers of net__write that take at least one byte. */
  predicate AllMove(answers: seq<WriteResult>) {
    forall i :: 0 <= i < |answers| ==> answers[i].Accepts? && answers[i].n > 0
  }

  /** The next answer is would-block; when no answer is left the socket blocks. */
  predicate Blocks(answers: seq<WriteResult>) {
    answers == [] || answers[0].WouldBlock? || answers[0] == Accepts(0)
  }

  /** The answer after `moves` ends the writing: would-block is no error, a lost connection is one. */
  predicate Halts(answers: seq<WriteResult>, moves: nat, rc: SendRc, rest: seq<WriteResult>) {
    && moves <= |answers| && rest == answers[Min(moves + 1, |answers|)..]
    && (rc == Ok || rc == Lost)
    && (rc == Ok <==> Blocks(answers[moves..]))
    && (rc == Lost <==> moves < |answers| && answers[moves].ConnLost?)
  }

  lemma NothingMoved(answers: seq<WriteResult>)
    ensures AllMove(answers[..0]) && answers == answers[0..]
  {
  }

  lemma OneMove(answers: seq<WriteResult>, moves: nat)
    requires moves < |answers| && AllMove(answers[..moves]) && answers[moves].Accepts? && answers[moves].n > 0
    ensures AllMove(answers[..moves + 1]) && answers[moves..][1..] == answers[moves + 1..]
  {
  }

  lemma MoreMoves(answers: seq<WriteResult>, moves: nat, more: nat)
    requires moves + more <= |answers| && AllMove(answers[..moves]) && AllMove(answers[moves..][..more])
    ensures AllMove(answers[..moves + more]) && answers[moves..][more..] == answers[moves + more..]
  {
    assert answers[..moves + more] == answers[..moves] + answers[moves..][..more];
  }

  lemma FirstOf(list: seq<OutPacket>, first: OutPacket?, last: OutPacket?, count: int)
    requires Linked(list, first, last, count)
    ensures first == if list == [] then null else list[0]
  {
  }

  class Sender {
    var sockOpen: bool
    var connectPending: bool
    var current: OutPacket?
    var outPacket: OutPacket?
    var outPacketLast: OutPacket?
    var outPacketCount: int

    /** What the socket will answer, the bytes it has taken, and the on_publish callbacks made. */
    var schedule: seq<WriteResult>
    var accepted: seq<byte>
    var onPublish: seq<nat>

    // The list from outPacket on, the packets written in full, and all packets queued since the last cleanup.
    ghost var list: seq<OutPacket>
    ghost var done: seq<Sent>
    ghost var queued: seq<Sent>

    ghost function Partial(): seq<byte>
      reads this, current
    {
      if current == null || current.pos > |current.bytes| then [] else current.bytes[..current.pos]
    }

    /** Bytes are neither lost, repeated nor reordered, and each finished QoS 0 PUBLISH was reported once. */
    ghost predicate Conserved()
      reads this, current, list
    {
      && queued == done + Packet(current) + Packets(list)
      && accepted == Bytes(done) + Partial()
      && onPublish == Published(done)
    }

    ghost predicate Valid()
      reads this, current, list
    {
      && Linked(list, outPacket, outPacketLast, outPacketCount)
      && (current != null ==> current !in list && current.Started())
      && Conserved()
    }

    constructor (schedule: seq<WriteResult>)
      ensures Valid() && queued == [] && accepted == [] && list == []
    {
      sockOpen, connectPending, current, outPacket, outPacketLast, outPacketCount := true, false, null, null, null, 0;
      this.schedule, accepted, onPublish := schedule, [], [];
      list, done, queued := [], [], [];
    }

    /** The pointer updates of packet__queue. */
    method Append(packet: OutPacket)
      requires Linked(list, outPacket, outPacketLast, outPacketCount)
      requires packet !in list && packet.pos == 0 && packet.Started()
      modifies this`outPacket, this`outPacketLast, this`outPacketCount, list, packet`next
      ensures Linked(list + [packet], outPacket, outPacketLast, outPacketCount)
    {
      ghost var next := list + [packet];
      packet.next := null;
      if outPacket != null {
        outPacketLast.next := packet;
      } else {
        outPacket := packet;
      }
      outPacketLast := packet;
      outPacketCount := outPacketCount + 1;
      assert forall i :: 0 <= i < |list| ==> next[i].next == next[i + 1];
    }

    /** packet__queue up to the call of packet__write. */
    method Enqueue(packet: OutPacket)
      requires Valid() && packet != current && packet !in list && packet.bytes != []
      modifies this, list, packet
      ensures Valid() && list == old(list) + [packet]
      ensures queued == old(queued) + [Sent(packet.bytes, packet.mid)]
      ensures accepted == old(accepted) && current == old(current) && done == old(done)
      ensures schedule == old(schedule) && sockOpen == old(sockOpen) && connectPending == old(connectPending)
    {
      hide Bytes, Published, Packets, Linked;
      packet.pos := 0;
      packet.toProcess := |packet.bytes|;
      Append(packet);
      PacketsAppend(list, packet);
      list := list + [packet];
      queued := queued + [Sent(packet.bytes, packet.mid)];
    }

    /** The next packet of the list, if any, becomes current_out_packet. */
    method TakeNext()
      requires Linked(list, outPacket, outPacketLast, outPacketCount) && current == null && queued == done + Packets(list)
      requires accepted == Bytes(done) && onPublish == Published(done)
      modifies this`current, this`outPacket, this`outPacketLast, this`outPacketCount, this`list
      ensures Valid() && queued == old(queued) && done == old(done)
      ensures list == if old(list) == [] then [] else old(list)[1..]
      ensures current == old(outPacket)
    {
      hide Bytes, Published, Packets, Linked;
      current := outPacket;
      if outPacket != null {
        LinkedTail(list, outPacket, outPacketLast, outPacketCount);
        PacketsFirst(list);
        outPacket := outPacket.next;
        if outPacket == null {
          outPacketLast := null;
        }
        outPacketCount := outPacketCount - 1;
        list := list[1..];
        assert Partial() == [];
      } else {
        EmptyList(list, outPacketLast, outPacketCount);
      }
      assert queued == done + (Packet(current) + Packets(list));
      assert accepted == Bytes(done) + [];
    }

    /** net__write: the socket takes a first part of the data, or none. */
    method NetWrite(data: seq<byte>) returns (r: WriteResult)
      requires data != []
      modifies this`schedule, this`accepted
      ensures r.WouldBlock? <==> Blocks(old(schedule))
      ensures r.ConnLost? <==> old(schedule) != [] && old(schedule)[0].ConnLost?
      ensures r.Accepts? ==> old(schedule)[0].Accepts? && r.n == Min(old(schedule)[0].n, |data|) > 0
      ensures accepted == old(accepted) + if r.Accepts? then data[..r.n] else []
      ensures schedule == if old(schedule) == [] then [] else old(schedule)[1..]
    {
      if schedule == [] {
        return WouldBlock;
      }
      r := schedule[0];
      schedule := schedule[1..];
      if r.Accepts? {
        if r.n == 0 {
          return WouldBlock;
        }
        r := Accepts(Min(r.n, |data|));
        accepted := accepted + data[..r.n];
      }
    }

    /** One call of net__write for the rest of the current packet. */
    method WriteSome() returns (r: WriteResult)
      requires Valid() && current != null && current.toProcess > 0
      modifies this`schedule, this`accepted, current`pos, current`toProcess
      ensures Valid()
      ensures r.WouldBlock? <==> Blocks(old(schedule))
      ensures r.ConnLost? <==> old(schedule) != [] && old(schedule)[0].ConnLost?
      ensures r.Accepts? ==> old(schedule)[0].Accepts? && r.n == Min(old(schedule)[0].n, old(current.toProcess)) > 0
      ensures var n := if r.Accepts? then r.n else 0;
              current.toProcess == old(current.toProcess) - n && |accepted| == |old(accepted)| + n
      ensures schedule == if old(schedule) == [] then [] else old(schedule)[1..]
    {
      hide Bytes, Published, Linked, Packets, Packet;
      ghost var before, pos := accepted, current.pos;
      r := NetWrite(current.bytes[current.pos..]);
      if r.Accepts? {
        current.toProcess := current.toProcess - r.n;
        current.pos := current.pos + r.n;
        assert accepted == Bytes(done) + (current.bytes[..pos] + current.bytes[pos..][..r.n]);
        assert current.bytes[..pos] + current.bytes[pos..][..r.n] == Partial();
      } else {
        assert before + [] == before;
      }
    }

    /**
     The inner loop of packet__write: the bytes of the current packet.  It stops when they are
     all written, or at the first answer that takes none; `moves` answers before took some.
     */
    method WriteCurrent() returns (finished: bool, rc: SendRc, ghost moves: nat)
      requires Valid() && current != null
      modifies this`schedule, this`accepted, current`pos, current`toProcess
      ensures Valid()
      ensures moves <= |old(schedule)| && AllMove(old(schedule)[..moves]) && |accepted| >= |old(accepted)| + moves
      ensures finished <==> current.toProcess == 0
      ensures finished ==> rc == Ok && schedule == old(schedule)[moves..]
      ensures !finished ==> Halts(old(schedule), moves, rc, schedule)
    {
      hide Linked, Conserved, AllMove;
      moves := 0;
      NothingMoved(schedule);
      while current.toProcess > 0
        invariant Valid()
        invariant moves <= |old(schedule)| && AllMove(old(schedule)[..moves]) && schedule == old(schedule)[moves..]
        invariant |accepted| >= |old(accepted)| + moves
        decreases current.toProcess
      {
        var r := WriteSome();
        match r {
          case Accepts(_) =>
            OneMove(old(schedule), moves);
            moves := moves + 1;
          case WouldBlock =>
            return false, Ok, moves;
          case ConnLost =>
            return false, Lost, moves;
        }
      }
      finished, rc := true, Ok;
    }

    /** The current packet is complete: report it, free it and move on. */
    method Finish()
      requires Valid() && current != null && current.toProcess == 0
      modifies this
      ensures Valid() && queued == old(queued) && accepted == old(accepted)
      ensures list == if old(list) == [] then [] else old(list)[1..]
      ensures current == old(outPacket)
      ensures sockOpen == (old(sockOpen) && !IsDisconnect(old(current.bytes)))
      ensures done == old(done) + [Sent(old(current).bytes, old(current).mid)]
      ensures schedule == old(schedule) && connectPending == old(connectPending)
    {
      hide Bytes, Published, Packets, Linked;
      ghost var sent := Sent(current.bytes, current.mid);
      assert Partial() == current.bytes;
      OneMore(done, sent);
      if IsQos0Publish(current.bytes) {
        onPublish := onPublish + [current.mid];
      } else if IsDisconnect(current.bytes) {
        sockOpen := false; // do_client_disconnect
      }
      assert done + Packet(current) == done + [sent];
      current := null;
      done := done + [sent];
      assert queued == done + Packets(list);
      TakeNext();
    }

    /**
     packet__write.  With an open socket it goes on until everything is written, an answer of
     net__write takes no byte, or a DISCONNECT has been written; `moves` answers took bytes.
     */
    method Write() returns (rc: SendRc, ghost moves: nat)
      requires Valid()
      modifies this, current, list
      ensures Valid() && queued == old(queued) && connectPending == old(connectPending)
      ensures rc == NoConn <==> !old(sockOpen)
      ensures !old(sockOpen) || connectPending ==>
        && sockOpen == old(sockOpen) && schedule == old(schedule) && accepted == old(accepted) && onPublish == old(onPublish)
      ensures old(sockOpen) && connectPending ==> rc == Ok
      ensures old(sockOpen) && !connectPending ==> Written(old(schedule), |old(accepted)|, rc, moves)
    {
      hide Bytes, Published, Packets, Linked, Written;
      moves := 0;
      if !sockOpen {
        return NoConn, moves;
      }
      FirstOf(list, outPacket, outPacketLast, outPacketCount);
      if outPacket != null && current == null {
        assert done + Packet(current) == done;
        assert accepted == Bytes(done) + [];
        TakeNext();
      }
      if connectPending {
        return Ok, moves;
      }
      rc, moves := WriteAll();
    }

    /** The outer loop of packet__write. */
    method WriteAll() returns (rc: SendRc, ghost moves: nat)
      requires Valid() && sockOpen && !connectPending && (current == null ==> list == [])
      modifies this, current, list
      ensures Valid() && queued == old(queued) && !connectPending && rc != NoConn
      ensures Written(old(schedule), |old(accepted)|, rc, moves)
    {
      hide Bytes, Published, Packets, IsDisconnect, IsQos0Publish, Linked, AllMove;
      moves := 0;
      NothingMoved(schedule);
      while current != null
        invariant Valid() && queued == old(queued) && sockOpen && !connectPending
        invariant forall p :: p in list ==> p in old(list)
        invariant current != null ==> current == old(current) || current in old(list)
        invariant current == null ==> list == []
        invariant moves <= |old(schedule)| && AllMove(old(schedule)[..moves]) && schedule == old(schedule)[moves..]
        invariant |accepted| >= |old(accepted)| + moves
        decreases |list| + if current != null then 1 else 0
      {
        var finished;
        ghost var more, before := 0, schedule;
        finished, rc, more := WriteCurrent();
        MoreMoves(old(schedule), moves, more);
        moves := moves + more;
        if !finished {
          assert before[more..] == old(schedule)[moves..];
          return;
        }
        FirstOf(list, outPacket, outPacketLast, outPacketCount);
        Finish();
        if !sockOpen {
          return Ok, moves;
        }
      }
      rc := Ok;
    }

    /** How packet__write leaves an open socket, and what it has had of the answers. */
    ghost predicate Written(answers: seq<WriteResult>, before: nat, rc: SendRc, moves: nat)
      reads this
    {
      && moves <= |answers| && AllMove(answers[..moves]) && |accepted| >= before + moves
      && if !sockOpen then
           // A DISCONNECT was the last packet written.
           rc == Ok && schedule == answers[moves..] && done != [] && IsDisconnect(done[|done| - 1].bytes)
         else if current == null then
           rc == Ok && list == [] && schedule == answers[moves..]
         else
           Halts(answers, moves, rc, schedule)
    }

    /** Nothing is left over: every byte queued has been taken, and every QoS 0 PUBLISH reported. */
    lemma AllWritten()
      requires Valid() && current == null && list == []
      ensures accepted == Bytes(queued) && onPublish == Published(queued)
    {
      hide Bytes, Published;
      assert Packets(list) == [];
      assert done + Packet(current) + Packets(list) == done;
      assert accepted == Bytes(done) + [];
    }

    /** packet__queue; outside callbacks and without threads the packet is written at once. */
    method Queue(packet: OutPacket, deferred: bool) returns (rc: SendRc, ghost moves: nat)
      requires Valid() && packet != current && packet !in list && packet.bytes != []
      modifies this, current, list, packet
      ensures Valid() && queued == old(queued) + [Sent(packet.bytes, packet.mid)]
      ensures deferred ==> rc == Ok && accepted == old(accepted) && schedule == old(schedule)
      ensures !deferred ==> (rc == NoConn <==> !old(sockOpen))
      ensures !deferred && old(sockOpen && !connectPending) ==> Written(old(schedule), |old(accepted)|, rc, moves)
    {
      moves := 0;
      Enqueue(packet);
      if deferred {
        return Ok, moves;
      }
      rc, moves := Write();
    }

    /** packet__cleanup_all_no_locks: every packet is dropped; outPacketLast is left as it was. */
    method CleanupAll()
      requires Valid()
      modifies this
      ensures Valid() && current == null && list == [] && outPacketCount == 0
      ensures accepted == [] && queued == []
    {
      if outPacket != null && current == null {
        current := outPacket;
        outPacket := outPacket.next;
        list := list[1..];
      }
      while current != null
        invariant outPacket == if list == [] then null else list[0]
        invariant forall i :: 0 <= i < |list| - 1 ==> list[i].next == list[i + 1]
        invariant list != [] ==> list[|list| - 1].next == null
        invariant current == null ==> list == []
        decreases |list| + if current != null then 1 else 0
      {
        current := outPacket;
        if outPacket != null {
          outPacket := outPacket.next;
          list := list[1..];
        }
      }
      outPacketCount := 0;
      accepted, onPublish := [], [];
      done, queued := [], [];
    }
  }

  lemma {:induction false} BytesConcat(a: seq<Sent>, b: seq<Sent>)
    ensures Bytes(a + b) == Bytes(a) + Bytes(b)
    decreases |b|
  {
    if b == [] {
      assert a + b == a;
    } else {
      BytesConcat(a, b[..|b| - 1]);
      assert (a + b)[..|a + b| - 1] == a + b[..|b| - 1];
    }
  }

  /**
   Between any two calls: the bytes the socket has taken, the unsent rest of the current
   packet and the bytes of the list are the packets queued since the last cleanup, in order.
   */
  lemma PendingBytes(s: Sender)
    requires s.Valid()
    ensures s.accepted + (if s.current == null then [] else s.current.bytes[s.current.pos..]) + Bytes(Packets(s.list))
            == Bytes(s.queued)
  {
    hide Bytes, Published, Packets, Linked;
    BytesConcat(s.done + Packet(s.current), Packets(s.list));
    if s.current == null {
      assert s.done + Packet(s.current) == s.done;
    } else {
      OneMore(s.done, Sent(s.current.bytes, s.current.mid));
      assert s.current.bytes[..s.current.pos] + s.current.bytes[s.current.pos..] == s.current.bytes;
    }
  }
}
