/**
 packet__read: cutting the byte stream into packets (section 2.1.4 of MQTT v5.0), with a
 socket that may deliver any number of bytes at a time, none, or an error.
 */
module Framing {
  import opened Wire

  datatype Frame = Frame(command: byte, body: seq<byte>)

  datatype Length = NeedMore | TooLong | Length(value: nat, rest: seq<byte>)

  function AddDigit(acc: nat, digit: byte, mult: nat): nat {
    acc + digit % 128 * mult
  }

  /** The remaining length field, `k` digits of which have been added up to `acc`. */
  function LengthField(s: seq<byte>, k: nat, acc: nat, mult: nat): (r: Length)
    ensures r.Length? ==> |r.rest| < |s|
    decreases |s|
  {
    if s == [] then NeedMore
    else if k >= 4 then TooLong
    else if s[0] < 128 then Length(AddDigit(acc, s[0], mult), s[1..])
    else LengthField(s[1..], k + 1, AddDigit(acc, s[0], mult), mult * 128)
  }

  /** The in_packet fields: `count` is remaining_count, `acc` and `mult` belong to the length, `todo` and `body` to the body. */
  datatype State = State(command: byte, count: int, acc: nat, mult: nat, todo: nat, body: seq<byte>)

  /** As packet__cleanup leaves them. */
  const CLEAN := State(0, 0, 0, 1, 0, [])

  /** What becomes of the packet being read, given all the bytes that follow. */
  datatype Cut = Partial | Broken | Whole(frame: Frame, rest: seq<byte>)

  function CutBody(command: byte, body: seq<byte>, todo: nat, s: seq<byte>): (r: Cut)
    ensures r.Whole? ==> |r.rest| <= |s|
  {
    if |s| < todo then Partial else Whole(Frame(command, body + s[..todo]), s[todo..])
  }

  function CutFrom(command: byte, st: State, s: seq<byte>): (r: Cut)
    ensures r.Whole? ==> |r.rest| <= |s|
  {
    if st.count > 0 then CutBody(command, st.body, st.todo, s)
    else
      match LengthField(s, -st.count, st.acc, st.mult)
      case NeedMore => Partial
      case TooLong => Broken
      case Length(value, rest) => CutBody(command, [], value, rest)
  }

  datatype Outcome = Outcome(frames: seq<Frame>, malformed: bool)

  /** The frames already handled, followed by those of the bytes still to come. */
  function Then(handled: seq<Frame>, rest: Outcome): Outcome {
    Outcome(handled + rest.frames, rest.malformed)
  }

  /** The whole stream parsed in one go; an incomplete packet at the end yields nothing. */
  function Frames(s: seq<byte>): Outcome
    decreases |s|
  {
    if s == [] then Outcome([], false)
    else
      match CutFrom(s[0], CLEAN, s[1..])
      case Partial => Outcome([], false)
      case Broken => Outcome([], true)
      case Whole(frame, rest) => Then([frame], Frames(rest))
  }

  /** What is read in the end when the packet being read is cut off like this. */
  function After(cut: Cut): Outcome {
    match cut
    case Partial => Outcome([], false)
    case Broken => Outcome([], true)
    case Whole(frame, rest) => Then([frame], Frames(rest))
  }

  /** What packet__read makes of the bytes still to come: with a zero command it takes the next byte as the command. */
  function Resumed(st: State, s: seq<byte>): Outcome {
    if st.command != 0 then After(CutFrom(st.command, st, s))
    else if s == [] then Outcome([], false)
    else After(CutFrom(s[0], st, s[1..]))
  }

  lemma ResumedClean(s: seq<byte>)
    ensures Resumed(CLEAN, s) == Frames(s)
  {
  }

  /** Every packet of the stream starts with a byte other than zero. */
  predicate NonZeroStarts(s: seq<byte>)
    decreases |s|
  {
    s != [] ==>
      && s[0] != 0
      && match CutFrom(s[0], CLEAN, s[1..])
         case Whole(_, rest) => NonZeroStarts(rest)
         case _ => true
  }

  predicate NonZeroAfter(cut: Cut) {
    cut.Whole? ==> NonZeroStarts(cut.rest)
  }

  /** The same for a stream of which part has been read. */
  predicate NonZeroFrom(st: State, s: seq<byte>) {
    if st.command != 0 then NonZeroAfter(CutFrom(st.command, st, s))
    else s != [] ==> s[0] != 0 && NonZeroAfter(CutFrom(s[0], st, s[1..]))
  }

  lemma NonZeroClean(s: seq<byte>)
    ensures NonZeroFrom(CLEAN, s) <==> NonZeroStarts(s)
  {
  }

  // ----- Reading on

  /** A byte of the length field has been read. */
  lemma DigitRead(command: byte, st: State, b: byte, s: seq<byte>)
    requires -4 <= st.count <= 0
    ensures CutFrom(command, st, [b] + s)
            == if st.count == -4 then Broken
               else if b < 128 then CutBody(command, [], AddDigit(st.acc, b, st.mult), s)
               else CutFrom(command, st.(count := st.count - 1, acc := AddDigit(st.acc, b, st.mult), mult := st.mult * 128), s)
  {
    assert ([b] + s)[1..] == s;
  }

  /** A piece of the body has been read. */
  lemma PieceRead(command: byte, body: seq<byte>, todo: nat, data: seq<byte>, s: seq<byte>)
    requires |data| <= todo
    ensures CutBody(command, body, todo, data + s) == CutBody(command, body + data, todo - |data|, s)
  {
    if |data + s| >= todo {
      assert (data + s)[..todo] == data + s[..todo - |data|];
      assert (data + s)[todo..] == s[todo - |data|..];
      assert body + (data + s[..todo - |data|]) == body + data + s[..todo - |data|];
    }
  }

  function Zeros(n: nat): (s: seq<byte>)
    ensures |s| == n && forall i :: 0 <= i < n ==> s[i] == 0
  {
    seq(n, _ => 0)
  }

  /**
   packet__read can stop after the command byte, inside the length field, or inside the body.
   At each of these places it goes on as the one-shot parser would, whatever follows,
   exactly when the command byte of the packet is not zero.
   */
  lemma ResumesIff(command: byte, st: State)
    requires -4 <= st.count && (st.count > 0 ==> st.todo > 0)
    ensures (forall s :: Resumed(st.(command := command), s) == After(CutFrom(command, st, s))) <==> command != 0
  {
    if command == 0 {
      var s := if st.count > 0 then Zeros(st.todo) else if st.count == -4 then [0] else [0] + Zeros(st.acc);
      if st.count > 0 {
        assert CutFrom(0, st, s).Whole? && CutFrom(s[0], st, s[1..]) == Partial;
      } else {
        DigitRead(0, st, 0, s[1..]);
        assert s == [0] + s[1..];
        if st.count > -4 && st.acc > 0 {
          DigitRead(0, st, 0, s[1..][1..]);
          assert s[1..] == [0] + s[1..][1..];
        }
        assert CutFrom(s[0], st, s[1..]) == Partial;
      }
      assert Resumed(st.(command := 0), s) == Outcome([], false);
      assert After(CutFrom(0, st, s)) != Outcome([], false);
    } else {
      forall s ensures Resumed(st.(command := command), s) == After(CutFrom(command, st, s)) {
        assert CutFrom(command, st.(command := command), s) == CutFrom(command, st, s);
      }
    }
  }

  // ----- packet__read

  datatype Status = Ok | Malformed | ConnLost | Errno

  /** The answers of net__read: would-block and interrupted are Error(Ok); at the end of file errno is left over. */
  datatype ReadResult = Bytes(n: nat) | Eof(errno: Status) | Error(errno: Status)

  /** What the i-th call of net__read answers; when nothing more is scheduled it would block. */
  function Answer(schedule: seq<ReadResult>, i: nat): ReadResult {
    if i < |schedule| then schedule[i] else Error(Ok)
  }

  function From(schedule: seq<ReadResult>, i: nat): seq<ReadResult> {
    if i <= |schedule| then schedule[i..] else []
  }

  /** The error code for an errno; none of them is that of a malformed packet. */
  function Code(errno: Status): Status {
    if errno == Malformed then Errno else errno
  }

  /** The call has stopped because of this answer: no bytes, the end of the file, or an error. */
  predicate StoppedBy(answer: ReadResult, stream: seq<byte>, rc: Status, inBody: bool) {
    match answer
    case Bytes(n) => (n == 0 || stream == []) && rc == Ok
    case Eof(errno) => rc == if inBody then Code(errno) else ConnLost
    case Error(errno) => rc == Code(errno)
  }

  /** Answers that deliver bytes, and the end of the schedule, stop a call without an error. */
  lemma DeliversOk(schedule: seq<ReadResult>)
    ensures (forall i :: 0 <= i < |schedule| ==> schedule[i].Bytes? && schedule[i].n > 0) ==>
              forall i: nat, stream, rc, inBody {:trigger StoppedBy(Answer(schedule, i), stream, rc, inBody)} ::
                StoppedBy(Answer(schedule, i), stream, rc, inBody) ==> rc == Ok
  {
  }

  lemma NoTurn(schedule: seq<ReadResult>)
    ensures From(schedule, 0) == schedule
  {
  }

  lemma NextTurn(schedule: seq<ReadResult>, i: nat)
    ensures Answer(From(schedule, i), 0) == Answer(schedule, i) && From(From(schedule, i), 1) == From(schedule, i + 1)
  {
  }

  lemma TurnsAdd(schedule: seq<ReadResult>, i: nat, j: nat)
    ensures From(From(schedule, i), j) == From(schedule, i + j)
    ensures j > 0 ==> Answer(From(schedule, i), j - 1) == Answer(schedule, i + j - 1)
  {
  }

  class Reader {
    // The in_packet fields of struct mosquitto.
    var command: byte
    var remainingCount: int
    var remainingMult: nat
    var remainingLength: nat
    var toProcess: nat
    var pos: nat
    var payload: array<byte>

    // The network: bytes on their way, and what the calls of net__read will answer.
    var stream: seq<byte>
    var schedule: seq<ReadResult>

    /** The packets given to handle__packet. */
    var handled: seq<Frame>

    ghost const input: seq<byte>

    predicate Fields()
      reads this, payload
    {
      && pos <= payload.Length
      && (remainingCount <= 0 ==> -4 <= remainingCount && toProcess == 0 && pos == 0)
      && (remainingCount > 0 ==> pos + toProcess == payload.Length)
    }

    /** Between two calls. */
    predicate Settled()
      reads this, payload
    {
      Fields() && (remainingCount > 0 ==> toProcess > 0)
    }

    ghost function Now(): State
      requires Fields()
      reads this, payload
    {
      State(command, remainingCount, remainingLength, remainingMult, toProcess, payload[..pos])
    }

    /** What has been handled and what will be, if nothing is forgotten from now on. */
    ghost function Total(): Outcome
      requires Fields()
      reads this, payload
    {
      Then(handled, Resumed(Now(), stream))
    }

    ghost predicate Valid()
      reads this, payload
    {
      Settled() && Total() == Frames(input)
    }

    constructor (input: seq<byte>, schedule: seq<ReadResult>)
      ensures Valid() && Now() == CLEAN && handled == [] && stream == input == this.input
      ensures this.schedule == schedule && fresh(payload)
    {
      command, remainingCount, remainingMult, remainingLength, toProcess, pos := 0, 0, 1, 0, 0, 0;
      payload := new byte[0];
      this.stream, this.schedule, this.handled := input, schedule, [];
      this.input := input;
      new;
      ResumedClean(input);
      assert [] + Frames(input).frames == Frames(input).frames;
    }

    /** The next call of net__read finds no bytes. */
    predicate Blocks(i: nat)
      reads this
    {
      i >= |schedule| || schedule[i] == Error(Ok)
    }

    /** Every call of net__read delivers at least a byte, until all have been delivered. */
    predicate Deliverable()
      reads this`stream, this`schedule
    {
      |schedule| >= |stream| && forall i :: 0 <= i < |schedule| ==> schedule[i].Bytes? && schedule[i].n > 0
    }

    /** net__read */
    method NetRead(count: nat) returns (data: seq<byte>, rc: Status, eof: bool)
      requires count > 0
      modifies this`stream, this`schedule
      ensures |data| <= count && old(stream) == data + stream
      ensures data != [] ==> rc == Ok && !eof
      ensures rc != Malformed
      ensures schedule == From(old(schedule), 1)
      ensures data == [] ==> StoppedBy(Answer(old(schedule), 0), stream, if eof then ConnLost else rc, false)
      ensures data == [] ==> StoppedBy(Answer(old(schedule), 0), stream, rc, true)
      ensures data != [] ==> Answer(old(schedule), 0).Bytes?
      ensures old(Deliverable()) ==> Deliverable() && (data == [] ==> stream == [])
      ensures old(Blocks(0)) ==> data == [] && rc == Ok && !eof
      ensures old(schedule != [] && schedule[0].Bytes? && schedule[0].n > 0 && stream != []) ==> data != []
    {
      data, rc, eof := [], Ok, false;
      if schedule == [] {
        return;
      }
      var r := schedule[0];
      schedule := schedule[1..];
      match r {
        case Bytes(n) =>
          var m := if n > count then count else n;
          if m > |stream| { m := |stream|; }
          data := stream[..m];
          stream := stream[m..];
        case Eof(errno) =>
          eof, rc := true, Code(errno);
        case Error(errno) =>
          rc := Code(errno);
      }
    }

    /** packet__cleanup */
    method Cleanup()
      modifies this`command, this`remainingCount, this`remainingMult, this`remainingLength, this`toProcess, this`pos,
               this`payload
      ensures fresh(payload) && Settled() && Now() == CLEAN
    {
      command, remainingCount, remainingMult, remainingLength, toProcess, pos := 0, 0, 1, 0, 0, 0;
      payload := new byte[0];
    }

    /** One turn of the length loop; `got` when a byte has arrived. */
    method ReadDigit() returns (rc: Status, got: bool, b: byte)
      requires Fields() && remainingCount <= 0
      modifies this`remainingCount, this`remainingLength, this`remainingMult, this`stream, this`schedule
      ensures schedule == From(old(schedule), 1) && (old(Blocks(0)) ==> !got && rc == Ok)
      ensures !got ==>
        && rc != Malformed && b >= 128 && Fields() && Now() == old(Now()) && stream == old(stream)
        && StoppedBy(Answer(old(schedule), 0), stream, rc, false)
      ensures got ==> rc in {Ok, Malformed} && |stream| < |old(stream)|
      ensures rc == Malformed ==> CutFrom(command, old(Now()), old(stream)) == Broken
      ensures got && rc == Ok ==>
        && remainingCount == old(remainingCount) - 1 >= -4 && Fields()
        && CutFrom(command, old(Now()), old(stream))
           == if b >= 128 then CutFrom(command, Now(), stream) else CutBody(command, [], remainingLength, stream)
      ensures old(Deliverable()) ==> Deliverable() && (!got ==> stream == [])
    {
      hide CutFrom, LengthField, AddDigit;
      b := 128;
      var data, eof;
      data, rc, eof := NetRead(1);
      got := data != [];
      if !got {
        assert [] + stream == stream;
        rc := if eof then ConnLost else rc;
        return;
      }
      b := data[0];
      DigitRead(command, old(Now()), b, stream);
      assert data == [b];
      remainingCount := remainingCount - 1;
      if remainingCount < -4 {
        rc := Malformed;
        return;
      }
      remainingLength := AddDigit(remainingLength, b, remainingMult);
      remainingMult := remainingMult * 128;
    }

    /** The length loop; `done` when the last digit has been read. */
    method ReadLength() returns (rc: Status, done: bool, ghost turns: nat)
      requires Fields() && remainingCount <= 0
      modifies this`remainingCount, this`remainingLength, this`remainingMult, this`toProcess, this`payload,
               this`stream, this`schedule
      ensures payload == old(payload) || fresh(payload)
      ensures rc == Malformed ==> CutFrom(command, old(Now()), old(stream)) == Broken
      ensures rc != Malformed ==>
        && Fields() && (remainingCount > 0 <==> done)
        && CutFrom(command, Now(), stream) == CutFrom(command, old(Now()), old(stream))
      ensures schedule == From(old(schedule), turns) && |stream| <= |old(stream)|
      ensures rc != Malformed && !done ==> turns > 0 && StoppedBy(Answer(old(schedule), turns - 1), stream, rc, false)
      ensures done ==> rc == Ok && |stream| < |old(stream)|
      ensures old(Deliverable()) ==> Deliverable() && (rc != Malformed && !done ==> stream == [])
      ensures old(Blocks(0)) ==>
        && rc == Ok && !done && payload == old(payload) && Now() == old(Now())
        && stream == old(stream) && schedule == From(old(schedule), 1)
    {
      hide CutFrom, LengthField, AddDigit, StoppedBy, Answer, From;
      ghost var cut := CutFrom(command, Now(), stream);
      done, turns := false, 0;
      NoTurn(schedule);
      var b: byte := 128;
      while b >= 128
        invariant payload == old(payload) && pos == 0 && toProcess == 0 && -4 <= remainingCount <= 0
        invariant schedule == From(old(schedule), turns) && |stream| + turns <= |old(stream)|
        invariant turns == 0 ==> Now() == old(Now()) && stream == old(stream) && b >= 128
        invariant old(Deliverable()) ==> Deliverable()
        invariant old(Blocks(0)) ==> turns == 0
        invariant if b >= 128 then CutFrom(command, Now(), stream) == cut
                  else remainingCount < 0 && CutBody(command, [], remainingLength, stream) == cut
        decreases 4 + remainingCount, b
      {
        NextTurn(old(schedule), turns);
        turns := turns + 1;
        var got;
        rc, got, b := ReadDigit();
        if !got || rc == Malformed {
          return;
        }
      }
      remainingCount := -remainingCount;
      payload := new byte[remainingLength];
      toProcess := remainingLength;
      rc, done := Ok, true;
      assert payload[..pos] == [];
      BodyCut(command, Now(), stream);
    }

    /** The body loop; `done` when the packet is complete. */
    method ReadBody() returns (rc: Status, done: bool, ghost turns: nat)
      requires Fields() && remainingCount > 0
      modifies this`stream, this`schedule, this`toProcess, this`pos, payload
      ensures Fields() && rc != Malformed && (done <==> toProcess == 0)
      ensures CutFrom(command, Now(), stream) == old(CutFrom(command, Now(), stream))
      ensures schedule == From(old(schedule), turns) && |stream| <= |old(stream)| - (old(toProcess) - toProcess)
      ensures !done ==> turns > 0 && StoppedBy(Answer(old(schedule), turns - 1), stream, rc, true)
      ensures done ==> rc == Ok
      ensures old(Deliverable()) ==> Deliverable() && (!done ==> stream == [])
    {
      hide CutFrom, CutBody;
      turns := 0;
      while toProcess > 0
        invariant Fields() && CutFrom(command, Now(), stream) == old(CutFrom(command, Now(), stream))
        invariant schedule == From(old(schedule), turns) && |stream| <= |old(stream)| - (old(toProcess) - toProcess)
        invariant old(Deliverable()) ==> Deliverable()
      {
        NextTurn(old(schedule), turns);
        turns := turns + 1;
        ghost var st := Now();
        BodyCut(command, st, stream);
        var data, eof;
        data, rc, eof := NetRead(toProcess);
        if data == [] {
          assert [] + stream == stream;
          return rc, false, turns;
        }
        PieceRead(command, st.body, st.todo, data, stream);
        Store(data);
        BodyCut(command, Now(), stream);
      }
      rc, done := Ok, true;
    }

    method Store(data: seq<byte>)
      requires Fields() && remainingCount > 0 && |data| <= toProcess
      modifies this`toProcess, this`pos, payload
      ensures Fields() && toProcess == old(toProcess) - |data| && payload[..pos] == old(payload[..pos]) + data
    {
      forall i | 0 <= i < |data| {
        payload[pos + i] := data[i];
      }
      toProcess := toProcess - |data|;
      pos := pos + |data|;
    }

    /** The call would block right after the command byte. */
    predicate BlocksAfterCommand()
      reads this
    {
      && command == 0 && remainingCount <= 0 && stream != []
      && schedule != [] && schedule[0].Bytes? && schedule[0].n > 0 && Blocks(1)
    }

    /** A call has completed a packet, for which it needed at least one byte. */
    ghost predicate HandledOne(before: seq<Frame>, bytes: seq<byte>, rc: Status)
      requires Settled()
      reads this, payload
    {
      rc == Ok && Now() == CLEAN && |handled| == |before| + 1 && handled[..|before|] == before && |stream| < |bytes|
    }

    /** A call has stopped inside a packet, and the answer to its last net__read is the reason. */
    predicate StoppedShort(before: seq<Frame>, answers: seq<ReadResult>, turns: nat, rc: Status, first: byte)
      reads this
    {
      && handled == before && turns > 0
      && StoppedBy(Answer(answers, turns - 1), stream, rc, remainingCount > 0 && (first != 0 || turns > 1))
    }

    /** The command byte, if it has not been read yet. */
    method ReadCommand() returns (rc: Status, got: bool, ghost turns: nat)
      requires Settled()
      modifies this`command, this`stream, this`schedule
      ensures Settled() && schedule == From(old(schedule), turns) && turns <= 1 && (turns == 0 <==> old(command) != 0)
      ensures got ==> Now() == old(Now()).(command := command) && |old(stream)| >= turns && stream == old(stream)[turns..]
      ensures got ==> command == if old(command) != 0 then old(command) else old(stream)[0]
      ensures !got ==> rc != Malformed && turns == 1 && Now() == old(Now()) && stream == old(stream)
      ensures !got ==> StoppedBy(Answer(old(schedule), 0), stream, rc, false)
      ensures old(Deliverable()) ==> Deliverable() && (!got ==> stream == [])
      ensures old(BlocksAfterCommand()) ==> got && turns == 1 && Blocks(0)
    {
      rc, got, turns := Ok, true, 0;
      NoTurn(schedule);
      if command == 0 {
        turns := 1;
        var data, eof;
        data, rc, eof := NetRead(1);
        got := data != [];
        if !got {
          assert [] + stream == stream;
          rc := if eof then ConnLost else rc;
          return;
        }
        command := data[0];
        assert data == [command] && old(stream)[1..] == stream;
      }
    }

    /** Length and body; `done` when the packet is complete. */
    method ReadRest() returns (rc: Status, done: bool, ghost turns: nat)
      requires Settled()
      modifies this`remainingCount, this`remainingLength, this`remainingMult, this`toProcess, this`pos, this`payload,
               this`stream, this`schedule, payload
      ensures payload == old(payload) || fresh(payload)
      ensures schedule == From(old(schedule), turns)
      ensures rc == Malformed ==> CutFrom(command, old(Now()), old(stream)) == Broken
      ensures rc != Malformed ==> Fields() && CutFrom(command, Now(), stream) == old(CutFrom(command, Now(), stream))
      ensures rc != Malformed && !done ==>
        && Settled() && turns > 0 && StoppedBy(Answer(old(schedule), turns - 1), stream, rc, remainingCount > 0)
      ensures done ==> rc == Ok && remainingCount > 0 && toProcess == 0 && |stream| < |old(stream)|
      ensures old(Deliverable()) ==> Deliverable() && (rc != Malformed && !done ==> stream == [])
      ensures old(Blocks(0)) && old(remainingCount) <= 0 ==>
        && rc == Ok && !done && Now() == old(Now()) && stream == old(stream) && schedule == From(old(schedule), 1)
    {
      hide CutFrom, StoppedBy, Answer, From;
      turns := 0;
      NoTurn(schedule);
      if remainingCount <= 0 {
        rc, done, turns := ReadLength();
        if rc == Malformed || !done {
          return;
        }
      }
      ghost var more;
      rc, done, more := ReadBody();
      TurnsAdd(old(schedule), turns, more);
      turns := turns + more;
    }

    /**
     packet__read, called when the socket is readable.  Unless it stops inside a packet whose
     command byte is zero (`forgot`), what has been and will be handled stays the same.
     */
    method ReadPacket() returns (rc: Status, ghost forgot: bool, ghost turns: nat)
      requires Settled()
      modifies this, payload
      ensures payload == old(payload) || fresh(payload)
      ensures rc == Malformed ==> !forgot && old(Total()) == Outcome(handled, true)
      ensures rc != Malformed ==> Settled()
      ensures rc != Malformed && !forgot ==> Total() == old(Total())
      ensures forgot ==>
        && rc != Malformed && command == 0 && handled == old(handled)
        && old(Total()) == Then(handled, After(CutFrom(0, Now(), stream)))
      ensures NonZeroFrom(old(Now()), old(stream)) ==> !forgot && (rc != Malformed ==> NonZeroFrom(Now(), stream))
      ensures schedule == From(old(schedule), turns)
      ensures rc != Malformed ==>
        HandledOne(old(handled), old(stream), rc) || StoppedShort(old(handled), old(schedule), turns, rc, old(command))
      ensures old(Deliverable()) ==> Deliverable() && (rc != Malformed ==> handled != old(handled) || stream == [])
      ensures old(BlocksAfterCommand()) ==>
        && rc == Ok && Now() == old(Now()).(command := old(stream)[0]) && handled == old(handled)
        && stream == old(stream)[1..] && schedule == From(old(schedule), 2)
    {
      hide CutFrom, Frames, NonZeroStarts, StoppedBy, Answer, From, Deliverable;
      forgot := false;
      var got;
      NextTurn(old(schedule), 1);
      rc, got, turns := ReadCommand();
      if !got {
        return;
      }
      CommandIrrelevant(command, Now(), 0, stream);
      assert old(Resumed(Now(), stream)) == After(CutFrom(command, Now(), stream));
      var done;
      ghost var more;
      rc, done, more := ReadRest();
      TurnsAdd(old(schedule), turns, more);
      turns := turns + more;
      if rc == Malformed {
        assert handled + [] == handled;
        return;
      }
      if !done {
        forgot := command == 0;
        return;
      }
      HandlePacket();
      rc := Ok;
    }

    /** A complete packet is handed on and the fields are reset. */
    method HandlePacket()
      requires Fields() && remainingCount > 0 && toProcess == 0
      modifies this`command, this`remainingCount, this`remainingMult, this`remainingLength, this`toProcess, this`pos,
               this`payload, this`handled
      ensures Settled() && fresh(payload) && Now() == CLEAN
      ensures handled == old(handled) + [Frame(old(command), old(payload[..]))]
      ensures Total() == old(Then(handled, After(CutFrom(command, Now(), stream))))
      ensures NonZeroAfter(old(CutFrom(command, Now(), stream))) ==> NonZeroFrom(Now(), stream)
    {
      hide CutFrom, Frames, NonZeroStarts, NonZeroFrom, Resumed;
      BodyCut(command, Now(), stream);
      ghost var f := Frame(command, payload[..]);
      assert payload[..pos] + stream[..0] == payload[..] && stream[0..] == stream;
      assert handled + ([f] + Frames(stream).frames) == handled + [f] + Frames(stream).frames;
      handled := handled + [Frame(command, payload[..])];
      Cleanup();
      ResumedClean(stream);
      NonZeroClean(stream);
    }

    /**
     mosquitto_loop_read: any number of calls of packet__read.  For every schedule, unless a
     call stops inside a packet with a zero command byte, the packets handled so far and the
     rejection of a fifth length byte are those of the one-shot parser on the whole stream.
     */
    method Pump(calls: nat) returns (rc: Status, ghost forgot: bool)
      requires Valid()
      modifies this, payload
      ensures NonZeroFrom(old(Now()), old(stream)) ==> !forgot
      ensures !forgot ==>
        && (rc == Malformed ==> Outcome(handled, true) == Frames(input))
        && (rc != Malformed ==> Valid())
        && (rc != Malformed && stream == [] ==> Outcome(handled, false) == Frames(input))
      ensures old(Deliverable()) && calls > |old(stream)| ==> rc == Malformed || (rc == Ok && stream == [])
      ensures old(Deliverable()) && calls > |old(stream)| && !forgot ==> Outcome(handled, rc == Malformed) == Frames(input)
    {
      hide NonZeroFrom, Resumed, Frames, StoppedBy, Answer;
      rc, forgot := Ok, false;
      var i := 0;
      while i < calls
        invariant Settled() && rc == Ok && (payload == old(payload) || fresh(payload))
        invariant !forgot ==> Total() == Frames(input)
        invariant NonZeroFrom(old(Now()), old(stream)) ==> !forgot && NonZeroFrom(Now(), stream)
        invariant old(Deliverable()) ==> Deliverable() && (stream == [] || |stream| + i <= |old(stream)|)
      {
        ghost var f;
        ghost var turns;
        DeliversOk(schedule);
        rc, f, turns := ReadPacket();
        forgot := forgot || f;
        if rc != Ok {
          break;
        }
        i := i + 1;
      }
      if rc != Malformed {
        NothingLeft(Now());
        assert handled + [] == handled;
      }
    }
  }

  lemma BodyCut(command: byte, st: State, s: seq<byte>)
    requires st.count > 0
    ensures CutFrom(command, st, s) == CutBody(command, st.body, st.todo, s)
  {
  }

  lemma CommandIrrelevant(command: byte, st: State, other: byte, s: seq<byte>)
    ensures CutFrom(command, st, s) == CutFrom(command, st.(command := other), s)
  {
  }

  lemma NothingLeft(st: State)
    requires -4 <= st.count && (st.count > 0 ==> st.todo > 0)
    ensures Resumed(st, []) == Outcome([], false)
  {
  }

  /** A reader that blocks after a zero command byte takes the rest of that packet for the start of another. */
  method ZeroCommandForgotten() returns (frames: seq<Frame>, parsed: Outcome)
    ensures frames == [] && parsed == Frames([0, 0]) == Outcome([Frame(0, [])], false)
  {
    var r := new Reader([0, 0], [Bytes(1), Error(Ok), Bytes(1)]);
    var rc;
    ghost var forgot, turns;
    rc, forgot, turns := r.ReadPacket();
    rc, forgot, turns := r.ReadPacket();
    assert r.stream == [];
    frames, parsed := r.handled, Frames([0, 0]);
    assert [0, 0][1..] == [0] && [0][1..] == [];
    assert LengthField([0], 0, 0, 1) == Length(0, []);
    assert CutFrom(0, CLEAN, [0]) == CutBody(0, [], 0, []) == Whole(Frame(0, []), []);
    assert parsed == Then([Frame(0, [])], Frames([]));
  }

  // ----- Framing inverts packet__alloc

  /** A packet as packet__alloc and the send functions lay it out. */
  function FrameBytes(f: Frame): seq<byte> {
    [f.command] + PutVarint(|f.body|) + f.body
  }

  predicate Sendable(fs: seq<Frame>) {
    forall i :: 0 <= i < |fs| ==> |fs[i].body| < VARINT_LIMIT
  }

  function StreamOf(fs: seq<Frame>): seq<byte> {
    if fs == [] then [] else FrameBytes(fs[0]) + StreamOf(fs[1..])
  }

  lemma {:induction false} LengthOfVarint(n: nat, rest: seq<byte>, k: nat, acc: nat, mult: nat)
    requires k + |PutVarint(n)| <= 4
    ensures LengthField(PutVarint(n) + rest, k, acc, mult) == Length(acc + mult * n, rest)
    decreases n
  {
    hide AddDigit, PutVarint;
    var s := PutVarint(n) + rest;
    VarintStep(n);
    if n >= 128 {
      assert s[0] == n % 128 + 128 && s[1..] == PutVarint(n / 128) + rest;
      Regroup(acc, mult, n);
      LengthOfVarint(n / 128, rest, k + 1, AddDigit(acc, s[0], mult), mult * 128);
    } else {
      assert s[0] == n && s[1..] == rest;
      Regroup(acc, mult, n);
    }
  }

  lemma VarintStep(n: nat)
    ensures PutVarint(n) == if n < 128 then [n] else [n % 128 + 128] + PutVarint(n / 128)
  {
  }

  lemma Regroup(acc: nat, mult: nat, n: nat)
    ensures n < 128 ==> AddDigit(acc, n, mult) == acc + mult * n
    ensures AddDigit(acc, n % 128 + 128, mult) + mult * 128 * (n / 128) == acc + mult * n
  {
    var q, r := n / 128, n % 128;
    assert (r + 128) % 128 == r && n == r + 128 * q;
    Distribute(mult, r, q);
  }

  lemma Distribute(mult: nat, r: nat, q: nat)
    ensures mult * (r + 128 * q) == r * mult + mult * 128 * q
  {
    assert mult * (r + 128 * q) == mult * r + mult * (128 * q);
    assert mult * (128 * q) == mult * 128 * q;
  }

  lemma FirstCut(f: Frame, rest: seq<byte>)
    requires |f.body| < VARINT_LIMIT
    ensures CutFrom(f.command, CLEAN, PutVarint(|f.body|) + (f.body + rest)) == Whole(f, rest)
  {
    hide PutVarint, LengthField;
    var n := |f.body|;
    VarintSize(n);
    LengthOfVarint(n, f.body + rest, 0, 0, 1);
    assert [] + (f.body + rest)[..n] == f.body && (f.body + rest)[n..] == rest;
  }

  lemma FirstFrame(f: Frame, rest: seq<byte>)
    requires |f.body| < VARINT_LIMIT
    ensures Frames(FrameBytes(f) + rest) == Then([f], Frames(rest))
  {
    hide PutVarint, CutFrom;
    FirstCut(f, rest);
    var s := FrameBytes(f) + rest;
    assert s[0] == f.command && s[1..] == PutVarint(|f.body|) + (f.body + rest);
  }

  /** Whatever packets are sent, the parser finds exactly these, in order, and then the rest. */
  lemma {:induction false} FramesOfStream(fs: seq<Frame>, rest: seq<byte>)
    requires Sendable(fs)
    ensures Frames(StreamOf(fs) + rest) == Then(fs, Frames(rest))
    decreases |fs|
  {
    hide Frames, FrameBytes;
    if fs == [] {
      assert StreamOf(fs) + rest == rest;
      assert fs + Frames(rest).frames == Frames(rest).frames;
    } else {
      FirstFrame(fs[0], StreamOf(fs[1..]) + rest);
      FramesOfStream(fs[1..], rest);
      assert StreamOf(fs) + rest == FrameBytes(fs[0]) + (StreamOf(fs[1..]) + rest);
      assert [fs[0]] + (fs[1..] + Frames(rest).frames) == fs + Frames(rest).frames;
    }
  }
}
