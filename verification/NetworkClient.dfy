/** network_client.c: reading command frames from the connection into the ring. The connection
    is a stream of bytes, a schedule of what interrupts the reads, and what earlier reads left
    behind in the error indicator and in errno. */
module NetworkClient {
  import opened MachineTypes
  import opened RingModel
  import opened BufferManager

  /** What happens to one read: nothing, or it stops early after at most `got` bytes. */
  datatype Event = Whole | Interrupted(got: nat) | TimedOut(got: nat) | Failed(got: nat)

  /** The values of errno that read_data tells apart. */
  datatype Errno = EINTR | EAGAIN | OtherErrno

  /** The stream's error indicator, which a failing read sets and nothing clears, and the errno of
      the last call that failed. A read that meets the end of the file changes neither. */
  datatype Status = Status(error: bool, errno: Errno)

  datatype Condition = Complete | Eintr | Timeout | OtherError | EndOfFile

  datatype Input = Input(bytes: seq<byte>, events: seq<Event>, status: Status)

  datatype ReadResult = ReadResult(got: nat, rest: Input)

  function Min(a: nat, b: nat): nat {
    if a > b then b else a
  }

  function Noted(event: Event, status: Status): Status {
    match event
    case Whole => status
    case Interrupted(_) => Status(true, EINTR)
    case TimedOut(_) => Status(true, EAGAIN)
    case Failed(_) => Status(true, OtherErrno)
  }

  /** How read_data tells why a read is short: by the indicator first, then by errno. */
  function Why(full: bool, status: Status): Condition {
    if full then Complete
    else if !status.error then EndOfFile
    else
      match status.errno
      case EINTR => Eintr
      case EAGAIN => Timeout
      case OtherErrno => OtherError
  }

  /** One fread of `n` bytes: how many it delivers, from the front of the stream. At the end of
      the file it stays there: nothing happens to the stream any more. */
  function Read(input: Input, n: nat): (r: ReadResult)
    requires n > 0
    ensures r.got <= n && r.got <= |input.bytes| && r.rest.bytes == input.bytes[r.got..]
    ensures |r.rest.events| <= |input.events|
    ensures r.got < n ==> input.events == [] || |r.rest.events| < |input.events|
  {
    var event := if input.events == [] then Whole else input.events[0];
    var want := if event.Whole? then n else Min(event.got, n - 1);
    var got := Min(want, |input.bytes|);
    var ended := event.Whole? && got < n;
    var events := if ended || input.events == [] then [] else input.events[1..];
    ReadResult(got, Input(input.bytes[got..], events, Noted(event, input.status)))
  }

  class FileStream {
    var input: Input

    constructor (input: Input)
      ensures this.input == input
    {
      this.input := input;
    }

    /** The bytes read go to the front of the buffer; the rest of it keeps its content. */
    method Fread(buffer: array<byte>, n: int32) returns (got: int32)
      requires 0 < n as int <= buffer.Length
      modifies this, buffer
      ensures var r := Read(old(input), n as int);
              && got as int == r.got && input == r.rest
              && buffer[..] == Splice(old(buffer[..]), 0, old(input).bytes, 0, r.got)
    {
      var r := Read(input, n as int);
      var k := 0;
      while k < r.got
        invariant k <= r.got
        invariant buffer[..] == Splice(old(buffer[..]), 0, old(input).bytes, 0, k)
        invariant input == old(input)
      {
        buffer[k] := input.bytes[k];
        k := k + 1;
      }
      input := r.rest;
      return r.got as int32;
    }
  }

  const CLIENT_BUFF_SIZE: int32 := 32

  datatype Ending = Filled | Stopped | Exited | Spins

  datatype Progress = Progress(input: Input, buffer: seq<byte>, left: nat)

  datatype LoopResult = LoopResult(state: Progress, ending: Ending)

  predicate Running(p: Progress) {
    |p.buffer| == CLIENT_BUFF_SIZE as int && p.left > 0
  }

  /** The next read of the loop. */
  function NextRead(p: Progress): (r: ReadResult)
    requires Running(p)
    ensures r.got <= p.left && |r.rest.events| <= |p.input.events|
  {
    Read(p.input, Min(p.left, CLIENT_BUFF_SIZE as int))
  }

  /** What the loop makes of it. */
  function NextCondition(p: Progress): (c: Condition)
    requires Running(p)
    ensures c == Complete <==> NextRead(p).got == Min(p.left, CLIENT_BUFF_SIZE as int)
    ensures c == Eintr && p.input.events != [] ==> |NextRead(p).rest.events| < |p.input.events|
  {
    Why(NextRead(p).got == Min(p.left, CLIENT_BUFF_SIZE as int), NextRead(p).rest.status)
  }

  /** The state of the loop after it. */
  function AfterRead(p: Progress): (p': Progress)
    requires Running(p)
    ensures |p'.buffer| == |p.buffer|
    ensures p'.input == NextRead(p).rest && p'.left == p.left - NextRead(p).got
  {
    var r := NextRead(p);
    Progress(r.rest, Splice(p.buffer, 0, p.input.bytes, 0, r.got), p.left - r.got)
  }

  /** The reading loop. Every read starts again at the front of the buffer. With no event left, an
      interruption is only the errno of an earlier one, met again at the end of the file. */
  function ReadLoop(p: Progress): (r: LoopResult)
    requires |p.buffer| == CLIENT_BUFF_SIZE as int
    ensures |r.state.buffer| == |p.buffer| && r.state.left <= p.left
    ensures r.ending == Filled <==> r.state.left == 0
    decreases |p.input.events|, p.left
  {
    if p.left == 0 then LoopResult(p, Filled)
    else
      var p' := AfterRead(p);
      match NextCondition(p)
      case Complete => ReadLoop(p')
      case Eintr => if p.input.events == [] then LoopResult(p', Spins) else ReadLoop(p')
      case Timeout => LoopResult(p', Stopped)
      case EndOfFile => LoopResult(p', Stopped)
      case OtherError => LoopResult(p'.(left := p.left), Exited)
  }

  /** One turn of the loop. */
  lemma LoopStep(p: Progress)
    requires Running(p)
    ensures match NextCondition(p)
            case Complete => ReadLoop(p) == if AfterRead(p).left == 0 then LoopResult(AfterRead(p), Filled)
                                            else ReadLoop(AfterRead(p))
            case Eintr => ReadLoop(p) == if p.input.events == [] then LoopResult(AfterRead(p), Spins)
                                         else ReadLoop(AfterRead(p))
            case Timeout => ReadLoop(p) == LoopResult(AfterRead(p), Stopped)
            case EndOfFile => ReadLoop(p) == LoopResult(AfterRead(p), Stopped)
            case OtherError => ReadLoop(p).ending == Exited && ReadLoop(p).state.input == AfterRead(p).input
  {
  }

  function Clear(): (b: seq<byte>)
    ensures |b| == CLIENT_BUFF_SIZE as int
  {
    seq(CLIENT_BUFF_SIZE as int, _ => 0)
  }

  lemma AllZero(b: seq<byte>)
    requires |b| == CLIENT_BUFF_SIZE as int && forall k :: 0 <= k < |b| ==> b[k] == 0
    ensures b == Clear()
  {
  }

  /** A cleared buffer and a whole frame to read. */
  function Begin(input: Input): (p: Progress)
    ensures |p.buffer| == CLIENT_BUFF_SIZE as int
  {
    Progress(input, Clear(), CLIENT_BUFF_SIZE as int)
  }

  function ReadFrame(input: Input): (r: LoopResult)
    ensures |r.state.buffer| == CLIENT_BUFF_SIZE as int
  {
    ReadLoop(Begin(input))
  }

  // ---------------------------------------------------------------------------------------
  // When the loop ends
  // ---------------------------------------------------------------------------------------

  /** The loop goes on to another read after this one. */
  predicate GoesOn(p: Progress) {
    Running(p) && (NextCondition(p) == Eintr || (NextCondition(p) == Complete && AfterRead(p).left > 0))
  }

  /** The loop after up to `k` reads, as far as it goes on. */
  function AfterReads(p: Progress, k: nat): Progress
    decreases k
  {
    if k == 0 || !GoesOn(p) then p else AfterReads(AfterRead(p), k - 1)
  }

  /** At the end of the file every read leaves the same errno for the next. */
  lemma StaysAtTheEnd(p: Progress)
    requires Running(p) && p.input.events == [] && NextCondition(p) == Eintr
    ensures var p' := AfterRead(p);
            Running(p') && p'.input.events == [] && NextCondition(p') == Eintr
  {
    hide Splice;
  }

  /** A loop that spins reads once more and still spins. */
  lemma SpinsOn(p: Progress)
    requires |p.buffer| == CLIENT_BUFF_SIZE as int && ReadLoop(p).ending == Spins
    ensures GoesOn(p) && ReadLoop(AfterRead(p)).ending == Spins
  {
    LoopStep(p);
    if p.input.events == [] && NextCondition(p) == Eintr {
      StaysAtTheEnd(p);
      LoopStep(AfterRead(p));
    }
    hide ReadLoop, AfterRead, NextRead, NextCondition;
  }

  lemma {:induction false} SpinsForEver(p: Progress, k: nat)
    requires |p.buffer| == CLIENT_BUFF_SIZE as int && ReadLoop(p).ending == Spins
    ensures GoesOn(AfterReads(p, k))
    decreases k
  {
    SpinsOn(p);
    if k > 0 {
      SpinsForEver(AfterRead(p), k - 1);
    }
  }

  lemma {:induction false} EndsAfter(p: Progress) returns (k: nat)
    requires |p.buffer| == CLIENT_BUFF_SIZE as int && ReadLoop(p).ending != Spins
    ensures !GoesOn(AfterReads(p, k))
    decreases |p.input.events|, p.left
  {
    k := 0;
    if GoesOn(p) {
      LoopStep(p);
      k := EndsAfter(AfterRead(p));
      k := k + 1;
    }
  }

  /** `Spins` means what it says: from any state, the reading loop of read_data comes to an end
      after some number of reads if and only if its ending is not `Spins`. */
  lemma LoopEndsIff(p: Progress)
    requires |p.buffer| == CLIENT_BUFF_SIZE as int
    ensures (exists k: nat :: !GoesOn(AfterReads(p, k))) <==> ReadLoop(p).ending != Spins
  {
    if ReadLoop(p).ending == Spins {
      forall k: nat
        ensures GoesOn(AfterReads(p, k))
      {
        SpinsForEver(p, k);
      }
    } else {
      var k := EndsAfter(p);
    }
  }

  /** Only interruptions come before the first read that nothing cuts short. */
  predicate OnlyInterrupted(events: seq<Event>) {
    events == [] || events[0].Whole? || (events[0].Interrupted? && OnlyInterrupted(events[1..]))
  }

  /** The next read is interrupted, or an earlier one was and none failed otherwise since. */
  predicate Interruption(input: Input) {
    (input.events != [] && input.events[0].Interrupted?) || input.status == Status(true, EINTR)
  }

  /** The stream ends within the next `n` bytes, and when it does, the last read that failed was
      an interrupted one. */
  predicate RunsOut(input: Input, n: nat) {
    |input.bytes| < n && OnlyInterrupted(input.events) && Interruption(input)
  }

  lemma {:induction false} LoopSpinsIff(p: Progress)
    requires Running(p) && p.left <= CLIENT_BUFF_SIZE as int
    ensures ReadLoop(p).ending == Spins <==> RunsOut(p.input, p.left)
    decreases |p.input.events|
  {
    LoopStep(p);
    hide ReadLoop, Splice;
    if p.input.events != [] && NextCondition(p) == Eintr {
      LoopSpinsIff(AfterRead(p));
    }
  }

  /** The exact condition, before the call: reading a frame ends, after some number of reads,
      unless the stream runs out within the frame, after interruptions only, with EINTR still the
      last errno. */
  lemma ReadFrameEndsIff(input: Input)
    ensures (exists k: nat :: !GoesOn(AfterReads(Begin(input), k))) <==> !RunsOut(input, CLIENT_BUFF_SIZE as int)
    ensures ReadFrame(input).ending == Spins <==> RunsOut(input, CLIENT_BUFF_SIZE as int)
  {
    LoopEndsIff(Begin(input));
    LoopSpinsIff(Begin(input));
  }

  /** One interrupted read that delivers nothing, and then the end of the connection: however many
      reads are made, the whole frame is still to come and the loop goes on. */
  lemma InterruptedThenClosed(errno: Errno, k: nat)
    ensures var p := AfterReads(Begin(Input([], [Interrupted(0)], Status(false, errno))), k);
            GoesOn(p) && p.left == CLIENT_BUFF_SIZE as int
  {
    var p := Begin(Input([], [Interrupted(0)], Status(false, errno)));
    LoopSpinsIff(p);
    SpinsForEver(p, k);
    NothingDelivered(p, k);
  }

  lemma {:induction false} NothingDelivered(p: Progress, k: nat)
    requires p.input.bytes == []
    ensures AfterReads(p, k).left == p.left
    decreases k
  {
    if k > 0 && GoesOn(p) {
      NothingDelivered(AfterRead(p), k - 1);
    }
  }

  // ---------------------------------------------------------------------------------------
  // The receive step
  // ---------------------------------------------------------------------------------------

  /** read_data, on a stream for which its loop ends: -1 and no push when the frame is incomplete,
      otherwise 0 and one item pushed. */
  method ReadData(fp: FileStream, info: BufferInfo, buff: array<byte>, len: int32)
    returns (code: int32, exited: bool)
    requires 0 <= len
    requires info.Describes(buff)
    requires ReadLoop(Progress(fp.input, Clear(), len as int)).ending != Spins
    requires ReadLoop(Progress(fp.input, Clear(), len as int)).ending == Filled && !IsFull(info.View(buff)) ==>
               info.elementLength <= CLIENT_BUFF_SIZE && info.tail as int + info.elementLength as int <= buff.Length
    modifies fp, info`tail, buff
    ensures var r := ReadLoop(Progress(old(fp.input), Clear(), len as int));
            && (exited <==> r.ending == Exited)
            && fp.input == r.state.input
            && info.Describes(buff)
            && if r.ending == Filled
               then code == 0 && info.View(buff) == PushItem(old(info.View(buff)), r.state.buffer).ring
               else code == -1 && info.View(buff) == old(info.View(buff))
  {
    hide PushItem, Splice, IsFull, Read, Clear;
    var totalLen := len;
    var buffer := new byte[CLIENT_BUFF_SIZE as int](_ => 0);
    AllZero(buffer[..]);
    while totalLen != 0
      invariant 0 <= totalLen && fresh(buffer) && buffer.Length == CLIENT_BUFF_SIZE as int
      invariant ReadLoop(Progress(fp.input, buffer[..], totalLen as int))
             == ReadLoop(Progress(old(fp.input), Clear(), len as int))
      invariant info.Describes(buff) && info.View(buff) == old(info.View(buff))
      decreases |fp.input.events|, totalLen
    {
      ghost var p := Progress(fp.input, buffer[..], totalLen as int);
      LoopStep(p);
      hide ReadLoop;
      var readLen := if totalLen > CLIENT_BUFF_SIZE then CLIENT_BUFF_SIZE else totalLen;
      var got := fp.Fread(buffer, readLen);
      assert Progress(fp.input, buffer[..], (totalLen - got) as int) == AfterRead(p);
      assert NextCondition(p) == Why(got == readLen, fp.input.status);
      hide NextRead, NextCondition, AfterRead;
      if got < readLen {
        if fp.input.status.error {
          if fp.input.status.errno == EINTR {
          } else if fp.input.status.errno == EAGAIN {
            totalLen := totalLen - got;
            break;
          } else {
            return -1, true;
          }
        } else {
          totalLen := totalLen - got;
          break;
        }
      }
      totalLen := totalLen - got;
    }
    if totalLen != 0 {
      return -1, false;
    }
    var pushed := PushCircleBuffItem(info, buff, buffer);
    return 0, false;
  }

  datatype Receipt = Receipt(ring: Ring, input: Input, exited: bool)

  /** A receive step on a live connection: nothing is read while the ring is full, otherwise one
      frame is attempted and, if it completes, pushed. */
  function Receive(r: Ring, input: Input): (res: Receipt)
    requires Valid(r)
    requires IsFull(r) || !RunsOut(input, CLIENT_BUFF_SIZE as int)
    requires ReadFrame(input).ending == Filled && !IsFull(r) ==>
               r.e <= CLIENT_BUFF_SIZE as int && r.tail + r.e <= |r.buf|
  {
    if IsFull(r) then Receipt(r, input, false)
    else
      var l := ReadFrame(input);
      Receipt(if l.ending == Filled then PushItem(r, l.state.buffer).ring else r, l.state.input, l.ending == Exited)
  }

  /** network_rcv is that step. */
  method NetworkRcv(fp: FileStream, info: BufferInfo, buff: array<byte>) returns (exited: bool)
    requires info.Describes(buff)
    requires IsFull(info.View(buff)) || !RunsOut(fp.input, CLIENT_BUFF_SIZE as int)
    requires ReadFrame(fp.input).ending == Filled && !IsFull(info.View(buff)) ==>
               info.elementLength <= CLIENT_BUFF_SIZE && info.tail as int + info.elementLength as int <= buff.Length
    modifies fp, info`tail, buff
    ensures info.Describes(buff)
    ensures Receive(old(info.View(buff)), old(fp.input)) == Receipt(info.View(buff), fp.input, exited)
    ensures IsFull(old(info.View(buff))) ==>
              !exited && fp.input == old(fp.input) && info.View(buff) == old(info.View(buff))
    ensures !IsFull(old(info.View(buff))) ==>
              var r := ReadFrame(old(fp.input));
              && (exited <==> r.ending == Exited) && fp.input == r.state.input
              && info.View(buff) == if r.ending == Filled
                                    then PushItem(old(info.View(buff)), r.state.buffer).ring
                                    else old(info.View(buff))
  {
    var full := IsBuffFull(info, buff);
    if full != 0 {
      return false;
    }
    LoopSpinsIff(Begin(fp.input));
    var code: int32;
    code, exited := ReadData(fp, info, buff, CLIENT_BUFF_SIZE);
  }

  // ---------------------------------------------------------------------------------------
  // When a received frame is the next frame of the stream
  // ---------------------------------------------------------------------------------------

  /** The bytes counted between two states of the loop are those taken off the stream. */
  predicate Consumed(p: Progress, s: Progress) {
    && s.left <= p.left && p.left - s.left <= |p.input.bytes|
    && s.input.bytes == p.input.bytes[p.left - s.left..]
  }

  lemma ReadIsConsumed(p: Progress)
    requires Running(p)
    ensures Consumed(p, AfterRead(p))
  {
    hide Splice;
  }

  lemma NothingConsumed(p: Progress)
    requires |p.buffer| == CLIENT_BUFF_SIZE as int && p.left == 0
    ensures ReadLoop(p) == LoopResult(p, Filled) && Consumed(p, p)
  {
    assert p.input.bytes[0..] == p.input.bytes;
  }

  lemma ConsumedTwice(p: Progress, m: Progress, s: Progress)
    requires Consumed(p, m) && Consumed(m, s)
    ensures Consumed(p, s)
  {
    assert p.input.bytes[p.left - m.left..][m.left - s.left..] == p.input.bytes[p.left - s.left..];
  }

  /** Unless the program ends, the loop takes exactly the bytes it counted off the stream. So a
      frame that is given up half-way takes its first bytes with it. */
  lemma {:induction false} LoopConsumes(p: Progress)
    requires |p.buffer| == CLIENT_BUFF_SIZE as int
    ensures ReadLoop(p).ending != Exited ==> Consumed(p, ReadLoop(p).state)
    decreases |p.input.events|, p.left
  {
    hide ReadLoop, AfterRead, NextRead, Consumed, Splice;
    if p.left == 0 {
      NothingConsumed(p);
    } else {
      LoopStep(p);
      ReadIsConsumed(p);
      var p' := AfterRead(p);
      if NextCondition(p) == Complete || (NextCondition(p) == Eintr && p.input.events != []) {
        LoopConsumes(p');
        if ReadLoop(p').ending != Exited {
          ConsumedTwice(p, p', ReadLoop(p').state);
        }
      }
    }
  }

  /** Once part of the frame is read, the last byte of the buffer is never written again. */
  lemma {:induction false} LastByteKept(p: Progress)
    requires |p.buffer| == CLIENT_BUFF_SIZE as int && p.left < CLIENT_BUFF_SIZE as int
    ensures ReadLoop(p).state.buffer[CLIENT_BUFF_SIZE as int - 1] == p.buffer[CLIENT_BUFF_SIZE as int - 1]
    decreases |p.input.events|, p.left
  {
    if GoesOn(p) && p.input.events != [] {
      LastByteKept(AfterRead(p));
    }
  }

  /** Only interruptions that delivered no byte come before the read that succeeds. */
  predicate CleanSchedule(events: seq<Event>) {
    events == [] || events[0].Whole? || (events[0] == Interrupted(0) && CleanSchedule(events[1..]))
  }

  /** The frame read is the next frame of the stream, and the stream moves on by one frame. */
  predicate DeliversFrame(input: Input)
    requires |input.bytes| >= CLIENT_BUFF_SIZE as int
  {
    var r := ReadFrame(input);
    && r.ending == Filled
    && r.state.buffer == input.bytes[..CLIENT_BUFF_SIZE as int]
    && r.state.input.bytes == input.bytes[CLIENT_BUFF_SIZE as int..]
  }

  /** An interruption that delivered nothing leaves only its errno behind. */
  function Skipped(input: Input): Input
    requires input.events != []
  {
    Input(input.bytes, input.events[1..], Noted(input.events[0], input.status))
  }

  lemma NothingReadYet(input: Input)
    requires input.events != [] && input.events[0] == Interrupted(0)
    ensures ReadFrame(input) == ReadFrame(Skipped(input))
  {
    LoopStep(Begin(input));
    SpliceNone(Clear(), 0, input.bytes, 0);
    assert input.bytes[0..] == input.bytes;
    assert AfterRead(Begin(input)) == Begin(Skipped(input));
  }

  lemma {:induction false} CleanDelivers(input: Input)
    requires |input.bytes| >= CLIENT_BUFF_SIZE as int && CleanSchedule(input.events)
    ensures DeliversFrame(input)
    decreases |input.events|
  {
    if input.events == [] || input.events[0].Whole? {
      assert AfterRead(Begin(input)).buffer == input.bytes[..CLIENT_BUFF_SIZE as int];
      LoopStep(Begin(input));
    } else {
      NothingReadYet(input);
      CleanDelivers(Skipped(input));
    }
  }

  /** With any other schedule, a stream of ones is not delivered as it is. */
  lemma {:induction false} UncleanLoses(input: Input)
    requires input.bytes == seq(CLIENT_BUFF_SIZE as int, _ => 1) && !CleanSchedule(input.events)
    ensures !DeliversFrame(input)
    decreases |input.events|
  {
    if input.events[0] == Interrupted(0) {
      NothingReadYet(input);
      UncleanLoses(Skipped(input));
    } else if input.events[0].Interrupted? {
      LastByteKept(AfterRead(Begin(input)));
    }
  }

  /** For any schedule of interruptions, whatever happened before: every long enough stream is
      delivered frame by frame if and only if no interrupted read had already delivered bytes, and
      none timed out or failed first. */
  lemma FrameIntactIff(events: seq<Event>, status: Status)
    ensures (forall bytes: seq<byte> :: |bytes| >= CLIENT_BUFF_SIZE as int ==>
               DeliversFrame(Input(bytes, events, status))) <==> CleanSchedule(events)
  {
    hide DeliversFrame, CleanSchedule;
    if CleanSchedule(events) {
      forall bytes: seq<byte> | |bytes| >= CLIENT_BUFF_SIZE as int
        ensures DeliversFrame(Input(bytes, events, status))
      {
        CleanDelivers(Input(bytes, events, status));
      }
    } else {
      UncleanLoses(Input(seq(CLIENT_BUFF_SIZE as int, _ => 1), events, status));
    }
  }
}
