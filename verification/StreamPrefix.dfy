/** Which schedules of interruptions let the parent receive only what the PC sent, in order: the
    exact condition, over any number of receive steps. */
module StreamPrefix {
  import opened MachineTypes
  import opened RingModel
  import opened CommandFormat
  import opened NetworkClient
  import opened MainLoop

  predicate AllWellFormed(cs: seq<PcCommand>) {
    forall k :: 0 <= k < |cs| ==> WellFormed(cs[k])
  }

  /** A read fails, and so ends the program, before any read could complete. */
  predicate DeadEnd(events: seq<Event>) {
    events != [] && (events[0].Failed? || (!events[0].Whole? && DeadEnd(events[1..])))
  }

  /** No read is cut short after it delivered bytes, up to where nothing can complete any more. */
  predicate Harmless(events: seq<Event>) {
    || events == [] || DeadEnd(events)
    || ((events[0].Whole? || events[0].got == 0) && Harmless(events[1..]))
  }

  /** What `n` receive steps read of this stream is a prefix of it, command by command. */
  predicate ReceivesPrefix(cs: seq<PcCommand>, events: seq<Event>, status: Status, n: nat)
    requires AllWellFormed(cs)
  {
    Received(Input(EncodeAll(cs), events, status), n) <= cs
  }

  // ---------------------------------------------------------------------------------------
  // Single receive steps
  // ---------------------------------------------------------------------------------------

  function Later(events: seq<Event>): seq<Event> {
    if events == [] then [] else events[1..]
  }

  lemma WholeFrame(input: Input)
    requires input.events == [] || input.events[0].Whole?
    requires |input.bytes| >= FRAME_SIZE
    ensures var r := ReadFrame(input);
            && r.ending == Filled && r.state.buffer == input.bytes[..FRAME_SIZE]
            && r.state.input == Input(input.bytes[FRAME_SIZE..], Later(input.events), input.status)
  {
    assert AfterRead(Begin(input)).buffer == input.bytes[..FRAME_SIZE];
    LoopStep(Begin(input));
  }

  lemma EndOfStream(input: Input)
    requires input.bytes == [] && (input.events == [] || input.events[0].Whole?)
    ensures var r := ReadFrame(input);
            r.ending != Filled && (r.ending == Stopped ==> r.state.input == Input([], [], input.status))
  {
    LoopStep(Begin(input));
    if input.events != [] {
      LoopStep(AfterRead(Begin(input)));
    }
  }

  lemma {:induction false} NothingAfterTheEnd(input: Input, n: nat)
    requires input.bytes == [] && (input.events == [] || input.events[0].Whole?)
    ensures Frames(input, n) == []
    decreases n
  {
    hide ReadFrame;
    if n > 0 {
      EndOfStream(input);
      if ReadFrame(input).ending == Stopped {
        NothingAfterTheEnd(ReadFrame(input).state.input, n - 1);
      }
    }
  }

  /** A read that delivers nothing costs nothing, or one step. */
  lemma NothingRead(input: Input, n: nat)
    requires input.events != [] && !input.events[0].Whole? && !input.events[0].Failed? && input.events[0].got == 0
    ensures (input.events[0].Interrupted? ==> Frames(input, n) == Frames(Skipped(input), n))
         && (input.events[0].TimedOut? ==> Frames(input, n + 1) == Frames(Skipped(input), n))
  {
    if input.events[0].Interrupted? {
      NothingReadYet(input);
    } else {
      LoopStep(Begin(input));
      assert input.bytes[0..] == input.bytes;
      assert ReadFrame(input).ending == Stopped && ReadFrame(input).state.input == Skipped(input);
    }
  }

  lemma FramesStep(input: Input, n: nat)
    requires n > 0
    ensures var r := ReadFrame(input);
            && (r.ending == Filled ==> Frames(input, n) != [] && Frames(input, n)[0] == r.state.buffer)
            && (r.ending == Stopped ==> Frames(input, n) == Frames(r.state.input, n - 1))
            && (r.ending != Filled && r.ending != Stopped ==> Frames(input, n) == [])
  {
    hide ReadFrame;
  }

  lemma FirstReceived(input: Input, n: nat)
    requires n > 0 && ReadFrame(input).ending == Filled
    ensures var r := ReadFrame(input);
            Received(input, n) == [Decode(r.state.buffer)] + Received(r.state.input, n - 1)
  {
    hide ReadFrame, Decode;
    var r := ReadFrame(input);
    assert Frames(input, n)[1..] == Frames(r.state.input, n - 1);
  }

  lemma EncodeAllFirst(cs: seq<PcCommand>)
    requires AllWellFormed(cs) && cs != []
    ensures EncodeAll(cs)[..FRAME_SIZE] == Encode(cs[0]) && EncodeAll(cs)[FRAME_SIZE..] == EncodeAll(cs[1..])
  {
  }

  // ---------------------------------------------------------------------------------------
  // Harmless schedules
  // ---------------------------------------------------------------------------------------

  lemma {:induction false} DeadLoop(p: Progress)
    requires |p.buffer| == CLIENT_BUFF_SIZE as int && p.left > 0 && DeadEnd(p.input.events)
    ensures var r := ReadLoop(p);
            r.ending == Exited || (r.ending == Stopped && DeadEnd(r.state.input.events))
    decreases |p.input.events|
  {
    LoopStep(p);
    hide ReadLoop, Splice;
    if NextCondition(p) == Eintr {
      DeadLoop(AfterRead(p));
    }
  }

  lemma DeadFrame(input: Input)
    requires DeadEnd(input.events)
    ensures var r := ReadFrame(input);
            r.ending == Exited || (r.ending == Stopped && DeadEnd(r.state.input.events))
  {
    DeadLoop(Begin(input));
  }

  lemma {:induction false} DeadFrames(input: Input, n: nat)
    requires DeadEnd(input.events)
    ensures Frames(input, n) == []
    decreases n
  {
    hide ReadFrame, DeadEnd;
    if n > 0 {
      DeadFrame(input);
      FramesStep(input, n);
      var r := ReadFrame(input);
      if r.ending == Stopped {
        DeadFrames(r.state.input, n - 1);
      }
    }
  }

  lemma {:induction false} HarmlessPrefix(cs: seq<PcCommand>, events: seq<Event>, status: Status, n: nat)
    requires AllWellFormed(cs) && Harmless(events)
    ensures ReceivesPrefix(cs, events, status, n)
    decreases n, |events|
  {
    hide ReadFrame, Encode, Decode;
    var input := Input(EncodeAll(cs), events, status);
    if n == 0 {
    } else if DeadEnd(events) {
      DeadFrames(input, n);
    } else if events == [] || events[0].Whole? {
      if cs == [] {
        NothingAfterTheEnd(input, n);
      } else {
        EncodeAllFirst(cs);
        WholeFrame(input);
        DecodeEncode(cs[0]);
        FirstReceived(input, n);
        HarmlessPrefix(cs[1..], Later(events), status, n - 1);
      }
    } else if events[0].Interrupted? {
      NothingRead(input, n);
      HarmlessPrefix(cs, events[1..], Noted(events[0], status), n);
    } else {
      NothingRead(input, n - 1);
      HarmlessPrefix(cs, events[1..], Noted(events[0], status), n - 1);
    }
  }

  // ---------------------------------------------------------------------------------------
  // All other schedules
  // ---------------------------------------------------------------------------------------

  /** Far enough into a stream of zeros that any frame read ends in one, with bytes enough for
      every read of the schedule, and a frame still to come. */
  predicate ZerosAhead(input: Input) {
    && !DeadEnd(input.events)
    && |input.bytes| >= FRAME_SIZE * (|input.events| + 1)
    && forall j :: FRAME_SIZE - 1 <= j < |input.bytes| ==> input.bytes[j] == 0
  }

  lemma ReadOverZeros(p: Progress)
    requires |p.buffer| == CLIENT_BUFF_SIZE as int && 0 < p.left <= FRAME_SIZE
    requires ZerosAhead(p.input) && p.buffer[FRAME_SIZE - 1] == 0
    ensures AfterRead(p).buffer[FRAME_SIZE - 1] == 0
    ensures match NextCondition(p)
            case Complete => AfterRead(p).left == 0
            case Eintr =>
              && ZerosAhead(AfterRead(p).input) && 0 < AfterRead(p).left <= FRAME_SIZE
              && |AfterRead(p).input.events| < |p.input.events|
            case Timeout => ZerosAhead(AfterRead(p).input) && |AfterRead(p).input.events| < |p.input.events|
            case _ => false
  {
  }

  /** A frame that ends in zero, or none so far and more to come, within less than `n` events. */
  predicate OverZeros(r: LoopResult, n: nat)
    requires |r.state.buffer| == FRAME_SIZE
  {
    match r.ending
    case Filled => r.state.buffer[FRAME_SIZE - 1] == 0
    case Stopped => ZerosAhead(r.state.input) && |r.state.input.events| < n
    case _ => false
  }

  lemma {:induction false} LoopOverZeros(p: Progress)
    requires |p.buffer| == CLIENT_BUFF_SIZE as int && 0 < p.left <= FRAME_SIZE
    requires ZerosAhead(p.input) && p.buffer[FRAME_SIZE - 1] == 0
    ensures OverZeros(ReadLoop(p), |p.input.events|)
    decreases |p.input.events|
  {
    LoopStep(p);
    ReadOverZeros(p);
    hide NextCondition, AfterRead, ReadLoop, ZerosAhead;
    if NextCondition(p) == Eintr {
      LoopOverZeros(AfterRead(p));
    }
  }

  lemma {:induction false} FramesOverZeros(input: Input, n: nat)
    requires n > 0 && OverZeros(ReadFrame(input), n - 1)
    ensures Frames(input, n) != [] && Frames(input, n)[0][FRAME_SIZE - 1] == 0
    decreases n
  {
    FramesStep(input, n);
    var r := ReadFrame(input);
    if r.ending == Stopped {
      LoopOverZeros(Begin(r.state.input));
      hide ZerosAhead, ReadLoop, Frames;
      FramesOverZeros(r.state.input, n - 1);
    }
  }

  const ZERO := PcCommand(0, 0, [0, 0, 0, 0, 0, 0])

  /** Its last byte is not zero. */
  const MINUS := PcCommand(0, 0, [0, 0, 0, 0, 0, -1])

  function Zeros(n: nat): (cs: seq<PcCommand>)
    ensures |cs| == n && AllWellFormed(cs)
  {
    seq(n, _ => ZERO)
  }

  lemma {:induction false} IntsOfZeros(xs: seq<int32>)
    requires forall k :: 0 <= k < |xs| ==> xs[k] == 0
    ensures forall j :: 0 <= j < 4 * |xs| ==> EncodeInts(xs)[j] == 0
    decreases |xs|
  {
    if xs != [] {
      IntsOfZeros(xs[1..]);
    }
  }

  lemma {:induction false} StreamOfZeros(n: nat)
    ensures |EncodeAll(Zeros(n))| == FRAME_SIZE * n
    ensures forall j :: 0 <= j < FRAME_SIZE * n ==> EncodeAll(Zeros(n))[j] == 0
    decreases n
  {
    if n > 0 {
      IntsOfZeros([ZERO.cmd, ZERO.rsv] + ZERO.params);
      assert Zeros(n)[1..] == Zeros(n - 1);
      StreamOfZeros(n - 1);
    }
  }

  lemma EndsInZero(frame: seq<byte>)
    requires |frame| == FRAME_SIZE && frame[FRAME_SIZE - 1] == 0
    ensures Decode(frame) != MINUS
  {
    DecodedAt(frame, 8, 7);
    assert DecodeInt(frame[28..32]) >= 0;
    assert Decode(frame).params[5] == DecodeInts(frame, 8)[7];
  }

  /** A first read that delivers bytes and is then cut short, with a frame still to come. */
  lemma CutShort(events: seq<Event>, status: Status) returns (cs: seq<PcCommand>, n: nat)
    requires events != [] && !events[0].Whole? && events[0].got > 0 && !DeadEnd(events)
    ensures AllWellFormed(cs) && !ReceivesPrefix(cs, events, status, n)
  {
    cs, n := [MINUS] + Zeros(|events|), |events| + 1;
    StreamOfZeros(|events|);
    assert cs[1..] == Zeros(|events|);
    var input := Input(EncodeAll(cs), events, status);
    FirstStep(input);
    FramesOverZeros(input, n);
    EndsInZero(Frames(input, n)[0]);
  }

  lemma FirstStep(input: Input)
    requires input.events != [] && !input.events[0].Whole? && !input.events[0].Failed?
    requires |input.bytes| > 0 && input.events[0].got > 0 && ZerosAhead(AfterRead(Begin(input)).input)
    ensures OverZeros(ReadFrame(input), |input.events|)
  {
    var p := AfterRead(Begin(input));
    assert p.buffer[FRAME_SIZE - 1] == 0 && 0 < p.left <= FRAME_SIZE && |p.input.events| < |input.events|;
    LoopStep(Begin(input));
    if input.events[0].Interrupted? {
      LoopOverZeros(p);
    }
  }

  lemma {:induction false} Harmed(events: seq<Event>, status: Status) returns (cs: seq<PcCommand>, n: nat)
    requires !Harmless(events)
    ensures AllWellFormed(cs) && !ReceivesPrefix(cs, events, status, n)
    decreases |events|
  {
    hide ReadFrame, Encode, Decode;
    if !events[0].Whole? && events[0].got > 0 {
      cs, n := CutShort(events, status);
    } else {
      var later, k := Harmed(events[1..], Noted(events[0], status));
      if events[0].Whole? {
        cs, n := [ZERO] + later, k + 1;
        assert cs[1..] == later;
        var input := Input(EncodeAll(cs), events, status);
        EncodeAllFirst(cs);
        WholeFrame(input);
        DecodeEncode(ZERO);
        FirstReceived(input, n);
      } else {
        cs, n := later, if events[0].Interrupted? then k else k + 1;
        NothingRead(Input(EncodeAll(cs), events, status), k);
      }
    }
  }

  /** For any schedule of interruptions, whatever happened before: whatever list of commands the PC
      sends and however many receive steps are made, the commands received are a prefix of those
      sent, if and only if no read is cut short after it delivered bytes, up to a failure that
      nothing completes before. */
  lemma StreamPrefixIff(events: seq<Event>, status: Status)
    ensures (forall cs, n :: AllWellFormed(cs) ==> ReceivesPrefix(cs, events, status, n)) <==> Harmless(events)
  {
    if Harmless(events) {
      forall cs, n | AllWellFormed(cs)
        ensures ReceivesPrefix(cs, events, status, n)
      {
        HarmlessPrefix(cs, events, status, n);
      }
    } else {
      var cs, n := Harmed(events, status);
    }
  }

  // ---------------------------------------------------------------------------------------
  // What happens when the connection ends
  // ---------------------------------------------------------------------------------------

  /** A read is interrupted before the one that follows `n` whole ones. */
  predicate InterruptedBefore(events: seq<Event>, n: nat) {
    events != [] && (events[0].Interrupted? || (n > 0 && InterruptedBefore(events[1..], n - 1)))
  }

  lemma StepsFollow(input: Input, n: nat)
    requires n > 0 && ReadFrame(input).ending == Filled
    ensures StepsEnd(input, n) <==> StepsEnd(ReadFrame(input).state.input, n - 1)
  {
    ReadFrameEndsIff(input);
    hide ReadFrame, RunsOut;
  }

  lemma StepsSkip(input: Input, n: nat)
    requires input.events != [] && input.events[0] == Interrupted(0)
    ensures StepsEnd(input, n) <==> StepsEnd(Skipped(input), n)
  {
    NothingReadYet(input);
    ReadFrameEndsIff(input);
    ReadFrameEndsIff(Skipped(input));
    hide ReadFrame, RunsOut, Skipped;
  }

  /** On any list of commands, with at most part of another behind them, read without loss: the
      receive step after the last command reads for ever if and only if any read before was
      interrupted, at any time. The error indicator stays set, and at the end of the connection
      errno still says EINTR. */
  lemma {:induction false} HangsAtTheEndIff(cs: seq<PcCommand>, rest: seq<byte>, events: seq<Event>, status: Status)
    requires AllWellFormed(cs) && AllClean(events) && |rest| < FRAME_SIZE
    ensures !StepsEnd(Input(EncodeAll(cs) + rest, events, status), |cs| + 1)
       <==> (status == Status(true, EINTR) || InterruptedBefore(events, |cs|))
    decreases |cs|, |events|
  {
    hide ReadFrame, Encode;
    var input := Input(EncodeAll(cs) + rest, events, status);
    if events != [] && events[0].Interrupted? {
      StepsSkip(input, |cs| + 1);
      HangsAtTheEndIff(cs, rest, events[1..], Noted(events[0], status));
    } else if cs == [] {
      assert StepsEnd(input, 1) <==> !RunsOut(input, FRAME_SIZE);
    } else {
      EncodeAllFirst(cs);
      assert input.bytes[FRAME_SIZE..] == EncodeAll(cs[1..]) + rest;
      WholeFrame(input);
      StepsFollow(input, |cs| + 1);
      HangsAtTheEndIff(cs[1..], rest, Later(events), status);
    }
  }
}
