/** controller.c and main.c: the parent process alternates one receive and one dispatch. */
module MainLoop {
  import opened MachineTypes
  import opened RingModel
  import opened BufferManager
  import opened CommandFormat
  import opened ForceInterface
  import opened NetworkClient
  import opened FifoRefinement
  import opened ItemWindows

  /** controller_msg_parase: take one frame out of the ring, if there is one, and perform it. */
  method ControllerMsgParase(info: BufferInfo, localBuff: array<byte>, core: ForceCore)
    requires info.Describes(localBuff) && info.elementLength as int == FRAME_SIZE
    requires IsEmpty(info.View(localBuff)) || info.head as int + FRAME_SIZE <= localBuff.Length
    requires core.virtualForce.Length == DOFS
    modifies info`head, core, core.virtualForce
    ensures info.Describes(localBuff)
    ensures var p := PullItem(old(info.View(localBuff)));
            && info.View(localBuff) == p.ring
            && core.View() == if p.code == -1 then old(core.View())
                              else PerformAll(old(core.View()), Image(Decode(p.item)))
    ensures old(info.head == info.tail) ==> core.View() == old(core.View()) && info.head == old(info.head)
    ensures old(info.head != info.tail) ==>
              var frame := old(localBuff[..])[old(info.head) as int..old(info.head) as int + FRAME_SIZE];
              forall c :: Carries(frame, c) ==> Dispatched(c, old(core.View()), core.View())
  {
    hide Decode, Perform, PerformAll, Image, Carries, Dispatched;
    var buff := new byte[FRAME_SIZE](_ => 0);
    var empty := IsBuffEmpty(info, localBuff);
    if empty != 0 {
      return;
    }
    var res := PullCircleBuffItem(info, localBuff, buff);
    assert buff[..] == PullItem(old(info.View(localBuff))).item;
    hide Splice;
    var cmd := Decode(buff[..]);
    if res >= 0 {
      Dispatch(cmd, core);
    }
    CarriedIsDispatched(buff[..], old(core.View()));
  }

  /** The switch on the command code. */
  method Dispatch(cmd: PcCommand, core: ForceCore)
    requires WellFormed(cmd) && core.virtualForce.Length == DOFS
    modifies core, core.virtualForce
    ensures core.View() == PerformAll(old(core.View()), Image(cmd))
    ensures Dispatched(cmd, old(core.View()), core.View())
  {
    ImageDispatches(cmd, core.View());
    hide Dispatched;
    match cmd.cmd
    case 11 => core.SendCommand(CMD_RESET_FAULT);
    case 12 => core.SendCommand(CMD_IDLE);
    case 13 => core.SendCommand(CMD_WORKING);
    case 14 => core.SendCommand(CMD_SET_FAULT);
    case 15 => core.ForceVirtualDownload(cmd.params);
    case 16 => core.ForceVirtualDownload(cmd.params);
    case _ =>
  }

  lemma CarriedIsDispatched(frame: seq<byte>, s: CoreState)
    requires |frame| == FRAME_SIZE
    ensures forall c :: Carries(frame, c) ==> Dispatched(c, s, PerformAll(s, Image(Decode(frame))))
  {
    ImageDispatches(Decode(frame), s);
    forall c | Carries(frame, c)
      ensures c == Decode(frame)
    {
      DecodeIff(frame, c);
    }
  }

  // ---------------------------------------------------------------------------------------
  // The loop
  // ---------------------------------------------------------------------------------------

  /** One iteration of the loop in terms of the ring: an empty ring is not full, a pushed item
      comes straight back out, and the ring is empty again one element further on. Nothing here
      needs the element length to divide the ring length. */
  lemma PushThenPull(r: Ring, item: seq<byte>)
    requires Valid(r) && IsEmpty(r) && 0 < r.e < r.len && r.tail + r.e <= |r.buf| && |item| == r.e
    ensures !IsFull(r)
    ensures var mid := PushItem(r, item).ring;
            var p := PullItem(mid);
            && !IsEmpty(mid) && p.code == 0 && p.item == item && p.ring == Round(r, item)
  {
    assert Adv(r.tail, r.e, r.len) == (r.tail + r.e) % r.len != r.tail;
  }

  /** And a pull from it fails and changes nothing. */
  lemma EmptyRing(r: Ring)
    requires Valid(r) && IsEmpty(r) && 0 < r.e < r.len
    ensures !IsFull(r)
    ensures PullItem(r).code == -1 && PullItem(r).ring == r
  {
    assert Adv(r.tail, r.e, r.len) == (r.tail + r.e) % r.len != r.tail;
  }

  /** The frames that `n` receive steps complete. */
  function Frames(input: Input, n: nat): (frames: seq<Item>)
    ensures AllLong(frames, FRAME_SIZE)
    decreases n
  {
    if n == 0 then []
    else
      var r := ReadFrame(input);
      match r.ending
      case Filled => [r.state.buffer] + Frames(r.state.input, n - 1)
      case Stopped => Frames(r.state.input, n - 1)
      case Exited => []
      case Spins => []
  }

  /** The stream after `n` receive steps, and whether one of them ended the program. */
  function AfterSteps(input: Input, n: nat): (Input, bool)
    decreases n
  {
    if n == 0 then (input, false)
    else
      var r := ReadFrame(input);
      match r.ending
      case Filled => AfterSteps(r.state.input, n - 1)
      case Stopped => AfterSteps(r.state.input, n - 1)
      case Exited => (r.state.input, true)
      case Spins => (r.state.input, false)
  }

  /** None of `n` receive steps reads for ever. */
  predicate StepsEnd(input: Input, n: nat)
    decreases n
  {
    n == 0 ||
    (&& !RunsOut(input, FRAME_SIZE)
     && var r := ReadFrame(input);
        (r.ending == Filled || r.ending == Stopped ==> StepsEnd(r.state.input, n - 1)))
  }

  function Decoded(frames: seq<Item>): (cs: seq<PcCommand>)
    requires AllLong(frames, FRAME_SIZE)
    ensures |cs| == |frames|
  {
    if frames == [] then [] else [Decode(frames[0])] + Decoded(frames[1..])
  }

  /** The commands of the frames that `n` receive steps complete. */
  function Received(input: Input, n: nat): seq<PcCommand> {
    Decoded(Frames(input, n))
  }

  /** One round: a receive step, then a dispatch. For every ring length and every outcome of a
      read that ends, the round starts and ends with an empty ring, the full branch is not taken, and a
      completed frame is performed. Only a completed frame needs room at the tail. */
  method ParentRound(fp: FileStream, info: BufferInfo, buff: array<byte>, core: ForceCore)
    returns (exited: bool)
    requires info.Describes(buff) && info.elementLength as int == FRAME_SIZE && info.elementLength < info.buffLength
    requires IsEmpty(info.View(buff)) && !RunsOut(fp.input, FRAME_SIZE)
    requires ReadFrame(fp.input).ending == Filled ==> info.tail as int + FRAME_SIZE <= buff.Length
    requires core.virtualForce.Length == DOFS
    modifies fp, info`head, info`tail, buff, core, core.virtualForce
    ensures info.Describes(buff)
    ensures var r := ReadFrame(old(fp.input));
            && fp.input == r.state.input
            && (exited <==> r.ending == Exited)
            && info.View(buff) == (if r.ending == Filled then Round(old(info.View(buff)), r.state.buffer)
                                   else old(info.View(buff)))
            && core.View() == if r.ending == Filled
                              then PerformAll(old(core.View()), Image(Decode(r.state.buffer)))
                              else old(core.View())
  {
    hide ReadFrame, RunsOut, PushItem, PullItem, IsFull, Round, Perform, PerformAll, Image, Decode;
    ghost var r := ReadFrame(fp.input);
    ghost var before := info.View(buff);
    if r.ending == Filled {
      PushThenPull(before, r.state.buffer);
    } else {
      EmptyRing(before);
    }
    exited := NetworkRcv(fp, info, buff);
    if !exited {
      ControllerMsgParase(info, buff, core);
    }
  }

  /** `n` rounds of the parent's loop on a live connection: what reaches the force core is the
      image of the completed frames, in order. The memory must hold those frames, wherever the
      rounds put them, and every receive step must end. */
  method ParentLoop(fp: FileStream, info: BufferInfo, buff: array<byte>, core: ForceCore, n: nat)
    returns (exited: bool)
    requires info.Describes(buff) && info.elementLength as int == FRAME_SIZE && info.elementLength < info.buffLength
    requires IsEmpty(info.View(buff)) && RoundsFit(info.View(buff), Frames(fp.input, n)) && StepsEnd(fp.input, n)
    requires core.virtualForce.Length == DOFS
    modifies fp, info`head, info`tail, buff, core, core.virtualForce
    ensures info.Describes(buff) && IsEmpty(info.View(buff))
    ensures core.View() == PerformAll(old(core.View()), Images(Received(old(fp.input), n)))
    ensures core.trace == old(core.trace) + Images(Received(old(fp.input), n))
    ensures BlockServed(Received(old(fp.input), n), old(core.View()), core.View())
    ensures SlotServed(Received(old(fp.input), n), old(core.View()), core.View())
    ensures (fp.input, exited) == AfterSteps(old(fp.input), n)
  {
    hide AfterSteps, BlockServed, SlotServed, ReadFrame, Perform, PerformAll, Image, Images, Decode, Decoded, Round, RoundsFit, Frames, StepsEnd, RunsOut;
    TraceGrows(core.View(), Images(Received(fp.input, n)));
    CommandsAreServed(Received(fp.input, n), core.View());
    ghost var all := Images(Received(fp.input, n));
    exited := false;
    var i := 0;
    while i < n && !exited
      invariant i <= n
      invariant info.Describes(buff) && info.elementLength as int == FRAME_SIZE && info.elementLength < info.buffLength
      invariant IsEmpty(info.View(buff))
      invariant !exited ==> RoundsFit(info.View(buff), Frames(fp.input, n - i)) && StepsEnd(fp.input, n - i)
      invariant PerformAll(core.View(), if exited then [] else Images(Received(fp.input, n - i)))
             == PerformAll(old(core.View()), all)
      invariant (if exited then (fp.input, true) else AfterSteps(fp.input, n - i)) == AfterSteps(old(fp.input), n)
    {
      RoundAhead(info.View(buff), core.View(), fp.input, n - i);
      exited := ParentRound(fp, info, buff, core);
      i := i + 1;
    }
    NoRoundsAhead(core.View(), fp.input);
  }

  /** What one round leaves for the rest. */
  lemma RoundAhead(ring: Ring, s: CoreState, input: Input, n: nat)
    requires n > 0 && Idle(ring, []) && ring.e == FRAME_SIZE
    requires RoundsFit(ring, Frames(input, n)) && StepsEnd(input, n)
    ensures !RunsOut(input, FRAME_SIZE)
    ensures var r := ReadFrame(input);
            var all := PerformAll(s, Images(Received(input, n)));
            match r.ending
            case Filled =>
              && ring.tail + FRAME_SIZE <= |ring.buf|
              && RoundsFit(Round(ring, r.state.buffer), Frames(r.state.input, n - 1)) && StepsEnd(r.state.input, n - 1)
              && all == PerformAll(PerformAll(s, Image(Decode(r.state.buffer))), Images(Received(r.state.input, n - 1)))
              && AfterSteps(input, n) == AfterSteps(r.state.input, n - 1)
            case Stopped =>
              && RoundsFit(ring, Frames(r.state.input, n - 1)) && StepsEnd(r.state.input, n - 1)
              && all == PerformAll(s, Images(Received(r.state.input, n - 1)))
              && AfterSteps(input, n) == AfterSteps(r.state.input, n - 1)
            case Exited => all == PerformAll(s, []) && AfterSteps(input, n) == (r.state.input, true)
            case Spins => false
  {
    ReadFrameEndsIff(input);
    hide RunsOut, ReadFrame, Image, Decode, Perform, PerformAll, Round;
    var r := ReadFrame(input);
    if r.ending == Filled {
      var frames, rest := Frames(input, n), Frames(r.state.input, n - 1);
      assert frames[0] == r.state.buffer && frames[1..] == rest;
      var c, cs := Decode(r.state.buffer), Decoded(rest);
      assert Decoded(frames)[1..] == cs;
      PerformAllAppend(s, Image(c), Images(cs));
    }
  }

  lemma NoRoundsAhead(s: CoreState, input: Input)
    ensures PerformAll(s, Images(Received(input, 0))) == s && PerformAll(s, []) == s
    ensures AfterSteps(input, 0) == (input, false)
  {
  }

  // ---------------------------------------------------------------------------------------
  // From the PC's commands to the force core
  // ---------------------------------------------------------------------------------------

  function EncodeAll(cs: seq<PcCommand>): seq<byte>
    requires forall k :: 0 <= k < |cs| ==> WellFormed(cs[k])
  {
    if cs == [] then [] else Encode(cs[0]) + EncodeAll(cs[1..])
  }

  /** The stream carries the commands, 32 bytes each, one behind the other. */
  lemma {:induction false} StreamCarries(cs: seq<PcCommand>, k: nat)
    requires k < |cs| && forall j :: 0 <= j < |cs| ==> WellFormed(cs[j])
    ensures |EncodeAll(cs)| == 32 * |cs|
    ensures Carries(EncodeAll(cs)[32 * k..32 * k + 32], cs[k])
    decreases |cs|
  {
    hide Encode, Carries;
    EncodeCarries(cs[0]);
    assert EncodeAll(cs)[0..32] == Encode(cs[0]);
    if |cs| > 1 {
      StreamCarries(cs[1..], if k == 0 then 0 else k - 1);
      if k > 0 {
        SliceBehind(EncodeAll(cs), 32, 32 * (k - 1), 32);
        assert EncodeAll(cs)[32..] == EncodeAll(cs[1..]);
      }
    }
  }

  /** No read is cut short after it delivered bytes. */
  predicate AllClean(events: seq<Event>) {
    forall k :: 0 <= k < |events| ==> events[k] == Whole || events[k] == Interrupted(0)
  }

  lemma {:induction false} AllCleanIsClean(events: seq<Event>)
    requires AllClean(events)
    ensures CleanSchedule(events)
    decreases |events|
  {
    if events != [] && !events[0].Whole? {
      AllCleanIsClean(events[1..]);
    }
  }

  lemma {:induction false} LoopKeepsClean(p: Progress)
    requires |p.buffer| == CLIENT_BUFF_SIZE as int && AllClean(p.input.events)
    ensures AllClean(ReadLoop(p).state.input.events)
    decreases |p.input.events|, p.left
  {
    hide Splice;
    if GoesOn(p) && (NextCondition(p) == Eintr ==> p.input.events != []) {
      LoopKeepsClean(AfterRead(p));
    }
  }

  lemma FrameKeepsClean(input: Input)
    requires AllClean(input.events)
    ensures AllClean(ReadFrame(input).state.input.events)
  {
    LoopKeepsClean(Begin(input));
  }

  /** The whole way: on the stream the PC sends for any list of commands, the receive steps end and
      deliver those commands, so ParentLoop performs exactly their images. */
  lemma {:induction false} StreamIsTranslated(cs: seq<PcCommand>, rest: seq<byte>, events: seq<Event>, status: Status)
    requires forall k :: 0 <= k < |cs| ==> WellFormed(cs[k])
    requires AllClean(events)
    ensures Received(Input(EncodeAll(cs) + rest, events, status), |cs|) == cs
    ensures StepsEnd(Input(EncodeAll(cs) + rest, events, status), |cs|)
    decreases |cs|
  {
    hide ReadFrame, Splice, Encode, Decode, Clear, CleanSchedule;
    if cs != [] {
      var bytes := EncodeAll(cs) + rest;
      var input := Input(bytes, events, status);
      var r := ReadFrame(input);
      AllCleanIsClean(events);
      CleanDelivers(input);
      FrameKeepsClean(input);
      assert bytes[..FRAME_SIZE] == Encode(cs[0]);
      assert bytes[FRAME_SIZE..] == EncodeAll(cs[1..]) + rest;
      DecodeEncode(cs[0]);
      assert Frames(input, |cs|)[1..] == Frames(r.state.input, |cs| - 1);
      StreamIsTranslated(cs[1..], rest, r.state.input.events, r.state.input.status);
    }
  }
}
