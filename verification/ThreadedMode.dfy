/** The two-thread mode: network_producer and controller_msg_process around one mutex, every
    statement that touches shared state a step of its own, in any interleaving. */
module ThreadedMode {
  import opened MachineTypes
  import opened RingModel
  import opened FifoRefinement
  import opened FifoExactly
  import Items = ItemRuns
  import ItemWindows
  import Client = NetworkClient

  datatype Owner = Nobody | TheProducer | TheConsumer

  /** Where the producer is: outside the lock, before its full test, past it, holding a frame
      that read_data completed, or about to unlock. */
  datatype Producer = Outside | Locked | Passed | HasFrame(frame: Item) | Leaving

  datatype Consumer = Away | Entered | MayPull | Done

  /** `read` and `pulled` are the frames completed and delivered; the codes are what the item
      operations returned. */
  datatype State = State(
    ring: Ring, owner: Owner, prod: Producer, cons: Consumer,
    read: seq<Item>, pulled: seq<Item>, pushCodes: seq<int>, pullCodes: seq<int>)

  datatype Step =
    | ProducerLock | FullTest | ReadFails | ReadCompletes(frame: Item) | PushFrame | ProducerUnlock
    | ConsumerLock | EmptyTest | PullFrame | ConsumerUnlock

  predicate Enabled(s: State, step: Step) {
    && Valid(s.ring)
    && match step
       case ProducerLock => s.prod.Outside? && s.owner.Nobody?
       case FullTest => s.prod.Locked?
       case ReadFails => s.prod.Passed?
       case ReadCompletes(frame) => s.prod.Passed? && |frame| == s.ring.e
       case PushFrame => s.prod.HasFrame? && s.ring.tail + s.ring.e <= |s.ring.buf| && s.ring.e <= |s.prod.frame|
       case ProducerUnlock => s.prod.Leaving?
       case ConsumerLock => s.cons.Away? && s.owner.Nobody?
       case EmptyTest => s.cons.Entered?
       case PullFrame => s.cons.MayPull? && s.ring.head + s.ring.e <= |s.ring.buf|
       case ConsumerUnlock => s.cons.Done?
  }

  function Apply(s: State, step: Step): State
    requires Enabled(s, step)
  {
    match step
    case ProducerLock => s.(owner := TheProducer, prod := Locked)
    case FullTest => s.(prod := if IsFull(s.ring) then Leaving else Passed)
    case ReadFails => s.(prod := Leaving)
    case ReadCompletes(frame) => s.(prod := HasFrame(frame), read := s.read + [frame])
    case PushFrame =>
      var p := PushItem(s.ring, s.prod.frame);
      s.(ring := p.ring, prod := Leaving, pushCodes := s.pushCodes + [p.code])
    case ProducerUnlock => s.(owner := Nobody, prod := Outside)
    case ConsumerLock => s.(owner := TheConsumer, cons := Entered)
    case EmptyTest => s.(cons := if IsEmpty(s.ring) then Done else MayPull)
    case PullFrame =>
      var p := PullItem(s.ring);
      s.(ring := p.ring, cons := Done, pulled := s.pulled + [p.item], pullCodes := s.pullCodes + [p.code])
    case ConsumerUnlock => s.(owner := Nobody, cons := Away)
  }

  ghost predicate Runs(s: State, steps: seq<Step>, s': State)
    decreases |steps|
  {
    if steps == [] then s' == s
    else Enabled(s, steps[0]) && Runs(Apply(s, steps[0]), steps[1..], s')
  }

  ghost predicate Init(s: State) {
    && Aligned(s.ring) && IsEmpty(s.ring) && s.owner.Nobody? && s.prod.Outside? && s.cons.Away?
    && s.read == [] && s.pulled == [] && s.pushCodes == [] && s.pullCodes == []
  }

  /** The frame on its way from the stream into the ring. */
  function Carried(s: State): seq<Item> {
    if s.prod.HasFrame? then [s.prod.frame] else []
  }

  ghost predicate Conserved(s: State, q: seq<Item>) {
    Holds(s.ring, q) && s.read == s.pulled + q + Carried(s)
  }

  ghost predicate Exclusive(s: State) {
    && (s.owner.TheProducer? <==> !s.prod.Outside?)
    && (s.owner.TheConsumer? <==> !s.cons.Away?)
  }

  /** The outcome of a test stays true as long as the lock is held. */
  ghost predicate TestsHold(s: State)
    requires Valid(s.ring)
  {
    && (s.prod.Passed? || s.prod.HasFrame? ==> !IsFull(s.ring))
    && (s.prod.HasFrame? ==> |s.prod.frame| == s.ring.e)
    && (s.cons.MayPull? ==> !IsEmpty(s.ring))
  }

  ghost predicate CodesOk(s: State) {
    && (forall k :: 0 <= k < |s.pushCodes| ==> s.pushCodes[k] == s.ring.e)
    && (forall k :: 0 <= k < |s.pullCodes| ==> s.pullCodes[k] == 0)
  }

  ghost predicate Inv(s: State, q: seq<Item>) {
    Conserved(s, q) && Exclusive(s) && TestsHold(s) && CodesOk(s)
  }

  lemma PushKeepsInv(s: State, q: seq<Item>) returns (q': seq<Item>)
    requires Inv(s, q) && Enabled(s, PushFrame)
    ensures Inv(Apply(s, PushFrame), q')
  {
    var frame := s.prod.frame;
    q' := q + [frame];
    QueueSize(s.ring, q);
    PushRefines(s.ring, q, frame);
    assert frame[..s.ring.e] == frame;
    var t := Apply(s, PushFrame);
    assert t.read == t.pulled + q' + Carried(t);
  }

  lemma PullKeepsInv(s: State, q: seq<Item>) returns (q': seq<Item>)
    requires Inv(s, q) && Enabled(s, PullFrame)
    ensures Inv(Apply(s, PullFrame), q')
  {
    QueueSize(s.ring, q);
    PullRefines(s.ring, q);
    q' := q[1..];
    var t := Apply(s, PullFrame);
    assert t.read == t.pulled + q' + Carried(t);
  }

  lemma StepKeepsInv(s: State, q: seq<Item>, step: Step) returns (q': seq<Item>)
    requires Inv(s, q) && Enabled(s, step)
    ensures Inv(Apply(s, step), q')
  {
    if step.PushFrame? {
      q' := PushKeepsInv(s, q);
    } else if step.PullFrame? {
      q' := PullKeepsInv(s, q);
    } else {
      q' := q;
    }
  }

  lemma {:induction false} RunKeepsInv(s: State, q: seq<Item>, steps: seq<Step>, s': State) returns (q': seq<Item>)
    requires Inv(s, q) && Runs(s, steps, s')
    ensures Inv(s', q')
    decreases |steps|
  {
    if steps == [] {
      q' := q;
    } else {
      var q1 := StepKeepsInv(s, q, steps[0]);
      q' := RunKeepsInv(Apply(s, steps[0]), q1, steps[1..], s');
    }
  }

  /** On an aligned ring, in every interleaving: the frames read are those pulled, then those
      queued, then the one the producer carries while it holds the lock; no push or pull ever
      fails, although the producer does not look at the push result; every copy stays inside the
      ring; and the two critical sections exclude each other. */
  lemma EveryInterleavingConserves(init: State, steps: seq<Step>, s: State)
    requires Init(init) && Runs(init, steps, s)
    ensures exists q :: Conserved(s, q)
    ensures forall k :: 0 <= k < |s.pushCodes| ==> s.pushCodes[k] != -1
    ensures forall k :: 0 <= k < |s.pullCodes| ==> s.pullCodes[k] == 0
    ensures s.ring.head + s.ring.e <= s.ring.len && s.ring.tail + s.ring.e <= s.ring.len
    ensures s.prod.Outside? || s.cons.Away?
    ensures s.owner.Nobody? ==> Carried(s) == []
  {
    EmptyRingHolds(init.ring);
    assert Conserved(init, []);
    var q := RunKeepsInv(init, [], steps, s);
    AlignedRoom(s.ring);
  }

  // ---------------------------------------------------------------------------------------
  // The steps of one thread without the other are the sequential operations
  // ---------------------------------------------------------------------------------------

  lemma RunStep(s: State, step: Step, rest: seq<Step>, s': State)
    requires Enabled(s, step) && Runs(Apply(s, step), rest, s')
    ensures Runs(s, [step] + rest, s')
  {
    assert ([step] + rest)[1..] == rest;
  }

  lemma LastStep(s: State, step: Step)
    requires Enabled(s, step)
    ensures Runs(s, [step], Apply(s, step))
  {
    RunStep(s, step, [], Apply(s, step));
    assert [step] + [] == [step];
  }

  lemma {:induction false} RunsAppend(s: State, steps: seq<Step>, m: State, more: seq<Step>, s': State)
    requires Runs(s, steps, m) && Runs(m, more, s')
    ensures Runs(s, steps + more, s')
    decreases |steps|
  {
    if steps == [] {
      assert steps + more == more;
    } else {
      RunsAppend(Apply(s, steps[0]), steps[1..], m, more, s');
      assert (steps + more)[1..] == steps[1..] + more;
    }
  }

  function FullTurn(): seq<Step> {
    [ProducerLock] + ([FullTest] + [ProducerUnlock])
  }

  function FailedTurn(): seq<Step> {
    [ProducerLock] + ([FullTest] + ([ReadFails] + [ProducerUnlock]))
  }

  function PushTurn(frame: Item): seq<Step> {
    [ProducerLock] + ([FullTest] + ([ReadCompletes(frame)] + ([PushFrame] + [ProducerUnlock])))
  }

  function EmptyTurn(): seq<Step> {
    [ConsumerLock] + ([EmptyTest] + [ConsumerUnlock])
  }

  function PullTurn(): seq<Step> {
    [ConsumerLock] + ([EmptyTest] + ([PullFrame] + [ConsumerUnlock]))
  }

  /** Nobody holds the lock, and neither thread is in its critical section. */
  predicate AtRest(s: State) {
    s.owner.Nobody? && s.prod.Outside? && s.cons.Away?
  }

  /** A turn of the producer that reads nothing. */
  lemma ProducerIdles(s: State)
    requires Valid(s.ring) && s.prod.Outside? && s.owner.Nobody?
    ensures Runs(s, if IsFull(s.ring) then FullTurn() else FailedTurn(), s)
  {
    var s1 := Apply(s, ProducerLock);
    var s2 := Apply(s1, FullTest);
    var s3 := if IsFull(s.ring) then s2 else Apply(s2, ReadFails);
    LastStep(s3, ProducerUnlock);
    if IsFull(s.ring) {
      RunStep(s1, FullTest, [ProducerUnlock], s);
      RunStep(s, ProducerLock, [FullTest] + [ProducerUnlock], s);
    } else {
      RunStep(s2, ReadFails, [ProducerUnlock], s);
      RunStep(s1, FullTest, [ReadFails] + [ProducerUnlock], s);
      RunStep(s, ProducerLock, [FullTest] + ([ReadFails] + [ProducerUnlock]), s);
    }
  }

  /** A turn of the producer that reads a frame and pushes it. */
  lemma ProducerPushes(s: State, frame: Item) returns (s': State)
    requires Valid(s.ring) && s.prod.Outside? && s.owner.Nobody? && !IsFull(s.ring)
    requires |frame| == s.ring.e && s.ring.tail + s.ring.e <= |s.ring.buf|
    ensures Runs(s, PushTurn(frame), s')
    ensures var p := PushItem(s.ring, frame);
            s' == s.(ring := p.ring, read := s.read + [frame], pushCodes := s.pushCodes + [p.code])
  {
    hide PushItem;
    var s1 := Apply(s, ProducerLock);
    var s2 := Apply(s1, FullTest);
    var s3 := Apply(s2, ReadCompletes(frame));
    var s4 := Apply(s3, PushFrame);
    s' := Apply(s4, ProducerUnlock);
    LastStep(s4, ProducerUnlock);
    RunStep(s3, PushFrame, [ProducerUnlock], s');
    RunStep(s2, ReadCompletes(frame), [PushFrame] + [ProducerUnlock], s');
    RunStep(s1, FullTest, [ReadCompletes(frame)] + ([PushFrame] + [ProducerUnlock]), s');
    RunStep(s, ProducerLock, [FullTest] + ([ReadCompletes(frame)] + ([PushFrame] + [ProducerUnlock])), s');
  }

  /** From the lock to the unlock, the producer's steps do what a receive step does: one that ends
      the program, or never ends, is not a run of this machine. */
  lemma SoloProducer(s: State, input: Client.Input) returns (steps: seq<Step>, s': State)
    requires Valid(s.ring) && s.prod.Outside? && s.owner.Nobody? && s.ring.e == Client.CLIENT_BUFF_SIZE as int
    requires Client.ReadFrame(input).ending == Client.Filled && !IsFull(s.ring) ==>
               s.ring.tail + s.ring.e <= |s.ring.buf|
    requires IsFull(s.ring) || !Client.RunsOut(input, Client.CLIENT_BUFF_SIZE as int)
    requires !Client.Receive(s.ring, input).exited
    ensures Runs(s, steps, s') && s'.prod.Outside? && s'.owner.Nobody? && s'.cons == s.cons && s'.pulled == s.pulled
    ensures s'.ring == Client.Receive(s.ring, input).ring
    ensures var frame := Client.ReadFrame(input);
            s'.read == s.read + if !IsFull(s.ring) && frame.ending == Client.Filled then [frame.state.buffer] else []
  {
    hide Client.ReadFrame, Client.RunsOut, PushItem, Runs;
    var frame := Client.ReadFrame(input);
    if !IsFull(s.ring) && frame.ending == Client.Filled {
      s' := ProducerPushes(s, frame.state.buffer);
      steps := PushTurn(frame.state.buffer);
    } else {
      ProducerIdles(s);
      steps, s' := if IsFull(s.ring) then FullTurn() else FailedTurn(), s;
    }
  }

  /** From the lock to the unlock, the consumer's steps do what a pull does. */
  lemma SoloConsumer(s: State) returns (s': State)
    requires Valid(s.ring) && s.cons.Away? && s.owner.Nobody?
    requires IsEmpty(s.ring) || s.ring.head + s.ring.e <= |s.ring.buf|
    ensures Runs(s, if IsEmpty(s.ring) then EmptyTurn() else PullTurn(), s')
    ensures s'.cons.Away? && s'.owner.Nobody? && s'.prod == s.prod && s'.read == s.read
    ensures var p := PullItem(s.ring);
            && s'.ring == p.ring
            && s'.pulled == s.pulled + if p.code == -1 then [] else [p.item]
  {
    var s1 := Apply(s, ConsumerLock);
    var s2 := Apply(s1, EmptyTest);
    var s3 := if IsEmpty(s.ring) then s2 else Apply(s2, PullFrame);
    s' := Apply(s3, ConsumerUnlock);
    LastStep(s3, ConsumerUnlock);
    if IsEmpty(s.ring) {
      RunStep(s1, EmptyTest, [ConsumerUnlock], s');
      RunStep(s, ConsumerLock, [EmptyTest] + [ConsumerUnlock], s');
    } else {
      RunStep(s2, PullFrame, [ConsumerUnlock], s');
      RunStep(s1, EmptyTest, [PullFrame] + [ConsumerUnlock], s');
      RunStep(s, ConsumerLock, [EmptyTest] + ([PullFrame] + [ConsumerUnlock]), s');
    }
  }

  // ---------------------------------------------------------------------------------------
  // When the frames are conserved
  // ---------------------------------------------------------------------------------------

  /** A new ring of any dimensions in a generous memory, and no thread started yet. */
  ghost predicate FreshState(s: State) {
    && Items.Fresh(Items.Log(s.ring, s.read, s.pulled)) && AtRest(s) && s.pushCodes == [] && s.pullCodes == []
  }

  /** The history of the items on the ring. */
  function History(s: State): Items.Log {
    Items.Log(s.ring, s.read, s.pulled)
  }

  /** The turns that perform an operation, and a run of them. */
  function Turn(r: Ring, op: Items.Op): seq<Step>
    requires Valid(r)
  {
    match op
    case Push(item) => if IsFull(r) then FullTurn() else PushTurn(item)
    case Pull => if IsEmpty(r) then EmptyTurn() else PullTurn()
  }

  function Turns(t: Items.Log, ops: seq<Items.Op>): seq<Step>
    requires Items.Generous(t.ring) && Items.AllWide(ops, t.ring.e)
    decreases |ops|
  {
    if ops == [] then []
    else
      assert ops[0].Push? ==> t.ring.e <= |ops[0].item|;
      Turn(t.ring, ops[0]) + Turns(Items.Step(t, ops[0]), ops[1..])
  }

  lemma TurnPerforms(s: State, op: Items.Op) returns (s': State)
    requires Items.Generous(s.ring) && AtRest(s) && (op.Push? ==> |op.item| == s.ring.e)
    ensures Runs(s, Turn(s.ring, op), s') && AtRest(s') && History(s') == Items.Step(History(s), op)
  {
    if op.Pull? {
      s' := SoloConsumer(s);
    } else {
      assert op.item[..s.ring.e] == op.item;
      if IsFull(s.ring) {
        ProducerIdles(s);
        s' := s;
      } else {
        s' := ProducerPushes(s, op.item);
      }
    }
  }

  /** The threads can take turns to perform any run of pushes and pulls. */
  lemma {:induction false} TurnsPerform(s: State, ops: seq<Items.Op>) returns (s': State)
    requires Items.Generous(s.ring) && AtRest(s) && Items.AllExact(ops, s.ring.e) && Items.AllWide(ops, s.ring.e)
    ensures Runs(s, Turns(History(s), ops), s') && AtRest(s') && History(s') == Items.Run(History(s), ops)
    decreases |ops|
  {
    if ops == [] {
      s' := s;
    } else {
      assert ops[0].Push? ==> |ops[0].item| == s.ring.e;
      var m := TurnPerforms(s, ops[0]);
      s' := TurnsPerform(m, ops[1..]);
      RunsAppend(s, Turn(s.ring, ops[0]), m, Turns(History(m), ops[1..]), s');
    }
  }

  lemma AlignedFreshIsSafe(init: State, steps: seq<Step>, s: State)
    requires FreshState(init) && Divides(init.ring.e, init.ring.len) && Runs(init, steps, s)
    ensures s.pulled <= s.read && s.ring.tail + s.ring.e <= s.ring.len
  {
    EveryInterleavingConserves(init, steps, s);
  }

  lemma MixUp(init: State) returns (steps: seq<Step>, s: State)
    requires FreshState(init) && init.ring.e <= init.ring.len && !Divides(init.ring.e, init.ring.len)
    ensures Runs(init, steps, s) && !(s.pulled <= s.read)
  {
    hide Runs, Turns;
    var ops := OutOfOrder(History(init));
    s := TurnsPerform(init, ops);
    steps := Turns(History(init), ops);
    assert !InOrder(History(s));
  }

  /** For every element and ring length: in every interleaving the frames pulled are the first of
      those read, if and only if the element length divides the ring length. */
  lemma ConservedIff(init: State)
    requires FreshState(init) && init.ring.e <= init.ring.len
    ensures (forall steps, s :: Runs(init, steps, s) ==> s.pulled <= s.read)
       <==> Divides(init.ring.e, init.ring.len)
  {
    if Divides(init.ring.e, init.ring.len) {
      forall steps, s | Runs(init, steps, s)
        ensures s.pulled <= s.read
      {
        AlignedFreshIsSafe(init, steps, s);
      }
    } else {
      var steps, s := MixUp(init);
    }
  }

  /** The ring that the threads really share, 32 in 280: after ten turns of the producer, nine
      frames of zeros and one of ones, and one of the consumer, the frames pulled are not the first
      of those read. */
  lemma NetworkFramesMixUp(init: State) returns (s: State)
    requires FreshState(init) && init.ring.e == 32 && init.ring.len == 280
    ensures var ops := Items.Pushes(Uniform(32, 0), 9) + [Items.Push(Uniform(32, 1))] + [Items.Pull];
            && Items.AllWide(ops, 32) && Runs(init, Turns(History(init), ops), s)
            && History(s) == Items.Run(History(init), ops) && !(s.pulled <= s.read)
  {
    hide Runs, Turns, Items.Run, Uniform;
    var ops := WrapOverwrites(History(init));
    s := TurnsPerform(init, ops);
    assert !InOrder(History(s));
  }

  /** On a ring that is not full the producer comes to hold its next frame. */
  lemma HoldsNextFrame(init: State, steps: seq<Step>, s: State, frame: Item) returns (steps': seq<Step>, t: State)
    requires Runs(init, steps, s) && AtRest(s) && Valid(s.ring) && !IsFull(s.ring) && |frame| == s.ring.e
    ensures Runs(init, steps', t)
    ensures steps' == steps + ([ProducerLock] + ([FullTest] + [ReadCompletes(frame)]))
    ensures t.ring == s.ring && t.prod == HasFrame(frame)
  {
    var s1 := Apply(s, ProducerLock);
    var s2 := Apply(s1, FullTest);
    t := Apply(s2, ReadCompletes(frame));
    LastStep(s2, ReadCompletes(frame));
    RunStep(s1, FullTest, [ReadCompletes(frame)], t);
    RunStep(s, ProducerLock, [FullTest] + [ReadCompletes(frame)], t);
    RunsAppend(init, steps, s, [ProducerLock] + ([FullTest] + [ReadCompletes(frame)]), t);
    steps' := steps + ([ProducerLock] + ([FullTest] + [ReadCompletes(frame)]));
  }

  lemma Overrun(init: State) returns (steps: seq<Step>, s: State)
    requires FreshState(init) && init.ring.e <= init.ring.len && !Divides(init.ring.e, init.ring.len)
    ensures Runs(init, steps, s) && s.prod.HasFrame? && s.ring.tail + s.ring.e > s.ring.len
  {
    var ops := ItemWindows.OverrunOps(History(init));
    hide Runs, Turns, Items.Run, IsFull;
    var m := TurnsPerform(init, ops);
    steps, s := HoldsNextFrame(init, Turns(History(init), ops), m, Uniform(init.ring.e, 0));
  }

  /** For every element and ring length: in every interleaving the frame that the producer holds
      has its place inside the ring, if and only if the element length divides the ring length. */
  lemma FramesInsideIff(init: State)
    requires FreshState(init) && init.ring.e <= init.ring.len
    ensures (forall steps, s :: Runs(init, steps, s) ==> s.prod.HasFrame? ==> s.ring.tail + s.ring.e <= s.ring.len)
       <==> Divides(init.ring.e, init.ring.len)
  {
    if Divides(init.ring.e, init.ring.len) {
      forall steps, s | Runs(init, steps, s)
        ensures s.ring.tail + s.ring.e <= s.ring.len
      {
        AlignedFreshIsSafe(init, steps, s);
      }
    } else {
      var steps, s := Overrun(init);
    }
  }
}
