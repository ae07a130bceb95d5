/** What read_data makes of any schedule, told from the stream and the number of bytes each read
    delivers: how it ends, what it takes off the stream, and every byte of the item it pushes. */
module FrameContents {
  import opened MachineTypes
  import opened RingModel
  import opened NetworkClient

  // ---------------------------------------------------------------------------------------
  // The bytes
  // ---------------------------------------------------------------------------------------

  /** How many bytes each read delivers until `left` are there, in blocks of at most 32: all that
      are asked for when nothing cuts it short, else fewer, and an interruption is followed by
      another read. */
  function Counts(left: nat, available: nat, events: seq<Event>): (counts: seq<nat>)
    decreases |events|, left
  {
    if left == 0 then []
    else
      var n := if left > 32 then 32 else left;
      if events == [] || events[0].Whole? then
        if available < n then [available]
        else [n] + Counts(left - n, available - n, if events == [] then [] else events[1..])
      else
        var got := Min(Min(events[0].got, n - 1), available);
        if events[0].Interrupted? then [got] + Counts(left - got, available - got, events[1..]) else [got]
  }

  /** The bytes delivered before read number `k`. */
  function Before(counts: seq<nat>, k: nat): nat
    requires k <= |counts|
  {
    if k == 0 then 0 else counts[0] + Before(counts[1..], k - 1)
  }

  /** Read number `k` is the last one that delivered more than `j` bytes. */
  predicate LastBeyond(counts: seq<nat>, k: nat, j: nat) {
    k < |counts| && counts[k] > j && forall m :: k < m < |counts| ==> counts[m] <= j
  }

  predicate NoneBeyond(counts: seq<nat>, j: nat) {
    forall m :: 0 <= m < |counts| ==> counts[m] <= j
  }

  /** Byte `j` comes from the last read that reached it, and is `kept` if none did. */
  ghost predicate LatestByte(b: byte, kept: byte, bytes: seq<byte>, counts: seq<nat>, j: nat) {
    && (NoneBeyond(counts, j) ==> b == kept)
    && forall k: nat :: LastBeyond(counts, k, j) ==>
         Before(counts, k) + j < |bytes| && b == bytes[Before(counts, k) + j]
  }

  lemma LatestByteFirst(b: byte, kept: byte, bytes: seq<byte>, counts: seq<nat>, j: nat)
    requires counts != [] && counts[0] <= |bytes|
    requires LatestByte(b, if j < counts[0] then bytes[j] else kept, bytes[counts[0]..], counts[1..], j)
    ensures LatestByte(b, kept, bytes, counts, j)
  {
    var rest := counts[1..];
    assert forall m :: 1 <= m < |counts| ==> counts[m] == rest[m - 1];
    assert NoneBeyond(counts, j) ==> NoneBeyond(rest, j);
    forall k: nat | LastBeyond(counts, k, j)
      ensures Before(counts, k) + j < |bytes| && b == bytes[Before(counts, k) + j]
    {
      if k == 0 {
        assert NoneBeyond(rest, j);
      } else {
        assert LastBeyond(rest, k - 1, j);
      }
    }
  }

  /** A frame that completes does not meet the end of the file. */
  lemma NotAtTheEnd(p: Progress)
    requires Running(p) && ReadLoop(p).ending == Filled && (p.input.events == [] || p.input.events[0].Whole?)
    ensures NextCondition(p) == Complete
  {
    hide ReadLoop, Splice;
    LoopStep(p);
    if NextCondition(p) == Eintr && p.input.events != [] {
      LoopStep(AfterRead(p));
    }
  }

  /** One read delivers the first count, and the rest follow. */
  lemma CountsStep(p: Progress)
    requires Running(p) && ReadLoop(p).ending == Filled
    ensures var p' := AfterRead(p);
            var got := p.left - p'.left;
            && ReadLoop(p) == ReadLoop(p')
            && got <= |p.input.bytes| && p'.input.bytes == p.input.bytes[got..]
            && Counts(p.left, |p.input.bytes|, p.input.events)
               == [got] + Counts(p'.left, |p'.input.bytes|, p'.input.events)
            && forall j :: 0 <= j < 32 ==> p'.buffer[j] == if j < got then p.input.bytes[j] else p.buffer[j]
  {
    hide ReadLoop, AfterRead, NextRead, NextCondition, Counts;
    if p.input.events == [] || p.input.events[0].Whole? {
      NotAtTheEnd(p);
    }
    LoopContinues(p);
    ReadShows(p);
    FirstCount(p);
  }

  lemma FirstCount(p: Progress)
    requires Running(p) && NextCondition(p) in {Complete, Eintr}
    requires p.input.events == [] || p.input.events[0].Whole? ==> NextCondition(p) == Complete
    ensures var p' := AfterRead(p);
            Counts(p.left, |p.input.bytes|, p.input.events)
            == [p.left - p'.left] + Counts(p'.left, |p'.input.bytes|, p'.input.events)
  {
    hide Splice;
  }

  lemma LoopContinues(p: Progress)
    requires Running(p) && ReadLoop(p).ending == Filled
    ensures ReadLoop(p) == ReadLoop(AfterRead(p)) && NextCondition(p) in {Complete, Eintr}
    ensures NextCondition(p) == Eintr ==> p.input.events != []
  {
    hide ReadLoop;
    LoopStep(p);
    if AfterRead(p).left == 0 {
      NothingLeft(AfterRead(p));
    }
  }

  lemma ReadShows(p: Progress)
    requires Running(p)
    ensures var p' := AfterRead(p);
            var got := p.left - p'.left;
            && got == Read(p.input, Min(p.left, 32)).got && p'.input == Read(p.input, Min(p.left, 32)).rest
            && got <= |p.input.bytes| && p'.input.bytes == p.input.bytes[got..]
            && forall j :: 0 <= j < 32 ==> p'.buffer[j] == if j < got then p.input.bytes[j] else p.buffer[j]
  {
  }

  lemma NothingLeft(p: Progress)
    requires |p.buffer| == 32 && p.left == 0
    ensures ReadLoop(p) == LoopResult(p, Filled) && Counts(p.left, |p.input.bytes|, p.input.events) == []
  {
  }

  /** For every schedule that lets the loop complete, whatever the buffer held: all that was asked
      for is taken off the stream, and each byte of the buffer is the one that the last read to
      reach it delivered there, or the one it held if none did. */
  lemma {:induction false} LoopContents(p: Progress, j: nat)
    requires |p.buffer| == 32 && j < 32 && ReadLoop(p).ending == Filled
    ensures var counts := Counts(p.left, |p.input.bytes|, p.input.events);
            var s := ReadLoop(p).state;
            && Before(counts, |counts|) == p.left <= |p.input.bytes|
            && s.input.bytes == p.input.bytes[p.left..]
            && LatestByte(s.buffer[j], p.buffer[j], p.input.bytes, counts, j)
    decreases |p.input.events|, p.left
  {
    hide ReadLoop, AfterRead, NextRead, Counts, LatestByte;
    if p.left == 0 {
      NothingLeft(p);
      NoReads(p, j);
    } else {
      CountsStep(p);
      var p' := AfterRead(p);
      var got := p.left - p'.left;
      ReadIsProgress(p);
      LoopContents(p', j);
      var s := ReadLoop(p).state;
      var counts := Counts(p.left, |p.input.bytes|, p.input.events);
      assert counts[1..] == Counts(p'.left, |p'.input.bytes|, p'.input.events);
      LatestByteFirst(s.buffer[j], p.buffer[j], p.input.bytes, counts, j);
      assert p.input.bytes[got..][p'.left..] == p.input.bytes[p.left..];
    }
  }

  lemma NoReads(p: Progress, j: nat)
    requires |p.buffer| == 32 && j < 32
    ensures LatestByte(p.buffer[j], p.buffer[j], p.input.bytes, [], j) && p.input.bytes[0..] == p.input.bytes
  {
  }

  lemma ReadIsProgress(p: Progress)
    requires Running(p) && ReadLoop(p).ending == Filled
    ensures var p' := AfterRead(p);
            |p'.input.events| < |p.input.events| || (|p'.input.events| == |p.input.events| && p'.left < p.left)
  {
    hide ReadLoop;
    LoopStep(p);
  }

  lemma FrameIsLoop(input: Input)
    ensures ReadFrame(input) == ReadLoop(Begin(input)) && Begin(input).left == 32 && Begin(input).input == input
    ensures forall j :: 0 <= j < 32 ==> Begin(input).buffer[j] == 0
  {
  }

  /** For every schedule that lets a frame complete, byte `j` of the item is the one at `j` in the
      last read that delivered more than `j` bytes, and 0 if none did; 32 bytes are taken off the
      stream, whatever was received twice or not at all. */
  lemma ItemContents(input: Input, j: nat)
    requires j < 32 && ReadFrame(input).ending == Filled
    ensures var counts := Counts(32, |input.bytes|, input.events);
            var s := ReadFrame(input).state;
            && Before(counts, |counts|) == 32 <= |input.bytes|
            && s.input.bytes == input.bytes[32..]
            && LatestByte(s.buffer[j], 0, input.bytes, counts, j)
  {
    hide ReadFrame, ReadLoop, Counts, Before, LatestByte;
    FrameIsLoop(input);
    LoopContents(Begin(input), j);
  }

  /** And so are the bytes that a receive step stores at the tail of the ring. */
  lemma StoredContents(r: Ring, input: Input, j: nat)
    requires Valid(r) && !IsFull(r) && !RunsOut(input, 32) && ReadFrame(input).ending == Filled
    requires r.e <= 32 && r.tail + r.e <= |r.buf| && j < r.e
    ensures LatestByte(Receive(r, input).ring.buf[r.tail + j], 0, input.bytes, Counts(32, |input.bytes|, input.events), j)
  {
    hide ReadFrame, ReadLoop, RunsOut, IsFull, PushItem, Counts, LatestByte;
    FrameIsLoop(input);
    LoopContents(Begin(input), j);
    PushedByte(r, ReadFrame(input).state.buffer, j);
  }

  lemma PushedByte(r: Ring, item: seq<byte>, j: nat)
    requires Valid(r) && !IsFull(r) && r.tail + r.e <= |r.buf| && j < r.e <= |item|
    ensures |PushItem(r, item).ring.buf| == |r.buf| && PushItem(r, item).ring.buf[r.tail + j] == item[j]
  {
  }

  /** One interruption after `g` bytes, and then an undisturbed read: the rest of the frame comes
      first, over the beginning of it, then what is left of the beginning, then zeros. */
  lemma OneInterruption(bytes: seq<byte>, g: nat, later: seq<Event>, status: Status, j: nat)
    requires |bytes| >= 32 && g < 32 && j < 32 && (later == [] || later[0].Whole?)
    ensures var r := ReadFrame(Input(bytes, [Interrupted(g)] + later, status));
            && r.ending == Filled
            && r.state.buffer[j] == if j < 32 - g then bytes[g + j] else if j < g then bytes[j] else 0
  {
    var events := [Interrupted(g)] + later;
    assert events[1..] == later;
    var input := Input(bytes, events, status);
    EndingIff(input);
    hide ReadFrame, ReadLoop, Counts, LatestByte;
    FrameIsLoop(input);
    LoopContents(Begin(input), j);
    TwoCounts(|bytes|, g, later);
    LatestOfTwo(ReadFrame(input).state.buffer[j], bytes, g, j);
  }

  lemma LatestOfTwo(b: byte, bytes: seq<byte>, g: nat, j: nat)
    requires |bytes| >= 32 && g < 32 && j < 32 && LatestByte(b, 0, bytes, [g, 32 - g], j)
    ensures b == if j < 32 - g then bytes[g + j] else if j < g then bytes[j] else 0
  {
    var counts := [g, 32 - g];
    assert counts[1..] == [32 - g];
    assert Before(counts, 0) == 0 && Before(counts, 1) == g + Before(counts[1..], 0);
    if j < 32 - g {
      assert LastBeyond(counts, 1, j);
    } else if j < g {
      assert LastBeyond(counts, 0, j);
    } else {
      assert NoneBeyond(counts, j);
    }
  }

  lemma TwoCounts(available: nat, g: nat, later: seq<Event>)
    requires available >= 32 && g < 32 && (later == [] || later[0].Whole?)
    ensures Counts(32, available, [Interrupted(g)] + later) == [g, 32 - g]
  {
    var events := [Interrupted(g)] + later;
    assert events[1..] == later;
    assert Counts(32, available, events) == [g] + Counts(32 - g, available - g, later);
    assert Counts(32 - g, available - g, later)
        == [32 - g] + Counts(0, available - 32, if later == [] then [] else later[1..]);
  }

  // ---------------------------------------------------------------------------------------
  // The ending
  // ---------------------------------------------------------------------------------------

  /** Only interruptions come before a failure. */
  predicate FailsFirst(events: seq<Event>) {
    events != [] && (events[0].Failed? || (events[0].Interrupted? && FailsFirst(events[1..])))
  }

  /** The first read is not interrupted, and the error indicator is left from some other error. */
  predicate OldFailure(input: Input) {
    !(input.events != [] && input.events[0].Interrupted?) && input.status == Status(true, OtherErrno)
  }

  lemma {:induction false} LoopEndingIff(p: Progress)
    requires Running(p) && p.left <= 32
    ensures ReadLoop(p).ending == Filled <==> |p.input.bytes| >= p.left && OnlyInterrupted(p.input.events)
    ensures ReadLoop(p).ending == Exited <==>
              || FailsFirst(p.input.events)
              || (|p.input.bytes| < p.left && OnlyInterrupted(p.input.events) && OldFailure(p.input))
    decreases |p.input.events|
  {
    hide ReadLoop, Splice;
    LoopStep(p);
    if NextCondition(p) == Eintr && p.input.events != [] {
      LoopEndingIff(AfterRead(p));
    }
  }

  /** How any attempt at a frame ends: complete when only interruptions come before the first
      undisturbed read and 32 bytes are there; out of the program when they come before a failure,
      or when the stream ends on an old failure; for ever when it ends on an interruption; and else
      given up. */
  lemma EndingIff(input: Input)
    ensures ReadFrame(input).ending == Filled <==> |input.bytes| >= 32 && OnlyInterrupted(input.events)
    ensures ReadFrame(input).ending == Exited <==>
              || FailsFirst(input.events)
              || (|input.bytes| < 32 && OnlyInterrupted(input.events) && OldFailure(input))
    ensures ReadFrame(input).ending == Spins <==> RunsOut(input, 32)
  {
    LoopEndingIff(Begin(input));
    LoopSpinsIff(Begin(input));
  }
}
