/** The ring without a lock: one producer and one consumer, each byte of their block copies and
    each offset update a step of its own, in any interleaving and with the bytes of a block
    copied in any order. Steps are sequentially consistent. */
module SpscProtocol {
  import opened MachineTypes
  import opened RingModel
  import opened FifoRefinement
  import opened FifoExactly
  import Items = ItemRuns

  datatype Producer = Idle | Copying(item: Item, done: set<nat>)
  datatype Consumer = Waiting | Fetching(got: map<nat, byte>)

  /** `pushed` and `pulled` are the items published and delivered so far. */
  datatype State = State(ring: Ring, prod: Producer, cons: Consumer, pushed: seq<Item>, pulled: seq<Item>)

  datatype Step =
    | PushTest(item: Item)
    | PushByte(i: nat)
    | PushPublish
    | PullTest
    | PullByte(i: nat)
    | PullPublish

  predicate Enabled(s: State, step: Step) {
    && Valid(s.ring)
    && match step
       case PushTest(item) => s.prod.Idle? && s.ring.e <= |item|
       case PushByte(i) =>
         s.prod.Copying? && i < s.ring.e && i < |s.prod.item| && s.ring.tail + i < |s.ring.buf|
       case PushPublish => s.prod.Copying? && forall i: nat :: i < s.ring.e ==> i in s.prod.done
       case PullTest => s.cons.Waiting?
       case PullByte(i) => s.cons.Fetching? && i < s.ring.e && s.ring.head + i < |s.ring.buf|
       case PullPublish => s.cons.Fetching? && forall i: nat :: i < s.ring.e ==> i in s.cons.got
  }

  function Apply(s: State, step: Step): State
    requires Enabled(s, step)
  {
    var r := s.ring;
    match step
    case PushTest(item) =>
      if IsFull(r) then s else s.(prod := Copying(item[..r.e], {}))
    case PushByte(i) =>
      s.(ring := r.(buf := r.buf[r.tail + i := s.prod.item[i]]), prod := Copying(s.prod.item, s.prod.done + {i}))
    case PushPublish =>
      s.(ring := r.(tail := Adv(r.tail, r.e, r.len)), prod := Idle, pushed := s.pushed + [s.prod.item])
    case PullTest =>
      if IsEmpty(r) then s else s.(cons := Fetching(map[]))
    case PullByte(i) =>
      s.(cons := Fetching(s.cons.got[i := r.buf[r.head + i]]))
    case PullPublish =>
      s.(ring := r.(head := Adv(r.head, r.e, r.len)), cons := Waiting,
         pulled := s.pulled + [seq(r.e, i requires 0 <= i < r.e => s.cons.got[i])])
  }

  ghost predicate Runs(s: State, steps: seq<Step>, s': State)
    decreases |steps|
  {
    if steps == [] then s' == s
    else Enabled(s, steps[0]) && Runs(Apply(s, steps[0]), steps[1..], s')
  }

  ghost predicate Init(s: State) {
    Aligned(s.ring) && IsEmpty(s.ring) && s.prod.Idle? && s.cons.Waiting? && s.pushed == [] && s.pulled == []
  }

  // ---------------------------------------------------------------------------------------
  // The invariant
  // ---------------------------------------------------------------------------------------

  ghost predicate ProducerOk(s: State)
    requires Valid(s.ring)
  {
    s.prod.Copying? ==>
      && |s.prod.item| == s.ring.e && !IsFull(s.ring)
      && forall i :: i in s.prod.done ==>
           i < s.ring.e && s.ring.tail + i < |s.ring.buf| && s.ring.buf[s.ring.tail + i] == s.prod.item[i]
  }

  ghost predicate ConsumerOk(s: State)
    requires Valid(s.ring)
  {
    s.cons.Fetching? ==>
      && !IsEmpty(s.ring)
      && forall i :: i in s.cons.got ==>
           i < s.ring.e && i < Occ(s.ring) && s.cons.got[i] == Contents(s.ring)[i]
  }

  ghost predicate HistoryOk(s: State) {
    && |s.pulled| <= |s.pushed|
    && s.pulled == s.pushed[..|s.pulled|]
    && Holds(s.ring, s.pushed[|s.pulled|..])
  }

  ghost predicate Inv(s: State) {
    HistoryOk(s) && ProducerOk(s) && ConsumerOk(s)
  }

  /** A byte written into the free window after the tail is not one of the queued bytes. */
  lemma WriteBehindTail(r: Ring, i: nat, b: byte)
    requires Aligned(r) && !IsFull(r) && i < r.e
    ensures r.tail + i < r.len
    ensures var r' := r.(buf := r.buf[r.tail + i := b]);
            Aligned(r') && Contents(r') == Contents(r)
  {
    AlignedRoom(r);
    var r' := r.(buf := r.buf[r.tail + i := b]);
    forall k | 0 <= k < Occ(r)
      ensures Contents(r')[k] == Contents(r)[k]
    {
      assert Adv(r.head, k, r.len) != r.tail + i;
    }
  }

  lemma PushByteKeeps(s: State, i: nat)
    requires Inv(s) && Enabled(s, PushByte(i))
    ensures Inv(Apply(s, PushByte(i)))
  {
    WriteBehindTail(s.ring, i, s.prod.item[i]);
  }

  /** Once every byte of the item is in place, moving the tail is the whole push. */
  lemma CopiedItemIsPushed(r: Ring, item: Item)
    requires Aligned(r) && !IsFull(r) && |item| == r.e
    requires r.tail + r.e <= r.len && r.buf[r.tail..r.tail + r.e] == item
    ensures PushItem(r, item).ring == r.(tail := Adv(r.tail, r.e, r.len))
  {
    var b := Splice(r.buf, r.tail, item, 0, r.e);
    forall j | 0 <= j < |b|
      ensures b[j] == r.buf[j]
    {
      if r.tail <= j < r.tail + r.e {
        assert r.buf[j] == r.buf[r.tail..r.tail + r.e][j - r.tail];
      }
    }
    assert b == r.buf;
  }

  lemma PushPublishKeeps(s: State)
    requires Inv(s) && Enabled(s, PushPublish)
    ensures Inv(Apply(s, PushPublish))
  {
    var r, q, item := s.ring, s.pushed[|s.pulled|..], s.prod.item;
    AlignedRoom(r);
    QueueSize(r, q);
    assert r.buf[r.tail..r.tail + r.e] == item;
    CopiedItemIsPushed(r, item);
    PushRefines(r, q, item);
    PushItemAppends(r, item);
    assert item[..r.e] == item;
    var t := Apply(s, PushPublish);
    assert t.pushed[|t.pulled|..] == q + [item];
    assert t.pushed[..|t.pulled|] == s.pushed[..|s.pulled|];
  }

  lemma PullByteKeeps(s: State, i: nat)
    requires Inv(s) && Enabled(s, PullByte(i))
    ensures Inv(Apply(s, PullByte(i)))
  {
    AlignedRoom(s.ring);
  }

  /** A fully fetched item is the oldest one queued. */
  lemma FetchedItemIsPulled(s: State)
    requires Inv(s) && Enabled(s, PullPublish)
    ensures s.ring.head + s.ring.e <= s.ring.len
    ensures seq(s.ring.e, i requires 0 <= i < s.ring.e => s.cons.got[i]) == PullItem(s.ring).item
  {
    AlignedRoom(s.ring);
    var item := seq(s.ring.e, i requires 0 <= i < s.ring.e => s.cons.got[i]);
    PullItemTakes(s.ring);
    forall i | 0 <= i < s.ring.e
      ensures item[i] == PullItem(s.ring).item[i]
    {
      assert i in s.cons.got;
    }
  }

  lemma PullPublishKeeps(s: State)
    requires Inv(s) && Enabled(s, PullPublish)
    ensures Inv(Apply(s, PullPublish))
  {
    var r, q := s.ring, s.pushed[|s.pulled|..];
    AlignedRoom(r);
    QueueSize(r, q);
    FetchedItemIsPulled(s);
    PullRefines(r, q);
    var t := Apply(s, PullPublish);
    assert t.pushed[|t.pulled|..] == q[1..];
    assert t.pulled == s.pushed[..|s.pulled|] + [q[0]] == t.pushed[..|t.pulled|];
    QueueSize(t.ring, q[1..]);
  }

  lemma StepKeepsInv(s: State, step: Step)
    requires Inv(s) && Enabled(s, step)
    ensures Inv(Apply(s, step))
  {
    match step
    case PushTest(item) =>
    case PushByte(i) => PushByteKeeps(s, i);
    case PushPublish => PushPublishKeeps(s);
    case PullTest =>
    case PullByte(i) => PullByteKeeps(s, i);
    case PullPublish => PullPublishKeeps(s);
  }

  lemma {:induction false} RunKeepsInv(s: State, steps: seq<Step>, s': State)
    requires Inv(s) && Runs(s, steps, s')
    ensures Inv(s')
    decreases |steps|
  {
    if steps != [] {
      StepKeepsInv(s, steps[0]);
      RunKeepsInv(Apply(s, steps[0]), steps[1..], s');
    }
  }

  // ---------------------------------------------------------------------------------------
  // What every interleaving guarantees
  // ---------------------------------------------------------------------------------------

  /** On an aligned ring, in every interleaving: what was pushed is what was pulled followed by what the ring holds,
      both tests are exact when they are made, every byte copied lies inside the ring, and the
      two block copies never touch the same byte. */
  lemma EveryInterleavingIsSafe(init: State, steps: seq<Step>, s: State)
    requires Init(init) && Runs(init, steps, s)
    ensures exists q :: Holds(s.ring, q) && s.pushed == s.pulled + q
    ensures Valid(s.ring) && s.ring.e > 0
    ensures s.ring.head + s.ring.e <= s.ring.len && s.ring.tail + s.ring.e <= s.ring.len
    ensures IsFull(s.ring) <==> |s.pushed| - |s.pulled| == Slots(s.ring) - 1
    ensures IsEmpty(s.ring) <==> s.pushed == s.pulled
    ensures s.prod.Copying? && s.cons.Fetching? ==>
              s.ring.tail + s.ring.e <= s.ring.head || s.ring.head + s.ring.e <= s.ring.tail
  {
    EmptyRingHolds(init.ring);
    RunKeepsInv(init, steps, s);
    var q := s.pushed[|s.pulled|..];
    assert s.pushed == s.pulled + q;
    QueueSize(s.ring, q);
    AlignedRoom(s.ring);
  }

  // ---------------------------------------------------------------------------------------
  // The steps without interference are the operations
  // ---------------------------------------------------------------------------------------

  function PushBytes(k: nat, n: nat): seq<Step>
    requires k <= n
    decreases n - k
  {
    if k == n then [PushPublish] else [PushByte(k)] + PushBytes(k + 1, n)
  }

  function PullBytes(k: nat, n: nat): seq<Step>
    requires k <= n
    decreases n - k
  {
    if k == n then [PullPublish] else [PullByte(k)] + PullBytes(k + 1, n)
  }

  lemma RunStep(s: State, step: Step, rest: seq<Step>, s': State)
    requires Enabled(s, step) && Runs(Apply(s, step), rest, s')
    ensures Runs(s, [step] + rest, s')
  {
    assert ([step] + rest)[1..] == rest;
  }

  lemma LastStep(s: State, step: Step)
    requires Enabled(s, step)
    ensures Runs(s, [step], Apply(s, step))
  {
    RunStep(s, step, [], Apply(s, step));
    assert [step] + [] == [step];
  }

  /** Run alone, the producer's steps do what push_circle_buff_item does. */
  lemma SoloPush(s: State, item: Item) returns (steps: seq<Step>, s': State)
    requires Valid(s.ring) && s.prod.Idle? && s.ring.e <= |item|
    requires IsFull(s.ring) || s.ring.tail + s.ring.e <= |s.ring.buf|
    ensures Runs(s, steps, s') && s'.prod.Idle? && s'.cons == s.cons && s'.pulled == s.pulled
    ensures s'.ring == PushItem(s.ring, item).ring
    ensures s'.pushed == if PushItem(s.ring, item).code == -1 then s.pushed else s.pushed + [item[..s.ring.e]]
  {
    var t := Apply(s, PushTest(item));
    if IsFull(s.ring) {
      LastStep(s, PushTest(item));
      steps, s' := [PushTest(item)], s;
    } else {
      SpliceNone(s.ring.buf, s.ring.tail, item[..s.ring.e], 0);
      s' := SoloPushBytes(s, t, 0);
      RunStep(s, PushTest(item), PushBytes(0, s.ring.e), s');
      steps := [PushTest(item)] + PushBytes(0, s.ring.e);
      assert Splice(s.ring.buf, s.ring.tail, item[..s.ring.e], 0, s.ring.e)
          == Splice(s.ring.buf, s.ring.tail, item, 0, s.ring.e);
    }
  }

  lemma {:induction false} SoloPushBytes(s: State, t: State, k: nat) returns (s': State)
    requires Valid(s.ring) && k <= s.ring.e && s.ring.tail + s.ring.e <= |s.ring.buf|
    requires t.prod.Copying? && |t.prod.item| == s.ring.e
    requires t.ring == s.ring.(buf := Splice(s.ring.buf, s.ring.tail, t.prod.item, 0, k))
    requires forall i: nat :: i < k ==> i in t.prod.done
    ensures Runs(t, PushBytes(k, s.ring.e), s')
    ensures s' == t.(ring := s.ring.(buf := Splice(s.ring.buf, s.ring.tail, t.prod.item, 0, s.ring.e),
                                     tail := Adv(s.ring.tail, s.ring.e, s.ring.len)),
                     prod := Idle, pushed := t.pushed + [t.prod.item])
    decreases s.ring.e - k
  {
    if k == s.ring.e {
      s' := Apply(t, PushPublish);
      assert PushBytes(k, s.ring.e)[1..] == [];
    } else {
      var u := Apply(t, PushByte(k));
      assert u.ring.buf == Splice(s.ring.buf, s.ring.tail, t.prod.item, 0, k + 1);
      s' := SoloPushBytes(s, u, k + 1);
      assert PushBytes(k, s.ring.e)[1..] == PushBytes(k + 1, s.ring.e);
    }
  }

  /** Run alone, the consumer's steps do what pull_circle_buff_item does. */
  lemma SoloPull(s: State) returns (steps: seq<Step>, s': State)
    requires Valid(s.ring) && s.cons.Waiting? && (IsEmpty(s.ring) || s.ring.head + s.ring.e <= |s.ring.buf|)
    ensures Runs(s, steps, s') && s'.cons.Waiting? && s'.prod == s.prod && s'.pushed == s.pushed
    ensures s'.ring == PullItem(s.ring).ring
    ensures s'.pulled == if PullItem(s.ring).code == -1 then s.pulled else s.pulled + [PullItem(s.ring).item]
  {
    var t := Apply(s, PullTest);
    if IsEmpty(s.ring) {
      LastStep(s, PullTest);
      steps, s' := [PullTest], s;
    } else {
      s' := SoloPullBytes(t, 0);
      RunStep(s, PullTest, PullBytes(0, s.ring.e), s');
      steps := [PullTest] + PullBytes(0, s.ring.e);
    }
  }

  lemma {:induction false} SoloPullBytes(t: State, k: nat) returns (s': State)
    requires Valid(t.ring) && k <= t.ring.e && t.ring.head + t.ring.e <= |t.ring.buf| && t.cons.Fetching?
    requires forall i: nat :: i < k ==> i in t.cons.got && t.cons.got[i] == t.ring.buf[t.ring.head + i]
    ensures Runs(t, PullBytes(k, t.ring.e), s')
    ensures s' == t.(ring := t.ring.(head := Adv(t.ring.head, t.ring.e, t.ring.len)), cons := Waiting,
                     pulled := t.pulled + [t.ring.buf[t.ring.head..t.ring.head + t.ring.e]])
    decreases t.ring.e - k
  {
    if k == t.ring.e {
      s' := Apply(t, PullPublish);
      assert PullBytes(k, t.ring.e)[1..] == [];
      assert seq(t.ring.e, i requires 0 <= i < t.ring.e => t.cons.got[i])
          == t.ring.buf[t.ring.head..t.ring.head + t.ring.e];
    } else {
      s' := SoloPullBytes(Apply(t, PullByte(k)), k + 1);
      assert PullBytes(k, t.ring.e)[1..] == PullBytes(k + 1, t.ring.e);
    }
  }

  // ---------------------------------------------------------------------------------------
  // When the items are conserved
  // ---------------------------------------------------------------------------------------

  lemma {:induction false} RunsAppend(s: State, steps: seq<Step>, m: State, more: seq<Step>, s': State)
    requires Runs(s, steps, m) && Runs(m, more, s')
    ensures Runs(s, steps + more, s')
    decreases |steps|
  {
    if steps == [] {
      assert steps + more == more;
    } else {
      RunsAppend(Apply(s, steps[0]), steps[1..], m, more, s');
      assert (steps + more)[1..] == steps[1..] + more;
    }
  }

  /** The history of the items on the ring. */
  function History(s: State): Items.Log {
    Items.Log(s.ring, s.pushed, s.pulled)
  }

  /** A new ring of any dimensions in a generous memory, and nothing under way. */
  ghost predicate FreshState(s: State) {
    Items.Fresh(History(s)) && s.prod.Idle? && s.cons.Waiting?
  }

  lemma TurnPerforms(s: State, op: Items.Op) returns (steps: seq<Step>, s': State)
    requires Items.Generous(s.ring) && s.prod.Idle? && s.cons.Waiting? && (op.Push? ==> s.ring.e <= |op.item|)
    ensures Runs(s, steps, s') && s'.prod.Idle? && s'.cons.Waiting?
    ensures History(s') == Items.Step(History(s), op)
  {
    if op.Pull? {
      steps, s' := SoloPull(s);
    } else {
      steps, s' := SoloPush(s, op.item);
    }
  }

  /** The two parties can perform any run of pushes and pulls, one at a time. */
  lemma {:induction false} TurnsPerform(s: State, ops: seq<Items.Op>) returns (steps: seq<Step>, s': State)
    requires Items.Generous(s.ring) && s.prod.Idle? && s.cons.Waiting? && Items.AllWide(ops, s.ring.e)
    ensures Runs(s, steps, s') && History(s') == Items.Run(History(s), ops)
    decreases |ops|
  {
    if ops == [] {
      steps, s' := [], s;
    } else {
      assert ops[0].Push? ==> s.ring.e <= |ops[0].item|;
      var first, m := TurnPerforms(s, ops[0]);
      var more: seq<Step>;
      more, s' := TurnsPerform(m, ops[1..]);
      RunsAppend(s, first, m, more, s');
      steps := first + more;
    }
  }

  lemma MixUp(init: State) returns (steps: seq<Step>, s: State)
    requires FreshState(init) && init.ring.e <= init.ring.len && !Divides(init.ring.e, init.ring.len)
    ensures Runs(init, steps, s) && !(s.pulled <= s.pushed)
  {
    hide Runs;
    var ops := OutOfOrder(History(init));
    steps, s := TurnsPerform(init, ops);
    assert !InOrder(History(s));
  }

  /** For every element and ring length: in every interleaving the items pulled are the first of
      those pushed, if and only if the element length divides the ring length. */
  lemma ConservedIff(init: State)
    requires FreshState(init) && init.ring.e <= init.ring.len
    ensures (forall steps, s :: Runs(init, steps, s) ==> s.pulled <= s.pushed)
       <==> Divides(init.ring.e, init.ring.len)
  {
    if Divides(init.ring.e, init.ring.len) {
      forall steps, s | Runs(init, steps, s)
        ensures s.pulled <= s.pushed
      {
        EveryInterleavingIsSafe(init, steps, s);
      }
    } else {
      var steps, s := MixUp(init);
    }
  }
}
