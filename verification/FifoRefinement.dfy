/** Rings whose lengths are multiples of their element length are queues of items. Two such
    rings of different lengths, with items pushed and pulled and whole bundles moved between
    them, behave as two queues over every run. */
module FifoRefinement {
  import opened MachineTypes
  import opened RingModel

  type Item = seq<byte>

  ghost predicate Aligned(r: Ring) {
    Valid(r) && Divides(r.e, r.len) && Divides(r.e, r.head) && Divides(r.e, r.tail)
  }

  lemma MultipleSum(x: nat, y: nat, e: nat)
    requires Divides(e, x) && Divides(e, y)
    ensures Divides(e, x + y)
  {
    var q := y / e;
    assert y == q * e;
    ModShift(x, q, e);
  }

  lemma MultipleDifference(x: nat, y: nat, e: nat)
    requires Divides(e, x) && Divides(e, y) && y <= x
    ensures Divides(e, x - y)
    ensures y < x ==> y + e <= x
  {
    var q := y / e;
    assert y == q * e;
    ModShift(x - y, q, e);
  }

  lemma AdvMultiple(o: nat, k: nat, len: nat, e: nat)
    requires Divides(e, o) && Divides(e, k) && Divides(e, len) && o < len && k <= len
    ensures Divides(e, Adv(o, k, len))
  {
    MultipleSum(o, k, e);
    if o + k >= len {
      MultipleDifference(o + k, len, e);
    }
  }

  /** Item windows never straddle the end of an aligned ring, occupancy is a whole number of
      items, and a ring that is not full has more than one item of free bytes. */
  lemma AlignedRoom(r: Ring)
    requires Aligned(r)
    ensures r.head + r.e <= r.len && r.tail + r.e <= r.len
    ensures Divides(r.e, Occ(r))
    ensures Occ(r) + r.e <= r.len
    ensures IsFull(r) <==> Occ(r) + r.e == r.len
    ensures !IsEmpty(r) ==> r.e <= Occ(r)
  {
    MultipleDifference(r.len, r.head, r.e);
    MultipleDifference(r.len, r.tail, r.e);
    if r.head <= r.tail {
      MultipleDifference(r.tail, r.head, r.e);
    } else {
      MultipleSum(r.tail, r.len, r.e);
      MultipleDifference(r.tail + r.len, r.head, r.e);
    }
    MultipleDifference(r.len, Occ(r), r.e);
    MultipleDifference(Occ(r), 0, r.e);
    assert Adv(r.tail, r.e, r.len) == (r.tail + r.e) % r.len;
  }

  // ---------------------------------------------------------------------------------------
  // Queues of items
  // ---------------------------------------------------------------------------------------

  function Flatten(q: seq<Item>): seq<byte> {
    if q == [] then [] else q[0] + Flatten(q[1..])
  }

  ghost predicate AllLong(q: seq<Item>, e: nat) {
    forall k :: 0 <= k < |q| ==> |q[k]| == e
  }

  lemma FlattenNone()
    ensures Flatten([]) == []
  {
  }

  lemma {:induction false} FlattenAppend(p: seq<Item>, q: seq<Item>)
    ensures Flatten(p + q) == Flatten(p) + Flatten(q)
    decreases |p|
  {
    if p == [] {
      assert p + q == q;
    } else {
      assert (p + q)[1..] == p[1..] + q;
      FlattenAppend(p[1..], q);
    }
  }

  lemma {:induction false} FlattenLength(q: seq<Item>, e: nat)
    requires AllLong(q, e)
    ensures |Flatten(q)| == |q| * e
    decreases |q|
  {
    if q != [] {
      FlattenLength(q[1..], e);
      MulDistribute(1, |q| - 1, e);
    }
  }

  /** The ring holds exactly the items of `q`, oldest first. */
  ghost predicate Holds(r: Ring, q: seq<Item>) {
    Aligned(r) && AllLong(q, r.e) && Contents(r) == Flatten(q)
  }

  /** Items the ring can take: one slot stays unused. */
  function Slots(r: Ring): nat
    requires r.e > 0
  {
    r.len / r.e
  }

  lemma QueueSize(r: Ring, q: seq<Item>)
    requires Holds(r, q)
    ensures |q| < Slots(r)
    ensures IsFull(r) <==> |q| == Slots(r) - 1
    ensures IsEmpty(r) <==> q == []
    ensures Occ(r) == |q| * r.e && r.len == Slots(r) * r.e
  {
    hide Contents, Flatten, Divides;
    AlignedRoom(r);
    FlattenLength(q, r.e);
    ExactQuotient(r.len, r.e);
    MulDistribute(|q|, 1, r.e);
    CompareMultiples(|q| + 1, Slots(r), r.e);
    CompareMultiples(0, |q|, r.e);
  }

  lemma ExactQuotient(x: nat, e: nat)
    requires Divides(e, x)
    ensures x == (x / e) * e
  {
  }

  lemma EmptyRingHolds(r: Ring)
    requires Aligned(r) && IsEmpty(r)
    ensures Holds(r, [])
  {
  }

  /** A push is rejected exactly on a full queue; otherwise it enqueues the item. */
  lemma PushRefines(r: Ring, q: seq<Item>, item: Item)
    requires Holds(r, q) && r.e <= |item|
    ensures r.tail + r.e <= r.len
    ensures var p := PushItem(r, item);
            if |q| == Slots(r) - 1 then p.code == -1 && p.ring == r
            else p.code == r.e && Holds(p.ring, q + [item[..r.e]])
  {
    AlignedRoom(r);
    QueueSize(r, q);
    if !IsFull(r) {
      PushItemAppends(r, item);
      AdvMultiple(r.tail, r.e, r.len, r.e);
      FlattenAppend(q, [item[..r.e]]);
      assert Flatten([item[..r.e]]) == item[..r.e];
    }
  }

  /** A pull fails exactly on an empty queue; otherwise it dequeues the oldest item. */
  lemma PullRefines(r: Ring, q: seq<Item>)
    requires Holds(r, q)
    ensures r.head + r.e <= r.len
    ensures var p := PullItem(r);
            if q == [] then p.code == -1 && p.ring == r && p.item == []
            else p.code == 0 && p.item == q[0] && Holds(p.ring, q[1..])
  {
    AlignedRoom(r);
    QueueSize(r, q);
    if q != [] {
      PullItemTakes(r);
      AdvMultiple(r.head, r.e, r.len, r.e);
      assert Contents(r) == q[0] + Flatten(q[1..]);
    }
  }

  /** A bundle transfer moves the whole source queue behind the destination queue. */
  lemma DrainRefines(src: Ring, dst: Ring, q: seq<Item>, p: seq<Item>)
    requires Holds(src, q) && Holds(dst, p) && src.e == dst.e
    requires q != [] && |q| + |p| < Slots(dst)
    ensures Fits(src, dst)
    ensures var t := Drain(src, dst);
            t.code == |q| * src.e && Holds(t.src, []) && Holds(t.dst, p + q)
  {
    QueueSize(src, q);
    QueueSize(dst, p);
    AlignedRoom(src);
    var e := src.e;
    MulDistribute(|q|, |p|, e);
    CompareMultiples(|q| + |p|, Slots(dst), e);
    hide Slots, Divides, Flatten;
    DrainAppends(src, dst);
    AdvMultiple(dst.tail, Occ(src), dst.len, e);
    FlattenAppend(p, q);
    assert [] == Flatten([]) by {
      FlattenNone();
    }
  }

  // ---------------------------------------------------------------------------------------
  // Runs of two rings
  // ---------------------------------------------------------------------------------------

  datatype Side = A | B

  datatype RingOp =
    | PushTo(on: Side, item: Item)
    | PullFrom(on: Side)
    | PushBundleInto(on: Side)
    | PullBundleFrom(on: Side)

  datatype Reply = Reply(code: int, item: Item)

  function Other(s: Side): Side {
    if s == A then B else A
  }

  datatype Rings = Rings(a: Ring, b: Ring) {
    function At(s: Side): Ring {
      if s == A then a else b
    }
    function With(s: Side, r: Ring): Rings {
      if s == A then Rings(r, b) else Rings(a, r)
    }
  }

  datatype Queues = Queues(a: seq<Item>, b: seq<Item>) {
    function At(s: Side): seq<Item> {
      if s == A then a else b
    }
    function With(s: Side, q: seq<Item>): Queues {
      if s == A then Queues(q, b) else Queues(a, q)
    }
  }

  datatype SlotCounts = SlotCounts(a: nat, b: nat) {
    function At(s: Side): nat {
      if s == A then a else b
    }
  }

  function SlotsOf(rs: Rings): SlotCounts
    requires rs.a.e > 0 && rs.b.e > 0
  {
    SlotCounts(Slots(rs.a), Slots(rs.b))
  }

  ghost predicate HoldsBoth(rs: Rings, qs: Queues) {
    rs.a.e == rs.b.e && Holds(rs.a, qs.a) && Holds(rs.b, qs.b)
  }

  /** What a caller must respect, judged on the queues alone: whole items, a bundle that leaves
      the destination a free slot, and a non-empty source where the code does not test it. */
  predicate Legal(qs: Queues, op: RingOp, e: nat, slots: SlotCounts) {
    match op
    case PushTo(_, item) => e <= |item|
    case PullFrom(_) => true
    case PushBundleInto(s) => qs.At(Other(s)) != [] && |qs.a| + |qs.b| < slots.At(s)
    case PullBundleFrom(s) => |qs.a| + |qs.b| < slots.At(Other(s))
  }

  function QueueStep(qs: Queues, op: RingOp, e: nat, slots: SlotCounts): (Queues, Reply) {
    match op
    case PushTo(s, item) =>
      if |qs.At(s)| + 1 == slots.At(s) || |item| < e then (qs, Reply(-1, []))
      else (qs.With(s, qs.At(s) + [item[..e]]), Reply(e, []))
    case PullFrom(s) =>
      if qs.At(s) == [] then (qs, Reply(-1, []))
      else (qs.With(s, qs.At(s)[1..]), Reply(0, qs.At(s)[0]))
    case PushBundleInto(s) =>
      (qs.With(Other(s), []).With(s, qs.At(s) + qs.At(Other(s))), Reply(|qs.At(Other(s))| * e, []))
    case PullBundleFrom(s) =>
      (qs.With(s, []).With(Other(s), qs.At(Other(s)) + qs.At(s)), Reply(|qs.At(s)| * e, []))
  }

  /** Every memory access of the operation stays inside the ring it addresses. */
  predicate InBounds(rs: Rings, op: RingOp) {
    && Valid(rs.a) && Valid(rs.b)
    && match op
       case PushTo(s, item) => rs.At(s).tail + rs.At(s).e <= rs.At(s).len && rs.At(s).e <= |item|
       case PullFrom(s) => rs.At(s).head + rs.At(s).e <= rs.At(s).len
       case PushBundleInto(s) => Fits(rs.At(Other(s)), rs.At(s))
       case PullBundleFrom(s) => IsEmpty(rs.At(s)) || Fits(rs.At(s), rs.At(Other(s)))
  }

  /** The same step on the rings, by the operations of buffer_manager.c. */
  function RingStep(rs: Rings, op: RingOp): (Rings, Reply)
    requires InBounds(rs, op)
  {
    match op
    case PushTo(s, item) =>
      var p := PushItem(rs.At(s), item);
      (rs.With(s, p.ring), Reply(p.code, []))
    case PullFrom(s) =>
      var p := PullItem(rs.At(s));
      (rs.With(s, p.ring), Reply(p.code, p.item))
    case PushBundleInto(s) =>
      var t := PushBundle(rs.At(s), rs.At(Other(s)));
      (rs.With(Other(s), t.src).With(s, t.dst), Reply(t.code, []))
    case PullBundleFrom(s) =>
      var t := PullBundle(rs.At(s), rs.At(Other(s)));
      (rs.With(s, t.src).With(Other(s), t.dst), Reply(t.code, []))
  }

  /** One step of the rings stays in bounds and does what the queues do. */
  ghost predicate StepMatches(rs: Rings, qs: Queues, op: RingOp)
    requires rs.a.e > 0 && rs.b.e > 0
  {
    && InBounds(rs, op)
    && var (rs', reply) := RingStep(rs, op);
       var (qs', reply') := QueueStep(qs, op, rs.a.e, SlotsOf(rs));
       && reply == reply' && HoldsBoth(rs', qs')
       && rs'.a.e == rs.a.e && rs'.a.len == rs.a.len && rs'.b.len == rs.b.len
  }

  lemma PushStep(rs: Rings, qs: Queues, op: RingOp)
    requires HoldsBoth(rs, qs) && Legal(qs, op, rs.a.e, SlotsOf(rs)) && op.PushTo?
    ensures StepMatches(rs, qs, op)
  {
    QueueSize(rs.a, qs.a);
    QueueSize(rs.b, qs.b);
    assert Valid(rs.a) && Valid(rs.b);
    hide Holds, Slots, Occ, IsFull, PushItem, PullItem, Drain;
    PushRefines(rs.At(op.on), qs.At(op.on), op.item);
  }

  lemma PullStep(rs: Rings, qs: Queues, op: RingOp)
    requires HoldsBoth(rs, qs) && Legal(qs, op, rs.a.e, SlotsOf(rs)) && op.PullFrom?
    ensures StepMatches(rs, qs, op)
  {
    QueueSize(rs.a, qs.a);
    QueueSize(rs.b, qs.b);
    assert Valid(rs.a) && Valid(rs.b);
    hide Holds, Slots, Occ, IsFull, PushItem, PullItem, Drain;
    PullRefines(rs.At(op.on), qs.At(op.on));
  }

  lemma PushBundleStep(rs: Rings, qs: Queues, op: RingOp)
    requires HoldsBoth(rs, qs) && Legal(qs, op, rs.a.e, SlotsOf(rs)) && op.PushBundleInto?
    ensures StepMatches(rs, qs, op)
  {
    QueueSize(rs.a, qs.a);
    QueueSize(rs.b, qs.b);
    assert Valid(rs.a) && Valid(rs.b);
    hide Holds, Slots, Occ, IsFull, PushItem, PullItem, Drain;
    var from := Other(op.on);
    DrainRefines(rs.At(from), rs.At(op.on), qs.At(from), qs.At(op.on));
  }

  lemma PullBundleStep(rs: Rings, qs: Queues, op: RingOp)
    requires HoldsBoth(rs, qs) && Legal(qs, op, rs.a.e, SlotsOf(rs)) && op.PullBundleFrom?
    ensures StepMatches(rs, qs, op)
  {
    QueueSize(rs.a, qs.a);
    QueueSize(rs.b, qs.b);
    assert Valid(rs.a) && Valid(rs.b);
    hide Holds, Slots, Occ, IsFull, PushItem, PullItem, Drain;
    var from, into := op.on, Other(op.on);
    if qs.At(from) == [] {
      assert qs.At(into) + [] == qs.At(into);
      assert RingStep(rs, op) == (rs, Reply(0, []));
      assert QueueStep(qs, op, rs.a.e, SlotsOf(rs)) == (qs, Reply(0, []));
    } else {
      DrainRefines(rs.At(from), rs.At(into), qs.At(from), qs.At(into));
    }
  }

  lemma StepRefines(rs: Rings, qs: Queues, op: RingOp)
    requires HoldsBoth(rs, qs) && Legal(qs, op, rs.a.e, SlotsOf(rs))
    ensures StepMatches(rs, qs, op)
  {
    match op
    case PushTo(_, _) => PushStep(rs, qs, op);
    case PullFrom(_) => PullStep(rs, qs, op);
    case PushBundleInto(_) => PushBundleStep(rs, qs, op);
    case PullBundleFrom(_) => PullBundleStep(rs, qs, op);
  }

  /** A run of ring operations with its replies: no step reaches outside its ring. */
  ghost predicate RingRun(rs: Rings, ops: seq<RingOp>, replies: seq<Reply>, rs': Rings)
    decreases |ops|
  {
    if ops == [] then replies == [] && rs' == rs
    else
      && InBounds(rs, ops[0]) && replies != []
      && replies[0] == RingStep(rs, ops[0]).1
      && RingRun(RingStep(rs, ops[0]).0, ops[1..], replies[1..], rs')
  }

  function QueueRun(qs: Queues, ops: seq<RingOp>, e: nat, slots: SlotCounts): (Queues, seq<Reply>)
    decreases |ops|
  {
    if ops == [] then (qs, [])
    else
      var (qs1, reply) := QueueStep(qs, ops[0], e, slots);
      var (qs2, replies) := QueueRun(qs1, ops[1..], e, slots);
      (qs2, [reply] + replies)
  }

  predicate LegalRun(qs: Queues, ops: seq<RingOp>, e: nat, slots: SlotCounts)
    decreases |ops|
  {
    ops == [] ||
    (Legal(qs, ops[0], e, slots) && LegalRun(QueueStep(qs, ops[0], e, slots).0, ops[1..], e, slots))
  }

  /** Over every legal run from rings that hold `qs`, the rings give the replies of two bounded
      queues, make only copies inside their lengths, and end holding the queues' items. */
  lemma {:induction false} RunRefinesQueues(rs: Rings, qs: Queues, ops: seq<RingOp>) returns (rs': Rings)
    requires HoldsBoth(rs, qs) && LegalRun(qs, ops, rs.a.e, SlotsOf(rs))
    ensures var (qs', replies) := QueueRun(qs, ops, rs.a.e, SlotsOf(rs));
            RingRun(rs, ops, replies, rs') && HoldsBoth(rs', qs')
    decreases |ops|
  {
    if ops == [] {
      rs' := rs;
    } else {
      StepRefines(rs, qs, ops[0]);
      var rs1 := RingStep(rs, ops[0]).0;
      var qs1 := QueueStep(qs, ops[0], rs.a.e, SlotsOf(rs)).0;
      rs' := RunRefinesQueues(rs1, qs1, ops[1..]);
      var (qs', replies) := QueueRun(qs, ops, rs.a.e, SlotsOf(rs));
      assert replies[1..] == QueueRun(qs1, ops[1..], rs.a.e, SlotsOf(rs)).1;
    }
  }
}
