/** Where the block copies of the item operations lie. They are not split at the end of the ring,
    so whether they stay inside it is a matter of the ring's dimensions. */
module ItemWindows {
  import opened MachineTypes
  import opened RingModel
  import opened ItemRuns
  import opened ItemCapacity
  import opened FifoRefinement

  // ---------------------------------------------------------------------------------------
  // Over every run of pushes and pulls
  // ---------------------------------------------------------------------------------------

  /** The next push is refused, or its copy ends inside the ring. */
  predicate NextPushInside(r: Ring)
    requires Valid(r)
  {
    IsFull(r) || r.tail + r.e <= r.len
  }

  lemma StepKeepsAligned(t: Log, op: Op)
    requires Generous(t.ring) && Aligned(t.ring) && (op.Push? ==> t.ring.e <= |op.item|)
    ensures Aligned(Step(t, op).ring)
  {
    AlignedRoom(t.ring);
    AdvMultiple(t.ring.tail, t.ring.e, t.ring.len, t.ring.e);
    AdvMultiple(t.ring.head, t.ring.e, t.ring.len, t.ring.e);
  }

  lemma {:induction false} RunKeepsAligned(t: Log, ops: seq<Op>)
    requires Generous(t.ring) && Aligned(t.ring) && AllWide(ops, t.ring.e)
    ensures Aligned(Run(t, ops).ring)
    decreases |ops|
  {
    if ops != [] {
      assert ops[0].Push? ==> t.ring.e <= |ops[0].item|;
      StepKeepsAligned(t, ops[0]);
      RunKeepsAligned(Step(t, ops[0]), ops[1..]);
    }
  }

  /** When the element length does not divide the ring length, filling a fresh ring up to its last
      whole element brings an accepted push whose copy ends outside. */
  lemma OverrunReached(t: Log, item: seq<byte>)
    requires Fresh(t) && t.ring.e < t.ring.len && !Divides(t.ring.e, t.ring.len) && t.ring.e <= |item|
    ensures var s := Run(t, Pushes(item, t.ring.len / t.ring.e));
            && Queued(s) == t.ring.len / t.ring.e && !IsFull(s.ring)
            && s.ring.tail <= t.ring.len < s.ring.tail + t.ring.e
  {
    LastWhole(t.ring.e, t.ring.len);
    var s := PushesInARow(t, item, t.ring.len / t.ring.e);
    PastTheEnd(s.ring);
  }

  lemma PastTheEnd(r: Ring)
    requires Valid(r) && r.head == 0 && r.tail < r.len < r.tail + r.e && r.e < r.len
    ensures !IsFull(r)
  {
    assert Adv(r.tail, r.e, r.len) == (r.tail + r.e) % r.len;
  }

  lemma OverrunOps(t: Log) returns (ops: seq<Op>)
    requires Fresh(t) && t.ring.e <= t.ring.len && !Divides(t.ring.e, t.ring.len)
    ensures AllExact(ops, t.ring.e) && AllWide(ops, t.ring.e)
    ensures var r := Run(t, ops).ring;
            !IsFull(r) && r.tail + r.e > r.len
  {
    assert t.ring.e == t.ring.len ==> Divides(t.ring.e, t.ring.len);
    var item := seq(t.ring.e, _ => 0);
    ops := Pushes(item, t.ring.len / t.ring.e);
    OverrunReached(t, item);
  }

  /** Every accepted push of every run copies into the ring only, if and only if the element
      length divides the ring length. */
  lemma PushesInsideIff(t: Log)
    requires Fresh(t) && t.ring.e <= t.ring.len
    ensures (forall ops :: AllWide(ops, t.ring.e) ==> NextPushInside(Run(t, ops).ring))
       <==> Divides(t.ring.e, t.ring.len)
  {
    var e := t.ring.e;
    if Divides(e, t.ring.len) {
      forall ops | AllWide(ops, e)
        ensures NextPushInside(Run(t, ops).ring)
      {
        RunKeepsAligned(t, ops);
        AlignedRoom(Run(t, ops).ring);
      }
    } else {
      var ops := OverrunOps(t);
    }
  }

  /** The network ring: after eight accepted pushes the ninth is not refused, starts at 256 and
      ends at 288, in a ring of 280. */
  lemma NinthPushOverruns(t: Log, item: seq<byte>)
    requires Fresh(t) && t.ring.e == 32 && t.ring.len == 280 && 32 <= |item|
    ensures var s := Run(t, Pushes(item, 8));
            && Queued(s) == 8 && s.ring.tail == 256 && !IsFull(s.ring) && s.ring.tail + s.ring.e == 288
  {
    hide Run, Pushes;
    var s := PushesInARow(t, item, 8);
  }

  // ---------------------------------------------------------------------------------------
  // Over rounds of one push and one pull
  // ---------------------------------------------------------------------------------------

  /** An empty ring after one item went in and out again. */
  function Round(r: Ring, item: seq<byte>): (r': Ring)
    requires Valid(r) && IsEmpty(r) && 0 < r.e <= r.len && r.tail + r.e <= |r.buf| && r.e <= |item|
    ensures Valid(r') && IsEmpty(r') && r'.e == r.e && r'.len == r.len && |r'.buf| == |r.buf|
    ensures r'.tail == Adv(r.tail, r.e, r.len)
  {
    assert Adv(r.tail, r.e, r.len) == (r.tail + r.e) % r.len;
    PullItem(PushItem(r, item).ring).ring
  }

  ghost predicate Idle(r: Ring, items: seq<Item>) {
    Valid(r) && IsEmpty(r) && 0 < r.e <= r.len && AllLong(items, r.e)
  }

  /** Every copy of the rounds that take these items through the ring stays inside the memory. */
  ghost predicate RoundsFit(r: Ring, items: seq<Item>)
    requires Idle(r, items)
    decreases |items|
  {
    items == [] || (r.tail + r.e <= |r.buf| && RoundsFit(Round(r, items[0]), items[1..]))
  }

  lemma {:induction false} AlignedRoundsFit(r: Ring, items: seq<Item>)
    requires Idle(r, items) && Aligned(r)
    ensures RoundsFit(r, items)
    decreases |items|
  {
    if items != [] {
      AlignedRoom(r);
      AdvMultiple(r.tail, r.e, r.len, r.e);
      AlignedRoundsFit(Round(r, items[0]), items[1..]);
    }
  }

  /** From the `j`-th element on, the rounds fit up to the last whole element `c`. */
  lemma {:induction false} RoundsFitUpTo(r: Ring, items: seq<Item>, j: nat, c: nat)
    requires Idle(r, items) && r.len == |r.buf|
    requires r.tail == j * r.e && j <= c && c * r.e < r.len < c * r.e + r.e
    ensures RoundsFit(r, items) <==> j + |items| <= c
    decreases |items|
  {
    if items != [] && j < c {
      MulMonotone(j + 1, c, r.e);
      MulDistribute(j, 1, r.e);
      RoundsFitUpTo(Round(r, items[0]), items[1..], j + 1, c);
    }
  }

  /** For a fresh ring whose memory is as long as the ring: the rounds stay inside it exactly when
      the element length divides the ring length, or when there are no more of them than whole
      elements fit. */
  lemma RoundsFitIff(r: Ring, items: seq<Item>)
    requires Idle(r, items) && r.len == |r.buf| && r.tail == 0
    ensures RoundsFit(r, items) <==> Divides(r.e, r.len) || |items| <= r.len / r.e
  {
    if Divides(r.e, r.len) {
      AlignedRoundsFit(r, items);
    } else {
      LastWhole(r.e, r.len);
      assert 0 * r.e == 0;
      RoundsFitUpTo(r, items, 0, r.len / r.e);
    }
  }

  /** The rounds can go on for ever inside the memory if and only if the element length divides
      the ring length. */
  lemma AllRoundsFitIff(r: Ring)
    requires Idle(r, []) && r.len == |r.buf| && r.tail == 0
    ensures (forall items :: AllLong(items, r.e) ==> RoundsFit(r, items)) <==> Divides(r.e, r.len)
  {
    forall items | AllLong(items, r.e)
      ensures RoundsFit(r, items) <==> Divides(r.e, r.len) || |items| <= r.len / r.e
    {
      RoundsFitIff(r, items);
    }
    var long := seq(r.len / r.e + 1, _ => seq(r.e, _ => 0));
    assert AllLong(long, r.e);
  }

  // ---------------------------------------------------------------------------------------
  // In any memory
  // ---------------------------------------------------------------------------------------

  /** Where the `j`-th element starts. */
  function Offset(j: nat, e: nat, len: nat): (o: nat)
    requires len > 0
    ensures o < len
  {
    (j * e) % len
  }

  /** The windows of elements number `j` to `n - 1` lie inside `m` bytes. */
  predicate WindowsFit(j: nat, n: nat, e: nat, len: nat, m: nat)
    requires len > 0
  {
    forall k :: j <= k < n ==> Offset(k, e, len) + e <= m
  }

  lemma OffsetsAdd(i: nat, j: nat, e: nat, len: nat)
    requires len > 0
    ensures Offset(i + j, e, len) == Adv(Offset(i, e, len), Offset(j, e, len), len)
  {
    MulDistribute(i, j, e);
    ModAddLeft(i * e, j * e, len);
    ModAddLeft(j * e, Offset(i, e, len), len);
    AdvIsMod(Offset(i, e, len), Offset(j, e, len), len);
  }

  lemma NextWindow(j: nat, e: nat, len: nat)
    requires len > 0
    ensures Offset(j + 1, e, len) == Adv(Offset(j, e, len), e, len)
  {
    PushOffset(0, j, e, len);
  }

  lemma {:induction false} RoundsFitFrom(r: Ring, items: seq<Item>, j: nat)
    requires Idle(r, items) && r.tail == Offset(j, r.e, r.len)
    ensures RoundsFit(r, items) <==> WindowsFit(j, j + |items|, r.e, r.len, |r.buf|)
    decreases |items|
  {
    hide Offset, Round;
    if items != [] && r.tail + r.e <= |r.buf| {
      NextWindow(j, r.e, r.len);
      RoundsFitFrom(Round(r, items[0]), items[1..], j + 1);
    }
  }

  /** For a fresh ring in a memory of any length: the rounds stay inside it exactly when every
      window they use does. */
  lemma RoundsFitExactly(r: Ring, items: seq<Item>)
    requires Idle(r, items) && r.tail == 0
    ensures RoundsFit(r, items) <==> WindowsFit(0, |items|, r.e, r.len, |r.buf|)
  {
    RoundsFitFrom(r, items, 0);
  }

  /** No element starts closer to the end of the ring than the greatest common divisor. */
  lemma OffsetAtMost(j: nat, e: nat, len: nat, g: nat)
    requires len > 0 && Divides(g, e) && Divides(g, len)
    ensures Offset(j, e, len) + g <= len
  {
    var a := Quotient(g, e);
    var b := Quotient(g, len);
    var c := (j * e) / len;
    MulAssoc(j, a, g);
    MulAssoc(c, b, g);
    MulDistribute(j * a, -(c * b), g);
    CompareMultiples(j * a - c * b, b, g);
    MulMonotone(j * a - c * b + 1, b, g);
    MulDistribute(j * a - c * b, 1, g);
  }

  /** Some element starts last. */
  lemma LastOffset(e: nat, len: nat) returns (j: nat)
    requires len > 0
    ensures forall k :: Offset(k, e, len) <= Offset(j, e, len)
  {
    j := 0;
    while exists k: nat :: Offset(k, e, len) > Offset(j, e, len)
      decreases len - Offset(j, e, len)
    {
      var k: nat :| Offset(k, e, len) > Offset(j, e, len);
      j := k;
    }
  }

  /** The distance from the last offset to the end divides every offset: going on from the last one
      steps back by that distance. */
  lemma {:induction false} LastDistanceDivides(j: nat, i: nat, e: nat, len: nat)
    requires len > 0 && forall k :: Offset(k, e, len) <= Offset(j, e, len)
    ensures Divides(len - Offset(j, e, len), Offset(i, e, len))
    decreases Offset(i, e, len)
  {
    var d, o := len - Offset(j, e, len), Offset(i, e, len);
    OffsetsAdd(i, j, e, len);
    hide Offset;
    if o >= d {
      LastDistanceDivides(j, i + j, e, len);
      ModShift(o - d, 1, d);
    } else {
      assert o == 0;
    }
  }

  lemma DividesSum(d: nat, x: nat, q: nat, y: nat)
    requires Divides(d, x) && Divides(d, y)
    ensures Divides(d, q * x + y)
  {
    var a := Quotient(d, x);
    var b := Quotient(d, y);
    MulAssoc(q, a, d);
    MulDistribute(q * a, b, d);
    MultipleIsZero(q * a + b, d);
  }

  /** And so it divides both lengths. */
  lemma LastOffsetReaches(j: nat, e: nat, len: nat, g: nat)
    requires len > 0 && IsGcd(g, e, len) && forall k :: Offset(k, e, len) <= Offset(j, e, len)
    ensures len - g <= Offset(j, e, len)
  {
    var d := len - Offset(j, e, len);
    LastDistanceDivides(j, j, e, len);
    LastDistanceDivides(j, 1, e, len);
    assert d == 1 * d + 0;
    DivModUnique(d, 1, 0, d);
    DividesSum(d, d, 1, Offset(j, e, len));
    DividesSum(d, len, e / len, Offset(1, e, len));
    assert Offset(1, e, len) == e % len;
    assert e == e / len * len + e % len;
  }

  /** The windows of all elements fit exactly into the ring and one element more, less the greatest
      common divisor of both lengths. */
  lemma AllWindowsFitIff(e: nat, len: nat, m: nat, g: nat)
    requires 0 < e && 0 < len && IsGcd(g, e, len)
    ensures (forall n: nat :: WindowsFit(0, n, e, len, m)) <==> len + e - g <= m
  {
    if len + e - g <= m {
      forall k: nat
        ensures Offset(k, e, len) + e <= m
      {
        OffsetAtMost(k, e, len, g);
      }
    } else {
      var j := LastOffset(e, len);
      LastOffsetReaches(j, e, len, g);
      assert !WindowsFit(0, j + 1, e, len, m);
    }
  }

  /** The rounds can go on for ever inside a memory if and only if it has that length. */
  lemma RoundsFitForEverIff(r: Ring, g: nat)
    requires Idle(r, []) && r.tail == 0 && IsGcd(g, r.e, r.len)
    ensures (forall items :: AllLong(items, r.e) ==> RoundsFit(r, items)) <==> r.len + r.e - g <= |r.buf|
  {
    AllWindowsFitIff(r.e, r.len, |r.buf|, g);
    forall items | AllLong(items, r.e)
      ensures RoundsFit(r, items) <==> WindowsFit(0, |items|, r.e, r.len, |r.buf|)
    {
      RoundsFitExactly(r, items);
    }
    forall n: nat | forall items :: AllLong(items, r.e) ==> RoundsFit(r, items)
      ensures WindowsFit(0, n, r.e, r.len, |r.buf|)
    {
      var items := seq(n, _ => seq(r.e, _ => 0));
      assert AllLong(items, r.e) && |items| == n;
    }
  }

  /** The parent's loop can serve the network ring for ever in 304 bytes, and in no less. */
  lemma NetworkMemory(r: Ring)
    requires Idle(r, []) && r.tail == 0 && r.e == 32 && r.len == 280
    ensures (forall items :: AllLong(items, 32) ==> RoundsFit(r, items)) <==> 304 <= |r.buf|
  {
    NetworkGcd();
    RoundsFitForEverIff(r, 8);
  }

  /** The network ring: the parent's loop stays inside its memory for eight frames, no more. */
  lemma NetworkRoundsFit(r: Ring, items: seq<Item>)
    requires Idle(r, items) && r.e == 32 && r.len == |r.buf| == 280 && r.tail == 0
    ensures RoundsFit(r, items) <==> |items| <= 8
  {
    RoundsFitIff(r, items);
  }
}
