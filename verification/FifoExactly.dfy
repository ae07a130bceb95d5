/** When the item ring is a first-in first-out queue at all: over every run of pushes and pulls,
    exactly when the element length divides the ring length. */
module FifoExactly {
  import opened MachineTypes
  import opened RingModel
  import opened FifoRefinement
  import opened ItemRuns

  /** Items come out as they went in, in the same order. */
  predicate InOrder(t: Log) {
    t.pulled <= t.pushed
  }

  // ---------------------------------------------------------------------------------------
  // If the element length divides the ring length
  // ---------------------------------------------------------------------------------------

  lemma {:induction false} AlignedRunInOrder(t: Log, q: seq<Item>, ops: seq<Op>)
    requires Generous(t.ring) && AllWide(ops, t.ring.e)
    requires Holds(t.ring, q) && t.pushed == t.pulled + q
    ensures InOrder(Run(t, ops))
    decreases |ops|
  {
    if ops != [] {
      assert ops[0].Push? ==> t.ring.e <= |ops[0].item|;
      var t1 := Step(t, ops[0]);
      QueueSize(t.ring, q);
      match ops[0]
      case Push(item) =>
        PushRefines(t.ring, q, item);
        AlignedRunInOrder(t1, if IsFull(t.ring) then q else q + [item[..t.ring.e]], ops[1..]);
      case Pull =>
        PullRefines(t.ring, q);
        AlignedRunInOrder(t1, if q == [] then q else q[1..], ops[1..]);
    }
  }

  // ---------------------------------------------------------------------------------------
  // If it does not
  // ---------------------------------------------------------------------------------------

  function Uniform(e: nat, b: byte): (s: Item)
    ensures |s| == e
  {
    seq(e, _ => b)
  }

  /** The oldest item is all zeros, and so is its window in memory. */
  ghost predicate OldestIsZero(t: Log) {
    && Generous(t.ring) && |t.pulled| < |t.pushed|
    && t.pushed[|t.pulled|] == Uniform(t.ring.e, 0)
    && t.ring.buf[t.ring.head..t.ring.head + t.ring.e] == Uniform(t.ring.e, 0)
  }

  ghost predicate Drained(t: Log) {
    Generous(t.ring) && t.ring.head == t.ring.tail && |t.pulled| == |t.pushed|
  }

  /** Pushing more zeros leaves the oldest item alone, wherever they land. */
  lemma PutZero(t: Log, item: Item)
    requires Generous(t.ring) && item == Uniform(t.ring.e, 0) && !IsFull(t.ring)
    requires OldestIsZero(t) || Drained(t)
    ensures var t' := Step(t, Push(item));
            && OldestIsZero(t') && t'.ring.tail == (t.ring.tail + t.ring.e) % t.ring.len
            && t'.ring.head == t.ring.head && t'.pulled == t.pulled && |t'.pushed| == |t.pushed| + 1
  {
    assert item[..t.ring.e] == item;
    if OldestIsZero(t) {
      ZerosStayZero(t.ring.buf, t.ring.head, t.ring.tail, t.ring.e);
    } else {
      ZerosWritten(t.ring.buf, t.ring.tail, t.ring.e);
    }
    hide Splice, Uniform;
  }

  lemma ZerosWritten(buf: seq<byte>, o: nat, e: nat)
    requires o + e <= |buf|
    ensures Splice(buf, o, Uniform(e, 0), 0, e)[o..o + e] == Uniform(e, 0)
  {
  }

  lemma ZerosStayZero(buf: seq<byte>, h: nat, o: nat, e: nat)
    requires h + e <= |buf| && o + e <= |buf| && buf[h..h + e] == Uniform(e, 0)
    ensures Splice(buf, o, Uniform(e, 0), 0, e)[h..h + e] == Uniform(e, 0)
  {
  }

  /** As many zeros as fit before the end, each right behind the last. */
  lemma {:induction false} FillWithZeros(t: Log, n: nat) returns (ops: seq<Op>, s: Log)
    requires Fresh(t) && 0 < n && n * t.ring.e < t.ring.len
    ensures Reaches(t, ops, s) && s.ring.e == t.ring.e && s.ring.len == t.ring.len
    ensures ops == Pushes(Uniform(t.ring.e, 0), n)
    ensures OldestIsZero(s) && s.ring.head == 0 && s.ring.tail == n * t.ring.e
    decreases n
  {
    var e, item := t.ring.e, Uniform(t.ring.e, 0);
    MulDistribute(n - 1, 1, e);
    ops, s := [], t;
    if n > 1 {
      ops, s := FillWithZeros(t, n - 1);
    }
    assert s.ring.tail == (n - 1) * e;
    assert Adv(s.ring.tail, e, t.ring.len) == (s.ring.tail + e) % t.ring.len == n * e;
    PutZero(s, item);
    Extend(t, ops, s, Push(item));
    ops, s := ops + [Push(item)], Step(s, Push(item));
  }

  /** An item that lands inside the window of the oldest item spoils it. */
  lemma OverwriteOldest(t: Log, ops: seq<Op>, s: Log, x: nat) returns (ops': seq<Op>)
    requires Reaches(t, ops, s) && OldestIsZero(s) && !IsFull(s.ring) && !IsEmpty(s.ring)
    requires s.ring.e == t.ring.e && s.ring.len == t.ring.len
    requires s.ring.head <= x < s.ring.head + s.ring.e && s.ring.tail <= x < s.ring.tail + s.ring.e
    ensures ops' == ops + [Push(Uniform(t.ring.e, 1))] + [Pull]
    ensures AllWide(ops', t.ring.e) && !InOrder(Run(t, ops'))
  {
    var one := Uniform(s.ring.e, 1);
    var u := Step(s, Push(one));
    assert Adv(s.ring.tail, s.ring.e, s.ring.len) == (s.ring.tail + s.ring.e) % s.ring.len;
    assert u.ring.buf[x] == 1;
    var v := Step(u, Pull);
    assert v.pulled[|s.pulled|][x - s.ring.head] == 1;
    assert v.pushed[|s.pulled|][x - s.ring.head] == 0;
    Extend(t, ops, s, Push(one));
    Extend(t, ops + [Push(one)], u, Pull);
    ops' := ops + [Push(one)] + [Pull];
  }

  /** The general case: one item past the wrap, the next one lands on the oldest, and the first
      pull delivers it spoilt. */
  lemma WrapOverwrites(t: Log) returns (ops: seq<Op>)
    requires Fresh(t) && t.ring.e < t.ring.len && !Divides(t.ring.e, t.ring.len)
    requires 3 * t.ring.e != 2 * t.ring.len
    ensures ops == Pushes(Uniform(t.ring.e, 0), t.ring.len / t.ring.e + 1)
                 + [Push(Uniform(t.ring.e, 1))] + [Pull]
    ensures AllWide(ops, t.ring.e) && !InOrder(Run(t, ops))
  {
    var e, len := t.ring.e, t.ring.len;
    var c := len / e;
    var d := WrapOffsets(c, e, len);
    var fill, s := FillWithZeros(t, c);
    AdvIsMod(c * e, e, len);
    AdvIsMod(d, e, len);
    hide Adv;
    PutZero(s, Uniform(e, 0));
    Extend(t, fill, s, Push(Uniform(e, 0)));
    hide Run, Step, Splice, Uniform, OldestIsZero;
    var u := Step(s, Push(Uniform(e, 0)));
    assert fill + [Push(Uniform(e, 0))] == Pushes(Uniform(e, 0), c + 1);
    ops := OverwriteOldest(t, fill + [Push(Uniform(e, 0))], u, d);
  }

  /** One element past the last whole one lands a distance `d` behind the start, and the next one
      does not reach the start again unless three elements make two rounds. */
  lemma WrapOffsets(c: nat, e: nat, len: nat) returns (d: nat)
    requires 0 < e < len && !Divides(e, len) && c == len / e && 3 * e != 2 * len
    ensures 0 < c && 0 < c * e < len && 0 < d < e
    ensures Adv(c * e, e, len) == d && Adv(d, e, len) != 0
  {
    hide Adv;
    LastWhole(e, len);
    AtLeastOne(c, e, len);
    MulAtLeast(c, e);
    NotFullAgain(c, e, len);
    d := WrapOnce(c * e, e, len);
  }

  lemma AtLeastOne(c: nat, e: nat, len: nat)
    requires 0 < e < len && c == len / e
    ensures c > 0
  {
  }

  lemma NotFullAgain(c: nat, e: nat, len: nat)
    requires 0 < c && c * e < len < c * e + e && 3 * e != 2 * len
    ensures c * e + 2 * e != 2 * len
  {
  }

  lemma WrapOnce(o: nat, e: nat, len: nat) returns (d: nat)
    requires 0 < o < len < o + e && e < len && o + 2 * e != 2 * len
    ensures 0 < d < e && Adv(o, e, len) == d && Adv(d, e, len) != 0
  {
    hide Adv;
    d := o + e - len;
  }

  /** One item in and out again moves both offsets. */
  lemma MoveThrough(t: Log, ops: seq<Op>, s: Log) returns (ops': seq<Op>, s': Log)
    requires Reaches(t, ops, s) && Drained(s) && !IsFull(s.ring)
    requires s.ring.e == t.ring.e && s.ring.len == t.ring.len
    ensures Reaches(t, ops', s') && Drained(s') && s'.ring.tail == (s.ring.tail + s.ring.e) % s.ring.len
    ensures s'.ring.e == t.ring.e && s'.ring.len == t.ring.len
    ensures ops' == ops + [Push(Uniform(t.ring.e, 0))] + [Pull]
  {
    var item := Uniform(t.ring.e, 0);
    var u := Step(s, Push(item));
    PutZero(s, item);
    Extend(t, ops, s, Push(item));
    Extend(t, ops + [Push(item)], u, Pull);
    ops', s' := ops + [Push(item)] + [Pull], Step(u, Pull);
    assert Adv(s.ring.tail, s.ring.e, s.ring.len) == (s.ring.tail + s.ring.e) % s.ring.len;
  }

  /** The one case left, three elements in two rounds: two items are moved through first. */
  lemma ThreeInTwo(t: Log) returns (ops: seq<Op>)
    requires Fresh(t) && 3 * t.ring.e == 2 * t.ring.len
    ensures var zero, one := Push(Uniform(t.ring.e, 0)), Push(Uniform(t.ring.e, 1));
            ops == [zero, Pull, zero, Pull, zero, one, Pull]
    ensures AllWide(ops, t.ring.e) && !InOrder(Run(t, ops))
  {
    var e := t.ring.e;
    var h := t.ring.len - e;
    var zero := Push(Uniform(e, 0));
    ThirdOffsets(e, t.ring.len);
    NoSteps(t);
    var ops1, s1 := MoveThrough(t, [], t);
    var ops2, s2 := MoveThrough(t, ops1, s1);
    PutZero(s2, Uniform(e, 0));
    hide Run, Uniform, Splice;
    Extend(t, ops2, s2, zero);
    ops := OverwriteOldest(t, ops2 + [zero], Step(s2, zero), h);
  }

  lemma ThirdOffsets(e: nat, len: nat)
    requires 0 < e && 3 * e == 2 * len
    ensures e % len == e && (e + e) % len == len - e && len % len == 0
  {
    assert Adv(0, e, len) == (0 + e) % len;
    assert Adv(e, e, len) == (e + e) % len;
  }

  lemma OutOfOrder(t: Log) returns (ops: seq<Op>)
    requires Fresh(t) && t.ring.e <= t.ring.len && !Divides(t.ring.e, t.ring.len)
    ensures AllExact(ops, t.ring.e) && AllWide(ops, t.ring.e) && !InOrder(Run(t, ops))
  {
    hide Run, InOrder, Fresh;
    if 3 * t.ring.e == 2 * t.ring.len {
      ops := ThreeInTwo(t);
    } else {
      assert t.ring.e == t.ring.len ==> Divides(t.ring.e, t.ring.len);
      ops := WrapOverwrites(t);
    }
  }

  /** With memory generous enough for every window, the ring delivers items as they went in, in
      every run, if and only if the element length divides the ring length. */
  lemma FirstInFirstOutIff(t: Log)
    requires Fresh(t) && t.ring.e <= t.ring.len
    ensures (forall ops :: AllWide(ops, t.ring.e) ==> InOrder(Run(t, ops)))
       <==> Divides(t.ring.e, t.ring.len)
  {
    if Divides(t.ring.e, t.ring.len) {
      EmptyRingHolds(t.ring);
      forall ops | AllWide(ops, t.ring.e)
        ensures InOrder(Run(t, ops))
      {
        AlignedRunInOrder(t, [], ops);
      }
    } else {
      var ops := OutOfOrder(t);
    }
  }
}
