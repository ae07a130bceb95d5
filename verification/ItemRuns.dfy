/** Runs of item pushes and pulls on one ring of any dimensions. */
module ItemRuns {
  import opened MachineTypes
  import opened RingModel

  datatype Op = Push(item: seq<byte>) | Pull

  /** A ring with the items it accepted and the items it delivered. */
  datatype Log = Log(ring: Ring, pushed: seq<seq<byte>>, pulled: seq<seq<byte>>)

  /** The number of items accepted and not yet delivered. */
  function Queued(t: Log): int {
    |t.pushed| - |t.pulled|
  }

  /** Memory generous enough for an element that starts at any offset of the ring, so that the
      offsets can be studied apart from the array bounds. */
  predicate Generous(r: Ring) {
    Valid(r) && 0 < r.e && r.len + r.e <= |r.buf|
  }

  predicate AllWide(ops: seq<Op>, e: nat) {
    forall k :: 0 <= k < |ops| && ops[k].Push? ==> e <= |ops[k].item|
  }

  /** Every pushed item is exactly one element long. */
  predicate AllExact(ops: seq<Op>, e: nat) {
    forall k :: 0 <= k < |ops| && ops[k].Push? ==> |ops[k].item| == e
  }

  function Step(t: Log, op: Op): (t': Log)
    requires Generous(t.ring) && (op.Push? ==> t.ring.e <= |op.item|)
    ensures Generous(t'.ring) && t'.ring.e == t.ring.e && t'.ring.len == t.ring.len
  {
    match op
    case Push(item) =>
      var p := PushItem(t.ring, item);
      Log(p.ring, if p.code == -1 then t.pushed else t.pushed + [item[..t.ring.e]], t.pulled)
    case Pull =>
      var p := PullItem(t.ring);
      Log(p.ring, t.pushed, if p.code == -1 then t.pulled else t.pulled + [p.item])
  }

  function Run(t: Log, ops: seq<Op>): (t': Log)
    requires Generous(t.ring) && AllWide(ops, t.ring.e)
    ensures Generous(t'.ring) && t'.ring.e == t.ring.e && t'.ring.len == t.ring.len
    decreases |ops|
  {
    if ops == [] then t
    else
      assert ops[0].Push? ==> t.ring.e <= |ops[0].item|;
      Run(Step(t, ops[0]), ops[1..])
  }

  /** A ring as the initialisers leave it. */
  ghost predicate Fresh(t: Log) {
    Generous(t.ring) && t.ring.head == t.ring.tail == 0 && t.pushed == [] && t.pulled == []
  }

  /** Some run from `t` ends in `s`. */
  ghost predicate Reaches(t: Log, ops: seq<Op>, s: Log) {
    Generous(t.ring) && AllWide(ops, t.ring.e) && Run(t, ops) == s
  }

  lemma NoSteps(t: Log)
    requires Generous(t.ring)
    ensures Reaches(t, [], t)
  {
  }

  lemma {:induction false} Extend(t: Log, ops: seq<Op>, s: Log, op: Op)
    requires Reaches(t, ops, s) && (op.Push? ==> t.ring.e <= |op.item|)
    ensures s.ring.e == t.ring.e && s.ring.len == t.ring.len && Generous(s.ring)
    ensures Reaches(t, ops + [op], Step(s, op))
    decreases |ops|
  {
    hide Step;
    if ops == [] {
      var one := ops + [op];
      assert one[0] == op && one[1..] == [];
      assert Run(t, one) == Run(Step(t, op), one[1..]) == Step(t, op);
    } else {
      assert ops[0].Push? ==> t.ring.e <= |ops[0].item|;
      Extend(Step(t, ops[0]), ops[1..], s, op);
      assert (ops + [op])[1..] == ops[1..] + [op];
    }
  }

  function Pushes(item: seq<byte>, n: nat): seq<Op> {
    seq(n, _ => Push(item))
  }

  /** As long as they do not reach the end, pushes into a fresh ring are all accepted, each right
      behind the last. */
  lemma {:induction false} PushesInARow(t: Log, item: seq<byte>, n: nat) returns (s: Log)
    requires Fresh(t) && t.ring.e <= |item| && n * t.ring.e < t.ring.len
    ensures Reaches(t, Pushes(item, n), s) && s.ring.e == t.ring.e && s.ring.len == t.ring.len
    ensures s.ring.head == 0 && s.ring.tail == n * t.ring.e && Queued(s) == n && s.pulled == []
    decreases n
  {
    if n == 0 {
      s := t;
      NoSteps(t);
      assert Pushes(item, 0) == [];
    } else {
      MulDistribute(n - 1, 1, t.ring.e);
      var u := PushesInARow(t, item, n - 1);
      Extend(t, Pushes(item, n - 1), u, Push(item));
      assert Pushes(item, n) == Pushes(item, n - 1) + [Push(item)];
      s := AppendBeforeEnd(u, item);
    }
  }

  lemma AppendBeforeEnd(u: Log, item: seq<byte>) returns (s: Log)
    requires Generous(u.ring) && u.ring.e <= |item| && u.ring.head == 0 && u.ring.tail + u.ring.e < u.ring.len
    ensures s == Step(u, Push(item))
    ensures s.ring.head == 0 && s.ring.tail == u.ring.tail + u.ring.e
    ensures Queued(s) == Queued(u) + 1 && s.pulled == u.pulled
  {
    s := Step(u, Push(item));
    assert Adv(u.ring.tail, u.ring.e, u.ring.len) == (u.ring.tail + u.ring.e) % u.ring.len;
  }
}
