/** How many items the full test of the ring admits, for any element length and any ring
    length, over every run of item pushes and pulls. */
module ItemCapacity {
  import opened MachineTypes
  import opened RingModel
  import opened ItemRuns

  ghost predicate IsGcd(g: nat, a: nat, b: nat) {
    Divides(g, a) && Divides(g, b) && forall d: nat :: Divides(d, a) && Divides(d, b) ==> d <= g
  }

  /** Advancing `m` elements of `e` bytes in a ring of `len` bytes comes back to the start. */
  predicate Returns(m: nat, e: nat, len: nat)
    requires len > 0
  {
    (m * e) % len == 0
  }

  lemma MultipleIsZero(q: nat, d: nat)
    requires d > 0
    ensures (q * d) % d == 0
  {
    DivModUnique(q * d, q, 0, d);
  }

  lemma LeastReturn(e: nat, len: nat) returns (p: nat)
    requires len > 0
    ensures 0 < p && Returns(p, e, len)
    ensures forall m: nat :: 0 < m < p ==> !Returns(m, e, len)
  {
    p := 1;
    FullCircle(e, len);
    while !Returns(p, e, len)
      invariant 0 < p <= len
      invariant forall m: nat :: 0 < m < p ==> !Returns(m, e, len)
      decreases len - p
    {
      p := p + 1;
    }
  }

  lemma Regroup(q: nat, p: nat, r: nat, e: nat, t: nat, len: nat)
    requires p * e == t * len
    ensures (q * p + r) * e == r * e + (q * t) * len
  {
  }

  /** Whole returns can be taken off the count. */
  lemma DropReturns(q: nat, p: nat, r: nat, e: nat, len: nat)
    requires len > 0 && Returns(p, e, len)
    ensures Returns(q * p + r, e, len) <==> Returns(r, e, len)
  {
    var t := (p * e) / len;
    Regroup(q, p, r, e, t, len);
    ModShift(r * e, q * t, len);
  }

  lemma ReturnsIffMultiple(p: nat, m: nat, e: nat, len: nat)
    requires len > 0 && 0 < p && Returns(p, e, len)
    requires forall k: nat :: 0 < k < p ==> !Returns(k, e, len)
    ensures Returns(m, e, len) <==> Divides(p, m)
  {
    NoReturns(e, len);
    hide Returns;
    var q, r := m / p, m % p;
    DropReturns(q, p, r, e, len);
    assert m == q * p + r;
  }

  lemma NoReturns(e: nat, len: nat)
    requires len > 0
    ensures Returns(0, e, len)
  {
  }

  lemma FullCircle(e: nat, len: nat)
    requires len > 0
    ensures Returns(len, e, len)
  {
    MultipleIsZero(e, len);
  }

  /** The quotient of the ring length by the least return divides both lengths. */
  lemma QuotientDividesBoth(p: nat, e: nat, len: nat) returns (h: nat)
    requires len > 0 && 0 < p && Returns(p, e, len)
    requires forall k: nat :: 0 < k < p ==> !Returns(k, e, len)
    ensures len == p * h && Divides(h, e) && Divides(h, len)
  {
    FullCircle(e, len);
    ReturnsIffMultiple(p, len, e, len);
    h := len / p;
    var t := (p * e) / len;
    MulSwap(t, p, h);
    CancelLeft(p, e, t * h);
    MultipleIsZero(t, h);
    MultipleIsZero(p, h);
  }

  /** The least return is the ring length over the greatest common divisor. */
  lemma LeastReturnIsQuotient(p: nat, e: nat, len: nat, g: nat)
    requires len > 0 && 0 < p && Returns(p, e, len) && IsGcd(g, e, len)
    requires forall k: nat :: 0 < k < p ==> !Returns(k, e, len)
    ensures p * g == len
  {
    hide Divides, Returns;
    var h := QuotientDividesBoth(p, e, len);
    var a := Quotient(g, e);
    var b := Quotient(g, len);
    CofactorReturns(a, b, g);
    ReturnsIffMultiple(p, b, e, len);
    var c := Quotient(p, b);
    GcdAtLeast(p, h, c, g);
  }

  lemma Quotient(d: nat, x: nat) returns (q: nat)
    requires Divides(d, x)
    ensures x == q * d
  {
    q := x / d;
  }

  lemma CofactorReturns(a: nat, b: nat, g: nat)
    requires b * g > 0
    ensures Returns(b, a * g, b * g)
  {
    MulSwap(b, a, g);
    MultipleIsZero(a, b * g);
  }

  lemma GcdAtLeast(p: nat, h: nat, c: nat, g: nat)
    requires 0 < p && 0 < p * h == (c * p) * g
    ensures h >= g
  {
    MulAssoc(c, p, g);
    MulSwap(c, p, g);
    CancelLeft(p, h, c * g);
    assert c > 0;
    MulAtLeast(c, g);
  }

  lemma CancelLeft(p: nat, x: nat, y: nat)
    requires p > 0 && p * x == p * y
    ensures x == y
  {
  }

  /** The exact return condition, for every element and ring length. */
  lemma ReturnsExactly(m: nat, e: nat, len: nat, g: nat)
    requires len > 0 && IsGcd(g, e, len)
    ensures Returns(m, e, len) <==> Divides(len / g, m)
  {
    var p := LeastReturn(e, len);
    LeastReturnIsQuotient(p, e, len, g);
    DivModUnique(len, p, 0, g);
    ReturnsIffMultiple(p, m, e, len);
  }

  // ---------------------------------------------------------------------------------------
  // Every run of item operations
  // ---------------------------------------------------------------------------------------

  /** The tail is `queued` elements past the head, and fewer than a whole period are queued. */
  ghost predicate Phase(t: Log, g: nat) {
    && Generous(t.ring) && IsGcd(g, t.ring.e, t.ring.len)
    && 0 <= Queued(t) < t.ring.len / g
    && t.ring.tail == (t.ring.head + Queued(t) * t.ring.e) % t.ring.len
  }

  lemma BackAtHead(h: nat, x: nat, len: nat)
    requires h < len
    ensures (h + x) % len == h <==> x % len == 0
  {
    var m := x % len;
    ModAddLeft(x, h, len);
    assert (h + x) % len == (m + h) % len;
    assert (m + h) % len == Adv(m, h, len);
  }

  lemma SmallMultiple(m: nat, p: nat)
    requires 0 < m <= p
    ensures Divides(p, m) <==> m == p
  {
  }

  lemma NextOffset(t: Log)
    requires Generous(t.ring) && Queued(t) >= 0
    requires t.ring.tail == (t.ring.head + Queued(t) * t.ring.e) % t.ring.len
    ensures (t.ring.tail + t.ring.e) % t.ring.len == (t.ring.head + (Queued(t) + 1) * t.ring.e) % t.ring.len
  {
    var x := Queued(t) * t.ring.e;
    ModAddLeft(t.ring.head + x, t.ring.e, t.ring.len);
    assert (Queued(t) + 1) * t.ring.e == x + t.ring.e;
  }

  /** In every phase both tests are exact: full is one element short of a period, and equal
      offsets mean that nothing is queued. */
  lemma TestsAreExact(t: Log, g: nat)
    requires Phase(t, g)
    ensures IsFull(t.ring) <==> Queued(t) == t.ring.len / g - 1
    ensures IsEmpty(t.ring) <==> Queued(t) == 0
  {
    var r, q, p := t.ring, Queued(t), t.ring.len / g;
    NextOffset(t);
    BackAtHead(r.head, (q + 1) * r.e, r.len);
    ReturnsExactly(q + 1, r.e, r.len, g);
    SmallMultiple(q + 1, p);
    if q > 0 {
      BackAtHead(r.head, q * r.e, r.len);
      ReturnsExactly(q, r.e, r.len, g);
      SmallMultiple(q, p);
    } else {
      BackAtHead(r.head, 0, r.len);
    }
  }

  lemma PushOffset(head: nat, q: nat, e: nat, len: nat)
    requires len > 0
    ensures Adv((head + q * e) % len, e, len) == (head + (q + 1) * e) % len
  {
    MulDistribute(q, 1, e);
    AddAfter(head + q * e, e, len);
  }

  lemma AddAfter(x: nat, k: nat, len: nat)
    requires len > 0
    ensures Adv(x % len, k, len) == (x + k) % len
  {
    ModAddLeft(x, k, len);
    AdvIsMod(x % len, k, len);
  }

  lemma AddBefore(head: nat, k: nat, x: nat, len: nat)
    requires len > 0
    ensures (Adv(head, k, len) + x) % len == (head + k + x) % len
  {
    AdvIsMod(head, k, len);
    ModAddLeft(head + k, x, len);
  }

  lemma PushKeepsPhase(t: Log, op: Op, g: nat)
    requires Phase(t, g) && op.Push? && t.ring.e <= |op.item|
    ensures Phase(Step(t, op), g)
  {
    TestsAreExact(t, g);
    PushOffset(t.ring.head, Queued(t), t.ring.e, t.ring.len);
    hide IsGcd, IsFull, Adv, Splice;
  }

  lemma PullOffset(head: nat, q: nat, e: nat, len: nat)
    requires len > 0 && q > 0
    ensures (head + q * e) % len == (Adv(head, e, len) + (q - 1) * e) % len
  {
    MulDistribute(q - 1, 1, e);
    AddBefore(head, e, (q - 1) * e, len);
  }

  lemma PullKeepsPhase(t: Log, g: nat)
    requires Phase(t, g)
    ensures Phase(Step(t, Pull), g)
  {
    TestsAreExact(t, g);
    hide IsGcd, IsFull, Adv;
    if Queued(t) > 0 {
      PullOffset(t.ring.head, Queued(t), t.ring.e, t.ring.len);
    }
  }

  lemma StepKeepsPhase(t: Log, op: Op, g: nat)
    requires Phase(t, g) && (op.Push? ==> t.ring.e <= |op.item|)
    ensures Phase(Step(t, op), g)
  {
    match op
    case Push(_) => PushKeepsPhase(t, op, g);
    case Pull => PullKeepsPhase(t, g);
  }

  lemma {:induction false} RunKeepsPhase(t: Log, ops: seq<Op>, g: nat)
    requires Phase(t, g) && AllWide(ops, t.ring.e)
    ensures Phase(Run(t, ops), g)
    decreases |ops|
  {
    if ops != [] {
      assert ops[0].Push? ==> t.ring.e <= |ops[0].item|;
      StepKeepsPhase(t, ops[0], g);
      RunKeepsPhase(Step(t, ops[0]), ops[1..], g);
    }
  }

  /** In every reachable state, the full test fires exactly when `len / g - 1` items are queued,
      and the empty test exactly when none is. */
  lemma ReachableCapacity(t: Log, ops: seq<Op>, g: nat)
    requires Fresh(t) && IsGcd(g, t.ring.e, t.ring.len) && AllWide(ops, t.ring.e)
    ensures var s := Run(t, ops);
            && 0 <= Queued(s) <= t.ring.len / g - 1
            && (IsFull(s.ring) <==> Queued(s) == t.ring.len / g - 1)
            && (IsEmpty(s.ring) <==> Queued(s) == 0)
  {
    FreshHasPhase(t, g);
    RunKeepsPhase(t, ops, g);
    TestsAreExact(Run(t, ops), g);
  }

  lemma FreshHasPhase(t: Log, g: nat)
    requires Fresh(t) && IsGcd(g, t.ring.e, t.ring.len)
    ensures Phase(t, g)
  {
  }

  /** With no pulls, exactly the first `len / g - 1` pushes are accepted. */
  lemma {:induction false} AcceptedPushes(t: Log, item: seq<byte>, n: nat, g: nat)
    requires Phase(t, g) && t.ring.e <= |item|
    ensures var s := Run(t, Pushes(item, n));
            var room := t.ring.len / g - 1 - Queued(t);
            Queued(s) == Queued(t) + if n <= room then n else room
    decreases n
  {
    if n > 0 {
      TestsAreExact(t, g);
      var ops := Pushes(item, n);
      assert ops[1..] == Pushes(item, n - 1);
      StepKeepsPhase(t, ops[0], g);
      AcceptedPushes(Step(t, ops[0]), item, n - 1, g);
    }
  }

  /** Filling the ring to its last accepted item stays below the ring length exactly when the
      element length divides the ring length. */
  lemma LastAcceptedBytes(e: nat, len: nat, g: nat)
    requires 0 < e <= len && IsGcd(g, e, len)
    ensures (len / g - 1) * e < len <==> Divides(e, len)
  {
    var p, a := len / g, e / g;
    assert len == p * g && e == a * g;
    MulSwap(p, a, g);
    MulDistribute(p, -1, e);
    assert (p - 1) * e == a * len - e;
    OneLengthOnly(a, e, len);
    WholeDivisor(e, len, g);
  }

  lemma OneLengthOnly(a: nat, e: nat, len: nat)
    requires 0 < e <= len && a > 0
    ensures a * len - e < len <==> a == 1
  {
    if a > 1 {
      MulMonotone(2, a, len);
    }
  }

  lemma WholeDivisor(e: nat, len: nat, g: nat)
    requires 0 < e && IsGcd(g, e, len)
    ensures e / g > 0
    ensures e / g == 1 <==> Divides(e, len)
  {
    DivModUnique(e, 1, 0, e);
    if Divides(e, len) {
      assert g == e;
    }
  }

  /** The accepted bytes stay below the ring length in every reachable state if and only if the
      element length divides the ring length. */
  lemma BytesStayBelowIff(t: Log)
    requires Fresh(t) && t.ring.e <= t.ring.len
    ensures (forall ops :: AllWide(ops, t.ring.e) ==> Queued(Run(t, ops)) * t.ring.e < t.ring.len)
       <==> Divides(t.ring.e, t.ring.len)
  {
    var e, len := t.ring.e, t.ring.len;
    var g := GcdExists(e, len);
    FreshHasPhase(t, g);
    LastAcceptedBytes(e, len, g);
    var p := len / g;
    var ops := Pushes(seq(e, _ => 0), p - 1);
    AcceptedPushes(t, seq(e, _ => 0), p - 1, g);
    assert AllWide(ops, e) && Queued(Run(t, ops)) == p - 1;
    if Divides(e, len) {
      forall ops | AllWide(ops, e)
        ensures Queued(Run(t, ops)) * e < len
      {
        RunKeepsPhase(t, ops, g);
        MulMonotone(Queued(Run(t, ops)), p - 1, e);
      }
    }
  }

  lemma DivisorAtMost(d: nat, x: nat)
    requires Divides(d, x) && x > 0
    ensures d <= x
  {
  }

  /** A greatest common divisor, found by counting down. */
  lemma GcdExists(e: nat, len: nat) returns (g: nat)
    requires 0 < e && 0 < len
    ensures IsGcd(g, e, len)
  {
    g := e;
    assert Divides(1, e) && Divides(1, len);
    forall d: nat | Divides(d, e)
      ensures d <= g
    {
      DivisorAtMost(d, e);
    }
    assert forall d: nat :: Divides(d, e) && Divides(d, len) ==> d <= g;
    hide Divides;
    while !(Divides(g, e) && Divides(g, len))
      invariant 1 <= g
      invariant forall d: nat :: Divides(d, e) && Divides(d, len) ==> d <= g
      decreases g
    {
      g := g - 1;
    }
  }

  // ---------------------------------------------------------------------------------------
  // The two rings the program sets up
  // ---------------------------------------------------------------------------------------

  lemma NetworkGcd()
    ensures IsGcd(8, 32, 280)
  {
  }

  /** The network ring, elements of 32 bytes in 280, accepts 34 items and no more. */
  lemma NetworkRingAccepts(t: Log, item: seq<byte>, n: nat)
    requires Fresh(t) && t.ring.e == 32 && t.ring.len == 280 && 32 <= |item|
    ensures Queued(Run(t, Pushes(item, n))) == if n <= 34 then n else 34
  {
    NetworkGcd();
    FreshHasPhase(t, 8);
    AcceptedPushes(t, item, n, 8);
  }

  /** The shared-memory ring, elements of 2048 bytes in 4096, accepts one. */
  lemma SharedRingAccepts(t: Log, item: seq<byte>, n: nat)
    requires Fresh(t) && t.ring.e == 2048 && t.ring.len == 4096 && 2048 <= |item|
    ensures Queued(Run(t, Pushes(item, n))) == if n <= 1 then n else 1
  {
    FreshHasPhase(t, 2048);
    AcceptedPushes(t, item, n, 2048);
  }
}
