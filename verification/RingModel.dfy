/** The byte ring of buffer_manager.c as a value: its descriptor and its memory. The functions
    below give every ring operation as a state change; the lemmas say what the changes mean for
    the sequence of bytes the ring holds. */
module RingModel {
  import opened MachineTypes

  /** `len` is buff_length and `e` element_length; `buf` is the memory, which may be longer
      than the ring. */
  datatype Ring = Ring(head: nat, tail: nat, e: nat, len: nat, buf: seq<byte>)

  predicate Valid(r: Ring) {
    0 < r.len <= |r.buf| && r.head < r.len && r.tail < r.len
  }

  predicate IsFull(r: Ring)
    requires Valid(r)
  {
    (r.tail + r.e) % r.len == r.head
  }

  predicate IsEmpty(r: Ring) {
    r.tail == r.head
  }

  /** The number of bytes queued; equal offsets mean an empty ring. */
  function Occ(r: Ring): (n: nat)
    requires Valid(r)
    ensures n < r.len
    ensures n == 0 <==> IsEmpty(r)
    ensures Adv(r.head, n, r.len) == r.tail
  {
    if r.head <= r.tail then r.tail - r.head else r.tail - r.head + r.len
  }

  /** The queued bytes, oldest first. */
  function Contents(r: Ring): (s: seq<byte>)
    requires Valid(r)
    ensures |s| == Occ(r)
  {
    seq(Occ(r), k requires 0 <= k < Occ(r) => r.buf[Adv(r.head, k, r.len)])
  }

  /** Memory `dst` after `n` bytes of `src` from offset `i` were copied to offset `o`. */
  function Splice(dst: seq<byte>, o: nat, src: seq<byte>, i: nat, n: nat): (r: seq<byte>)
    requires o + n <= |dst| && i + n <= |src|
    ensures |r| == |dst|
  {
    seq(|dst|, j requires 0 <= j < |dst| => if o <= j < o + n then src[i + j - o] else dst[j])
  }

  // ---------------------------------------------------------------------------------------
  // Item operations
  // ---------------------------------------------------------------------------------------

  datatype PushResult = PushResult(ring: Ring, code: int)
  datatype PullResult = PullResult(ring: Ring, code: int, item: seq<byte>)

  function PushItem(r: Ring, item: seq<byte>): (res: PushResult)
    requires Valid(r) && (IsFull(r) || (r.tail + r.e <= |r.buf| && r.e <= |item|))
    ensures Valid(res.ring) && res.ring.e == r.e && res.ring.len == r.len
  {
    if IsFull(r) then
      PushResult(r, -1)
    else
      PushResult(r.(buf := Splice(r.buf, r.tail, item, 0, r.e), tail := Adv(r.tail, r.e, r.len)), r.e)
  }

  function PullItem(r: Ring): (res: PullResult)
    requires Valid(r) && (IsEmpty(r) || r.head + r.e <= |r.buf|)
    ensures Valid(res.ring) && res.ring.e == r.e && res.ring.len == r.len
  {
    if IsEmpty(r) then
      PullResult(r, -1, [])
    else
      PullResult(r.(head := Adv(r.head, r.e, r.len)), 0, r.buf[r.head..r.head + r.e])
  }

  /** A push appends the item, when the item fits before the end of the memory window and the
      ring has more than `e` free bytes. */
  lemma PushItemAppends(r: Ring, item: seq<byte>)
    requires Valid(r) && 0 < r.e && r.tail + r.e <= r.len && r.e <= |item|
    requires Occ(r) + r.e < r.len
    ensures var p := PushItem(r, item);
            p.code == r.e && Contents(p.ring) == Contents(r) + item[..r.e]
  {
    var p := PushItem(r, item).ring;
    assert Adv(r.tail, r.e, r.len) == (r.tail + r.e) % r.len;
    assert !IsFull(r);
    assert Occ(p) == Occ(r) + r.e;
    forall k | 0 <= k < Occ(p)
      ensures Contents(p)[k] == (Contents(r) + item[..r.e])[k]
    {
    }
  }

  /** A pull removes and delivers the oldest `e` bytes. */
  lemma PullItemTakes(r: Ring)
    requires Valid(r) && 0 < r.e && r.head + r.e <= r.len && r.e <= Occ(r)
    ensures var p := PullItem(r);
            p.code == 0 && p.item == Contents(r)[..r.e] && Contents(p.ring) == Contents(r)[r.e..]
  {
  }

  // ---------------------------------------------------------------------------------------
  // Bundle transfers
  // ---------------------------------------------------------------------------------------

  /** The simple loop a bundle transfer stands for: `n` single bytes, both offsets wrapping. */
  function CopyLoop(dst: seq<byte>, o: nat, dl: nat, src: seq<byte>, i: nat, sl: nat, n: nat): (r: seq<byte>)
    requires o < dl <= |dst| && i < sl <= |src|
    ensures |r| == |dst|
    decreases n
  {
    if n == 0 then dst
    else CopyLoop(dst[o := src[i]], Adv(o, 1, dl), dl, src, Adv(i, 1, sl), sl, n - 1)
  }

  lemma SpliceNone(dst: seq<byte>, o: nat, src: seq<byte>, i: nat)
    requires o <= |dst| && i <= |src|
    ensures Splice(dst, o, src, i, 0) == dst
  {
  }

  lemma SpliceStep(dst: seq<byte>, o: nat, src: seq<byte>, i: nat, n: nat)
    requires 0 < n && o + n <= |dst| && i + n <= |src|
    ensures Splice(dst[o := src[i]], o + 1, src, i + 1, n - 1) == Splice(dst, o, src, i, n)
  {
  }

  /** One straight block copy does the first `n` rounds of the loop. */
  lemma {:induction false} CopyLoopBlock(dst: seq<byte>, o: nat, dl: nat, src: seq<byte>, i: nat, sl: nat, n: nat, rest: nat)
    requires o < dl <= |dst| && i < sl <= |src|
    requires o + n <= dl && i + n <= sl
    ensures CopyLoop(dst, o, dl, src, i, sl, n + rest)
         == CopyLoop(Splice(dst, o, src, i, n), Adv(o, n, dl), dl, src, Adv(i, n, sl), sl, rest)
    decreases n
  {
    hide Splice, Adv;
    if n == 0 {
      SpliceNone(dst, o, src, i);
    } else {
      var d := dst[o := src[i]];
      SpliceStep(dst, o, src, i, n);
      if n == 1 {
        SpliceNone(d, o + 1, src, i + 1);
      } else {
        CopyLoopBlock(d, o + 1, dl, src, i + 1, sl, n - 1, rest);
      }
    }
  }

  // The five wrap cases: which block copies make up the whole loop.

  /** No wrap. The block may be empty, and then start at the very end of either memory. */
  lemma LastBlock(d: seq<byte>, o: nat, dl: nat, s: seq<byte>, i: nat, sl: nat, n: nat)
    requires 0 < dl <= |d| && 0 < sl <= |s| && o + n <= dl && i + n <= sl
    ensures CopyLoop(d, Adv(o, 0, dl), dl, s, Adv(i, 0, sl), sl, n) == Splice(d, o, s, i, n)
  {
    hide Splice;
    if n == 0 {
      SpliceNone(d, o, s, i);
    } else {
      CopyLoopBlock(d, o, dl, s, i, sl, n, 0);
    }
  }

  lemma DestinationWraps(d: seq<byte>, o: nat, dl: nat, s: seq<byte>, i: nat, sl: nat, n: nat)
    requires o < dl <= |d| && i < sl <= |s| && dl - o <= n <= dl - o + dl && i + n <= sl
    ensures CopyLoop(d, o, dl, s, i, sl, n)
         == Splice(Splice(d, o, s, i, dl - o), 0, s, i + (dl - o), n - (dl - o))
  {
    hide Splice;
    CopyLoopBlock(d, o, dl, s, i, sl, dl - o, n - (dl - o));
    LastBlock(Splice(d, o, s, i, dl - o), 0, dl, s, i + (dl - o), sl, n - (dl - o));
  }

  lemma SourceWraps(d: seq<byte>, o: nat, dl: nat, s: seq<byte>, i: nat, w: nat, sl: nat)
    requires o < dl <= |d| && w <= i < sl <= |s| && dl - o >= sl - i + w
    ensures CopyLoop(d, o, dl, s, i, sl, sl - i + w)
         == Splice(Splice(d, o, s, i, sl - i), o + (sl - i), s, 0, w)
  {
    hide Splice;
    CopyLoopBlock(d, o, dl, s, i, sl, sl - i, w);
    LastBlock(Splice(d, o, s, i, sl - i), o + (sl - i), dl, s, 0, sl, w);
  }

  lemma SourceThenDestinationWraps(d: seq<byte>, o: nat, dl: nat, s: seq<byte>, i: nat, w: nat, sl: nat)
    requires o < dl <= |d| && w <= i < sl <= |s| && sl - i <= dl - o < sl - i + w <= dl - o + dl
    ensures CopyLoop(d, o, dl, s, i, sl, sl - i + w)
         == Splice(Splice(Splice(d, o, s, i, sl - i), o + (sl - i), s, 0, (dl - o) - (sl - i)),
                   0, s, (dl - o) - (sl - i), (sl - i + w) - (dl - o))
  {
    hide Splice;
    var a, b := sl - i, (dl - o) - (sl - i);
    var first := Splice(d, o, s, i, a);
    CopyLoopBlock(d, o, dl, s, i, sl, a, w);
    if b == 0 {
      SpliceNone(first, o + a, s, 0);
      LastBlock(first, 0, dl, s, 0, sl, w);
    } else {
      DestinationWraps(first, o + a, dl, s, 0, sl, w);
    }
  }

  lemma DestinationThenSourceWraps(d: seq<byte>, o: nat, dl: nat, s: seq<byte>, i: nat, w: nat, sl: nat)
    requires o < dl <= |d| && w <= i < sl <= |s| && dl - o < sl - i && sl - i + w <= dl - o + dl
    ensures CopyLoop(d, o, dl, s, i, sl, sl - i + w)
         == Splice(Splice(Splice(d, o, s, i, dl - o), 0, s, i + (dl - o), (sl - i) - (dl - o)),
                   (sl - i) - (dl - o), s, 0, w)
  {
    hide Splice;
    var a := dl - o;
    CopyLoopBlock(d, o, dl, s, i, sl, a, (sl - i) - a + w);
    SourceWraps(Splice(d, o, s, i, a), 0, dl, s, i + a, w, sl);
  }

  /** What the loop leaves in every cell of the destination ring, and that it writes nothing
      beyond the ring. */
  lemma {:induction false} CopyLoopAt(dst: seq<byte>, o: nat, dl: nat, src: seq<byte>, i: nat, sl: nat, n: nat, k: nat)
    requires o < dl <= |dst| && i < sl <= |src|
    requires n <= dl && n <= sl && k < dl
    ensures CopyLoop(dst, o, dl, src, i, sl, n)[Adv(o, k, dl)]
         == if k < n then src[Adv(i, k, sl)] else dst[Adv(o, k, dl)]
    decreases n
  {
    hide Adv;
    if n > 0 {
      var d := dst[o := src[i]];
      var o1, i1 := Adv(o, 1, dl), Adv(i, 1, sl);
      if k == 0 {
        CopyLoopAt(d, o1, dl, src, i1, sl, n - 1, dl - 1);
        assert Adv(o1, dl - 1, dl) == o;
      } else {
        CopyLoopAt(d, o1, dl, src, i1, sl, n - 1, k - 1);
        assert Adv(o1, k - 1, dl) == Adv(o, k, dl) != o;
        if k < n {
          assert Adv(i1, k - 1, sl) == Adv(i, k, sl);
        }
      }
    }
  }

  /** The loop in two parts. */
  lemma {:induction false} CopyLoopSplit(dst: seq<byte>, o: nat, dl: nat, src: seq<byte>, i: nat, sl: nat, n: nat, rest: nat)
    requires o < dl <= |dst| && i < sl <= |src|
    requires n <= dl && n <= sl
    ensures CopyLoop(dst, o, dl, src, i, sl, n + rest)
         == CopyLoop(CopyLoop(dst, o, dl, src, i, sl, n), Adv(o, n, dl), dl, src, Adv(i, n, sl), sl, rest)
    decreases n
  {
    hide Adv;
    if n > 0 {
      CopyLoopSplit(dst[o := src[i]], Adv(o, 1, dl), dl, src, Adv(i, 1, sl), sl, n - 1, rest);
      assert Adv(Adv(o, 1, dl), n - 1, dl) == Adv(o, n, dl);
      assert Adv(Adv(i, 1, sl), n - 1, sl) == Adv(i, n, sl);
    }
  }

  /** A transfer longer than the destination ring goes on over its own first bytes: a cell that is
      written twice holds the later byte. */
  lemma CopyLoopLaps(dst: seq<byte>, o: nat, dl: nat, src: seq<byte>, i: nat, sl: nat, n: nat, k: nat)
    requires o < dl <= |dst| && i < sl <= |src|
    requires dl < n <= sl && n <= 2 * dl && k < dl
    ensures CopyLoop(dst, o, dl, src, i, sl, n)[Adv(o, k, dl)]
         == src[Adv(i, if dl + k < n then dl + k else k, sl)]
  {
    var first := CopyLoop(dst, o, dl, src, i, sl, dl);
    CopyLoopSplit(dst, o, dl, src, i, sl, dl, n - dl);
    CopyLoopAt(dst, o, dl, src, i, sl, dl, k);
    hide CopyLoop, Adv;
    assert Adv(o, dl, dl) == o;
    CopyLoopAt(first, o, dl, src, Adv(i, dl, sl), sl, n - dl, k);
    if dl + k < n {
      assert Adv(Adv(i, dl, sl), k, sl) == Adv(i, dl + k, sl);
    }
  }

  lemma {:induction false} CopyLoopOutside(dst: seq<byte>, o: nat, dl: nat, src: seq<byte>, i: nat, sl: nat, n: nat)
    requires o < dl <= |dst| && i < sl <= |src|
    ensures CopyLoop(dst, o, dl, src, i, sl, n)[dl..] == dst[dl..]
    decreases n
  {
    if n > 0 {
      CopyLoopOutside(dst[o := src[i]], Adv(o, 1, dl), dl, src, Adv(i, 1, sl), sl, n - 1);
    }
  }

  /** How many bytes a bundle transfer takes out of `src`; equal offsets count as a whole ring. */
  function BundleCount(src: Ring): (n: nat)
    requires Valid(src)
    ensures n == if IsEmpty(src) then src.len else Occ(src)
  {
    if src.head < src.tail then src.tail - src.head else src.len - src.head + src.tail
  }

  /** The transfer runs past the end of the destination at most once more than its length:
      exactly the condition under which every block copy stays inside the memory. */
  predicate Fits(src: Ring, dst: Ring)
    requires Valid(src) && Valid(dst)
  {
    BundleCount(src) <= (dst.len - dst.tail) + dst.len
  }

  datatype Transfer = Transfer(src: Ring, dst: Ring, code: int)

  function Drain(src: Ring, dst: Ring): (t: Transfer)
    requires Valid(src) && Valid(dst)
    ensures Valid(t.src) && t.src.e == src.e && t.src.len == src.len
    ensures Valid(t.dst) && t.dst.e == dst.e && t.dst.len == dst.len
  {
    var n := BundleCount(src);
    Transfer(
      src.(head := src.tail),
      dst.(tail := Adv(dst.tail, n, dst.len),
           buf := CopyLoop(dst.buf, dst.tail, dst.len, src.buf, src.head, src.len, n)),
      n)
  }

  /** push_circle_buff_bundle takes its source as the second ring and does not test it. */
  function PushBundle(circle: Ring, local: Ring): Transfer
    requires Valid(circle) && Valid(local)
  {
    Drain(local, circle)
  }

  /** pull_circle_buff_bundle drains its first ring, unless it is empty. */
  function PullBundle(circle: Ring, local: Ring): Transfer
    requires Valid(circle) && Valid(local)
  {
    if IsEmpty(circle) then Transfer(circle, local, 0) else Drain(circle, local)
  }

  /** The meaning of a transfer, as its two users are promised it. */
  ghost predicate Appends(src: Ring, dst: Ring, t: Transfer)
    requires Valid(src) && Valid(dst)
  {
    && Valid(t.src) && Valid(t.dst)
    && Contents(t.dst) == Contents(dst) + Contents(src)
    && Contents(t.src) == []
    && t.code == |Contents(src)|
  }

  lemma DrainAppends(src: Ring, dst: Ring)
    requires Valid(src) && Valid(dst)
    requires !IsEmpty(src) && Occ(dst) + Occ(src) < dst.len
    ensures Appends(src, dst, Drain(src, dst))
  {
    hide Adv;
    var t := Drain(src, dst);
    var n, q := Occ(src), Occ(dst);
    assert t.dst.tail == Adv(dst.tail, n, dst.len);
    assert Occ(t.dst) == q + n;
    forall j | 0 <= j < q + n
      ensures Contents(t.dst)[j] == (Contents(dst) + Contents(src))[j]
    {
      var k := if j < q then dst.len - q + j else j - q;
      CopyLoopAt(dst.buf, dst.tail, dst.len, src.buf, src.head, src.len, n, k);
      assert Adv(dst.head, j, dst.len) == Adv(dst.tail, k, dst.len);
    }
  }

  lemma AdvanceTwice(h: nat, q: nat, n: nat, len: nat)
    requires len > 0
    ensures Adv(Adv(h, q, len), n, len) == Adv(h, (q + n) % len, len)
  {
    ModAddLeft(h + q, n, len);
    ModAddLeft(q + n, h, len);
  }

  lemma OccIsDistance(r: Ring, m: nat)
    requires Valid(r) && m < r.len && Adv(r.head, m, r.len) == r.tail
    ensures Occ(r) == m
  {
  }

  /** Occupancy after a transfer: the count is added modulo the destination length, so a
      transfer that fills the destination exactly leaves it looking empty. */
  lemma DrainOccupancy(src: Ring, dst: Ring)
    requires Valid(src) && Valid(dst)
    ensures var t := Drain(src, dst);
            && Occ(t.dst) == (Occ(dst) + t.code) % dst.len
            && (Occ(dst) + t.code == dst.len ==> IsEmpty(t.dst))
            && IsEmpty(t.src)
  {
    var t := Drain(src, dst);
    AdvanceTwice(dst.head, Occ(dst), t.code, dst.len);
    hide CopyLoop, Adv;
    OccIsDistance(t.dst, (Occ(dst) + t.code) % dst.len);
  }

  /** When push_circle_buff_bundle is an append: exactly when its source is not empty and the
      destination keeps at least one byte free. */
  lemma PushBundleAppendsIff(circle: Ring, local: Ring)
    requires Valid(circle) && Valid(local) && Fits(local, circle)
    ensures Appends(local, circle, PushBundle(circle, local))
       <==> (!IsEmpty(local) && Occ(circle) + Occ(local) < circle.len)
  {
    if !IsEmpty(local) && Occ(circle) + Occ(local) < circle.len {
      DrainAppends(local, circle);
    }
  }

  /** When pull_circle_buff_bundle is an append: it tests its source, so only space matters. */
  lemma PullBundleAppendsIff(circle: Ring, local: Ring)
    requires Valid(circle) && Valid(local) && (IsEmpty(circle) || Fits(circle, local))
    ensures Appends(circle, local, PullBundle(circle, local))
       <==> Occ(local) + Occ(circle) < local.len
  {
    if !IsEmpty(circle) && Occ(local) + Occ(circle) < local.len {
      DrainAppends(circle, local);
    }
  }

  /** Draining `a` into an empty, long enough `b` and `b` back into `a`, by a pull and then a
      push, gives `a` its contents back with the same count from both calls, if and only if `a`
      held something. */
  lemma RoundTripIff(a: Ring, b: Ring)
    requires Valid(a) && Valid(b) && IsEmpty(b) && Occ(a) < b.len
    ensures var there := PullBundle(a, b);
            var back := PushBundle(there.src, there.dst);
            (&& Contents(back.dst) == Contents(a) && Contents(back.src) == []
             && back.code == there.code == |Contents(a)|) <==> !IsEmpty(a)
  {
    var there := PullBundle(a, b);
    if !IsEmpty(a) {
      DrainAppends(a, b);
      assert Contents(b) + Contents(a) == Contents(a);
      DrainAppends(there.dst, there.src);
      assert Contents(there.src) + Contents(there.dst) == Contents(a);
    }
  }

  /** Pushing `x` from `y` and pulling `y` into `x` are the same transfer exactly when the source
      holds something. From an empty source the pull moves nothing, but the push moves a whole
      ring of stale bytes, and the destination's occupancy grows by the length of that ring. */
  lemma PushPullDuality(x: Ring, y: Ring)
    requires Valid(x) && Valid(y)
    ensures PushBundle(x, y) == PullBundle(y, x) <==> !IsEmpty(y)
    ensures IsEmpty(y) ==>
              var t := PushBundle(x, y);
              && PullBundle(y, x) == Transfer(y, x, 0)
              && t.code == y.len && Occ(t.dst) == (Occ(x) + y.len) % x.len
              && (y.len <= x.len ==> forall k :: 0 <= k < y.len ==>
                    t.dst.buf[Adv(x.tail, k, x.len)] == y.buf[Adv(y.head, k, y.len)])
  {
    var t := PushBundle(x, y);
    DrainOccupancy(y, x);
    forall k | IsEmpty(y) && y.len <= x.len && 0 <= k < y.len
      ensures t.dst.buf[Adv(x.tail, k, x.len)] == y.buf[Adv(y.head, k, y.len)]
    {
      CopyLoopAt(x.buf, x.tail, x.len, y.buf, y.head, y.len, y.len, k);
    }
  }
}
