/** buffer_manager.c in its own form: descriptors and memories updated in place. Each operation
    is proved to make the state change RingModel gives for it. All offset arithmetic is done in
    32-bit integers, and every block copy is shown to stay inside both memories. */
module BufferManager {
  import opened MachineTypes
  import opened RingModel

  class BufferInfo {
    var tail: int32
    var head: int32
    var elementLength: int32
    var buffLength: int32

    constructor (elementLength: int32, buffLength: int32)
      ensures head == tail == 0
      ensures this.elementLength == elementLength && this.buffLength == buffLength
    {
      head, tail := 0, 0;
      this.elementLength, this.buffLength := elementLength, buffLength;
    }

    /** A usable descriptor of a ring in `buff`; the last conjunct keeps the sum of an offset
        and an element length within 32 bits. */
    ghost predicate Describes(buff: array<byte>)
      reads this
    {
      && 0 < elementLength
      && 0 < buffLength as int <= buff.Length
      && 0 <= head < buffLength
      && 0 <= tail < buffLength
      && buffLength as int + elementLength as int <= 0x8000_0000
    }

    ghost function View(buff: array<byte>): (r: Ring)
      requires Describes(buff)
      reads this, buff
      ensures Valid(r)
    {
      Ring(head as int, tail as int, elementLength as int, buffLength as int, buff[..])
    }
  }

  method Memcpy(dst: array<byte>, o: int32, src: array<byte>, i: int32, n: int32)
    requires dst != src
    requires 0 <= o && 0 <= i && 0 <= n
    requires o as int + n as int <= dst.Length && i as int + n as int <= src.Length
    modifies dst
    ensures dst[..] == Splice(old(dst[..]), o as int, src[..], i as int, n as int)
  {
    var k: int32 := 0;
    while k < n
      invariant 0 <= k <= n
      invariant dst[..] == Splice(old(dst[..]), o as int, src[..], i as int, k as int)
    {
      dst[o as int + k as int] := src[i as int + k as int];
      k := k + 1;
    }
  }

  method IsBuffFull(info: BufferInfo, ghost buff: array<byte>) returns (full: int32)
    requires info.Describes(buff)
    ensures full == if IsFull(info.View(buff)) then 1 else 0
  {
    if (info.tail + info.elementLength) % info.buffLength == info.head {
      return 1;
    }
    return 0;
  }

  method IsBuffEmpty(info: BufferInfo, ghost buff: array<byte>) returns (empty: int32)
    requires info.Describes(buff)
    ensures empty == if IsEmpty(info.View(buff)) then 1 else 0
  {
    if info.tail == info.head {
      return 1;
    }
    return 0;
  }

  method PushCircleBuffItem(info: BufferInfo, buff: array<byte>, item: array<byte>) returns (code: int32)
    requires info.Describes(buff) && buff != item
    requires IsFull(info.View(buff)) ||
             (info.elementLength as int <= item.Length && info.tail as int + info.elementLength as int <= buff.Length)
    modifies info`tail, buff
    ensures info.Describes(buff)
    ensures PushItem(old(info.View(buff)), item[..]) == PushResult(info.View(buff), code as int)
    ensures (old(info.tail) as int + info.elementLength as int) % info.buffLength as int == info.head as int ==>
              code == -1 && info.tail == old(info.tail) && buff[..] == old(buff[..])
    ensures (old(info.tail) as int + info.elementLength as int) % info.buffLength as int != info.head as int ==>
              && code == info.elementLength
              && info.tail as int == (old(info.tail) as int + info.elementLength as int) % info.buffLength as int
              && forall j :: 0 <= j < buff.Length ==>
                   buff[j] == if old(info.tail) as int <= j < old(info.tail) as int + info.elementLength as int
                              then item[j - old(info.tail) as int] else old(buff[j])
  {
    var full := IsBuffFull(info, buff);
    if full != 0 {
      return -1;
    }
    Memcpy(buff, info.tail, item, 0, info.elementLength);
    info.tail := (info.tail + info.elementLength) % info.buffLength;
    return info.elementLength;
  }

  method PullCircleBuffItem(info: BufferInfo, buff: array<byte>, item: array<byte>) returns (code: int32)
    requires info.Describes(buff) && buff != item
    requires IsEmpty(info.View(buff)) ||
             (info.elementLength as int <= item.Length && info.head as int + info.elementLength as int <= buff.Length)
    modifies info`head, item
    ensures info.Describes(buff)
    ensures var p := PullItem(old(info.View(buff)));
            && p.ring == info.View(buff) && p.code == code as int
            && item[..] == Splice(old(item[..]), 0, p.item, 0, |p.item|)
    ensures old(info.head) == info.tail ==>
              code == -1 && info.head == old(info.head) && item[..] == old(item[..])
    ensures old(info.head) != info.tail ==>
              && code == 0
              && info.head as int == (old(info.head) as int + info.elementLength as int) % info.buffLength as int
              && forall j :: 0 <= j < item.Length ==>
                   item[j] == if j < info.elementLength as int then buff[old(info.head) as int + j] else old(item[j])
  {
    var empty := IsBuffEmpty(info, buff);
    if empty != 0 {
      return -1;
    }
    Memcpy(item, 0, buff, info.head, info.elementLength);
    info.head := (info.head + info.elementLength) % info.buffLength;
    return 0;
  }

  /** Two rings a bundle transfer may connect: distinct descriptors and memories, room for the
      copies, and an end offset that fits in 32 bits. */
  ghost predicate Connectable(src: BufferInfo, srcBuff: array<byte>, dst: BufferInfo, dstBuff: array<byte>)
    reads src, dst, srcBuff, dstBuff
  {
    && src != dst && srcBuff != dstBuff
    && src.Describes(srcBuff) && dst.Describes(dstBuff)
    && Fits(src.View(srcBuff), dst.View(dstBuff))
    && dst.tail as int + BundleCount(src.View(srcBuff)) < 0x8000_0000
  }

  // ---------------------------------------------------------------------------------------
  // The block copies of a transfer
  // ---------------------------------------------------------------------------------------

  datatype Block = Block(dst: nat, src: nat, n: nat)

  /** The one, two or three block copies of a transfer, in order. */
  datatype Copies = One(a: Block) | Two(a: Block, b: Block) | Three(a: Block, b: Block, c: Block)

  predicate BlockInside(x: Block, dl: nat, sl: nat) {
    x.dst + x.n <= dl && x.src + x.n <= sl
  }

  predicate Apart(x: Block, y: Block) {
    x.n == 0 || y.n == 0 || x.dst + x.n <= y.dst || y.dst + y.n <= x.dst
  }

  predicate Inside(copies: Copies, dl: nat, sl: nat) {
    match copies
    case One(a) => BlockInside(a, dl, sl)
    case Two(a, b) => BlockInside(a, dl, sl) && BlockInside(b, dl, sl)
    case Three(a, b, c) => BlockInside(a, dl, sl) && BlockInside(b, dl, sl) && BlockInside(c, dl, sl)
  }

  predicate Disjoint(copies: Copies) {
    match copies
    case One(a) => true
    case Two(a, b) => Apart(a, b)
    case Three(a, b, c) => Apart(a, b) && Apart(a, c) && Apart(b, c)
  }

  function Total(copies: Copies): nat {
    match copies
    case One(a) => a.n
    case Two(a, b) => a.n + b.n
    case Three(a, b, c) => a.n + b.n + c.n
  }

  /** The copies lie inside both rings and move `n` bytes in all; unless they go more than once
      round the destination, they write disjoint ranges. */
  predicate Tiles(copies: Copies, dl: nat, sl: nat, n: nat) {
    Inside(copies, dl, sl) && Total(copies) == n && (n <= dl ==> Disjoint(copies))
  }

  function CopyBlock(d: seq<byte>, s: seq<byte>, x: Block): (r: seq<byte>)
    requires BlockInside(x, |d|, |s|)
    ensures |r| == |d|
  {
    Splice(d, x.dst, s, x.src, x.n)
  }

  function Applied(d: seq<byte>, s: seq<byte>, copies: Copies): seq<byte>
    requires Inside(copies, |d|, |s|)
  {
    match copies
    case One(a) => CopyBlock(d, s, a)
    case Two(a, b) => CopyBlock(CopyBlock(d, s, a), s, b)
    case Three(a, b, c) => CopyBlock(CopyBlock(CopyBlock(d, s, a), s, b), s, c)
  }

  /** Lines 38-57: the push out of a source whose bytes lie in one stretch. */
  method PushStretch(circleBuff: array<byte>, ow: int32, circleLength: int32, localBuff: array<byte>, ir: int32, iw: int32, ghost localLength: int32)
    returns (ghost copies: Copies)
    requires circleBuff != localBuff && 0 <= ow < circleLength && 0 <= ir < iw < localLength
    requires circleLength as int <= circleBuff.Length && localLength as int <= localBuff.Length
    requires (iw - ir) as int <= (circleLength - ow) as int + circleLength as int
    modifies circleBuff
    ensures circleBuff[..]
         == CopyLoop(old(circleBuff[..]), ow as int, circleLength as int, localBuff[..], ir as int, localLength as int, (iw - ir) as int)
    ensures Tiles(copies, circleLength as int, localLength as int, (iw - ir) as int)
    ensures circleBuff[..] == Applied(old(circleBuff[..]), localBuff[..], copies)
  {
    hide CopyLoop, Splice;
    if circleLength - ow > iw - ir {
      LastBlock(circleBuff[..], ow as int, circleLength as int, localBuff[..], ir as int, localLength as int, (iw - ir) as int);
      Memcpy(circleBuff, ow, localBuff, ir, iw - ir);
      copies := One(Block(ow as int, ir as int, (iw - ir) as int));
    } else {
      DestinationWraps(circleBuff[..], ow as int, circleLength as int, localBuff[..], ir as int, localLength as int, (iw - ir) as int);
      Memcpy(circleBuff, ow, localBuff, ir, circleLength - ow);
      Memcpy(circleBuff, 0, localBuff, ir + (circleLength - ow), iw - ir - (circleLength - ow));
      copies := Two(Block(ow as int, ir as int, (circleLength - ow) as int),
                    Block(0, (ir + (circleLength - ow)) as int, (iw - ir - (circleLength - ow)) as int));
    }
  }

  /** Lines 64-94: the push out of a source whose bytes wrap around its end, or that is empty. */
  method PushWrapped(circleBuff: array<byte>, ow: int32, circleLength: int32, localBuff: array<byte>, ir: int32, iw: int32, localLength: int32)
    returns (ghost copies: Copies)
    requires circleBuff != localBuff && 0 <= ow < circleLength && 0 <= iw <= ir < localLength
    requires circleLength as int <= circleBuff.Length && localLength as int <= localBuff.Length
    requires (localLength - ir + iw) as int <= (circleLength - ow) as int + circleLength as int
    modifies circleBuff
    ensures circleBuff[..]
         == CopyLoop(old(circleBuff[..]), ow as int, circleLength as int, localBuff[..], ir as int, localLength as int, (localLength - ir + iw) as int)
    ensures Tiles(copies, circleLength as int, localLength as int, (localLength - ir + iw) as int)
    ensures circleBuff[..] == Applied(old(circleBuff[..]), localBuff[..], copies)
  {
    hide CopyLoop, Splice;
    if circleLength - ow >= localLength - ir + iw {
      SourceWraps(circleBuff[..], ow as int, circleLength as int, localBuff[..], ir as int, iw as int, localLength as int);
      Memcpy(circleBuff, ow, localBuff, ir, localLength - ir);
      Memcpy(circleBuff, ow + (localLength - ir), localBuff, 0, iw);
      copies := Two(Block(ow as int, ir as int, (localLength - ir) as int),
                    Block((ow + (localLength - ir)) as int, 0, iw as int));
    } else if circleLength - ow >= localLength - ir {
      SourceThenDestinationWraps(circleBuff[..], ow as int, circleLength as int, localBuff[..], ir as int, iw as int, localLength as int);
      Memcpy(circleBuff, ow, localBuff, ir, localLength - ir);
      Memcpy(circleBuff, ow + (localLength - ir), localBuff, 0, (circleLength - ow) - (localLength - ir));
      Memcpy(circleBuff, 0, localBuff, (circleLength - ow) - (localLength - ir), (localLength - ir + iw) - (circleLength - ow));
      copies := Three(Block(ow as int, ir as int, (localLength - ir) as int),
                      Block((ow + (localLength - ir)) as int, 0, ((circleLength - ow) - (localLength - ir)) as int),
                      Block(0, ((circleLength - ow) - (localLength - ir)) as int, ((localLength - ir + iw) - (circleLength - ow)) as int));
    } else if circleLength - ow < localLength - ir {
      DestinationThenSourceWraps(circleBuff[..], ow as int, circleLength as int, localBuff[..], ir as int, iw as int, localLength as int);
      Memcpy(circleBuff, ow, localBuff, ir, circleLength - ow);
      Memcpy(circleBuff, 0, localBuff, ir + (circleLength - ow), (localLength - ir) - (circleLength - ow));
      Memcpy(circleBuff, (localLength - ir) - (circleLength - ow), localBuff, 0, iw);
      copies := Three(Block(ow as int, ir as int, (circleLength - ow) as int),
                      Block(0, (ir + (circleLength - ow)) as int, ((localLength - ir) - (circleLength - ow)) as int),
                      Block(((localLength - ir) - (circleLength - ow)) as int, 0, iw as int));
    }
  }

  method PushCircleBuffBundle(circle: BufferInfo, circleBuff: array<byte>,
                              local: BufferInfo, localBuff: array<byte>) returns (code: int32)
    requires Connectable(local, localBuff, circle, circleBuff)
    modifies circle`tail, circleBuff, local`head
    ensures circle.Describes(circleBuff) && local.Describes(localBuff)
    ensures PushBundle(old(circle.View(circleBuff)), old(local.View(localBuff)))
         == Transfer(local.View(localBuff), circle.View(circleBuff), code as int)
    ensures code == if old(local.head) < local.tail then local.tail - old(local.head)
                    else local.buffLength - old(local.head) + local.tail
    ensures local.head == local.tail
    ensures circle.tail as int == (old(circle.tail) as int + code as int) % circle.buffLength as int
  {
    hide CopyLoop, Splice, Applied, Tiles;
    var ir, iw := local.head, local.tail;
    var ow := circle.tail;
    if ir < iw {
      ghost var copies := PushStretch(circleBuff, ow, circle.buffLength, localBuff, ir, iw, local.buffLength);
      local.head := local.tail;
      circle.tail := (circle.tail + (iw - ir)) % circle.buffLength;
      return iw - ir;
    } else {
      ghost var copies := PushWrapped(circleBuff, ow, circle.buffLength, localBuff, ir, iw, local.buffLength);
      local.head := local.tail;
      circle.tail := (circle.tail + (local.buffLength - ir + iw)) % circle.buffLength;
      return local.buffLength - ir + iw;
    }
  }

  /** Lines 140-159: the pull out of a source whose bytes lie in one stretch. */
  method PullStretch(localBuff: array<byte>, ow: int32, localLength: int32, circleBuff: array<byte>, ir: int32, iw: int32, ghost circleLength: int32)
    returns (ghost copies: Copies)
    requires localBuff != circleBuff && 0 <= ow < localLength && 0 <= ir < iw < circleLength
    requires localLength as int <= localBuff.Length && circleLength as int <= circleBuff.Length
    requires (iw - ir) as int <= (localLength - ow) as int + localLength as int
    modifies localBuff
    ensures localBuff[..]
         == CopyLoop(old(localBuff[..]), ow as int, localLength as int, circleBuff[..], ir as int, circleLength as int, (iw - ir) as int)
    ensures Tiles(copies, localLength as int, circleLength as int, (iw - ir) as int)
    ensures localBuff[..] == Applied(old(localBuff[..]), circleBuff[..], copies)
  {
    hide CopyLoop, Splice;
    if localLength - ow > iw - ir {
      LastBlock(localBuff[..], ow as int, localLength as int, circleBuff[..], ir as int, circleLength as int, (iw - ir) as int);
      Memcpy(localBuff, ow, circleBuff, ir, iw - ir);
      copies := One(Block(ow as int, ir as int, (iw - ir) as int));
    } else {
      DestinationWraps(localBuff[..], ow as int, localLength as int, circleBuff[..], ir as int, circleLength as int, (iw - ir) as int);
      Memcpy(localBuff, ow, circleBuff, ir, localLength - ow);
      Memcpy(localBuff, 0, circleBuff, ir + (localLength - ow), iw - ir - (localLength - ow));
      copies := Two(Block(ow as int, ir as int, (localLength - ow) as int),
                    Block(0, (ir + (localLength - ow)) as int, (iw - ir - (localLength - ow)) as int));
    }
  }

  /** Lines 166-196: the pull out of a source whose bytes wrap around its end. */
  method PullWrapped(localBuff: array<byte>, ow: int32, localLength: int32, circleBuff: array<byte>, ir: int32, iw: int32, circleLength: int32)
    returns (ghost copies: Copies)
    requires localBuff != circleBuff && 0 <= ow < localLength && 0 <= iw <= ir < circleLength
    requires localLength as int <= localBuff.Length && circleLength as int <= circleBuff.Length
    requires (circleLength - ir + iw) as int <= (localLength - ow) as int + localLength as int
    modifies localBuff
    ensures localBuff[..]
         == CopyLoop(old(localBuff[..]), ow as int, localLength as int, circleBuff[..], ir as int, circleLength as int, (circleLength - ir + iw) as int)
    ensures Tiles(copies, localLength as int, circleLength as int, (circleLength - ir + iw) as int)
    ensures localBuff[..] == Applied(old(localBuff[..]), circleBuff[..], copies)
  {
    hide CopyLoop, Splice;
    if localLength - ow >= circleLength - ir + iw {
      SourceWraps(localBuff[..], ow as int, localLength as int, circleBuff[..], ir as int, iw as int, circleLength as int);
      Memcpy(localBuff, ow, circleBuff, ir, circleLength - ir);
      Memcpy(localBuff, ow + (circleLength - ir), circleBuff, 0, iw);
      copies := Two(Block(ow as int, ir as int, (circleLength - ir) as int),
                    Block((ow + (circleLength - ir)) as int, 0, iw as int));
    } else if localLength - ow >= circleLength - ir {
      SourceThenDestinationWraps(localBuff[..], ow as int, localLength as int, circleBuff[..], ir as int, iw as int, circleLength as int);
      Memcpy(localBuff, ow, circleBuff, ir, circleLength - ir);
      Memcpy(localBuff, ow + (circleLength - ir), circleBuff, 0, (localLength - ow) - (circleLength - ir));
      Memcpy(localBuff, 0, circleBuff, (localLength - ow) - (circleLength - ir), (circleLength - ir + iw) - (localLength - ow));
      copies := Three(Block(ow as int, ir as int, (circleLength - ir) as int),
                      Block((ow + (circleLength - ir)) as int, 0, ((localLength - ow) - (circleLength - ir)) as int),
                      Block(0, ((localLength - ow) - (circleLength - ir)) as int, ((circleLength - ir + iw) - (localLength - ow)) as int));
    } else if localLength - ow < circleLength - ir {
      DestinationThenSourceWraps(localBuff[..], ow as int, localLength as int, circleBuff[..], ir as int, iw as int, circleLength as int);
      Memcpy(localBuff, ow, circleBuff, ir, localLength - ow);
      Memcpy(localBuff, 0, circleBuff, ir + (localLength - ow), (circleLength - ir) - (localLength - ow));
      Memcpy(localBuff, (circleLength - ir) - (localLength - ow), circleBuff, 0, iw);
      copies := Three(Block(ow as int, ir as int, (localLength - ow) as int),
                      Block(0, (ir + (localLength - ow)) as int, ((circleLength - ir) - (localLength - ow)) as int),
                      Block(((circleLength - ir) - (localLength - ow)) as int, 0, iw as int));
    }
  }

  method PullCircleBuffBundle(circle: BufferInfo, circleBuff: array<byte>,
                              local: BufferInfo, localBuff: array<byte>) returns (code: int32)
    requires circle != local && circleBuff != localBuff
    requires circle.Describes(circleBuff) && local.Describes(localBuff)
    requires circle.head != circle.tail ==> Connectable(circle, circleBuff, local, localBuff)
    modifies local`tail, localBuff, circle`head
    ensures circle.Describes(circleBuff) && local.Describes(localBuff)
    ensures PullBundle(old(circle.View(circleBuff)), old(local.View(localBuff)))
         == Transfer(circle.View(circleBuff), local.View(localBuff), code as int)
    ensures code == if old(circle.head) < circle.tail then circle.tail - old(circle.head)
                    else if old(circle.head) == circle.tail then 0
                    else circle.buffLength - old(circle.head) + circle.tail
    ensures circle.head == circle.tail
    ensures local.tail as int == if old(circle.head) == circle.tail then old(local.tail) as int
                                 else (old(local.tail) as int + code as int) % local.buffLength as int
  {
    hide CopyLoop, Splice, Applied, Tiles;
    var ir, iw := circle.head, circle.tail;
    var ow := local.tail;
    var empty := IsBuffEmpty(circle, circleBuff);
    if empty != 0 {
      return 0;
    }
    if ir < iw {
      ghost var copies := PullStretch(localBuff, ow, local.buffLength, circleBuff, ir, iw, circle.buffLength);
      circle.head := circle.tail;
      local.tail := (local.tail + (iw - ir)) % local.buffLength;
      return iw - ir;
    } else {
      ghost var copies := PullWrapped(localBuff, ow, local.buffLength, circleBuff, ir, iw, circle.buffLength);
      circle.head := circle.tail;
      local.tail := (local.tail + (circle.buffLength - ir + iw)) % local.buffLength;
      return circle.buffLength - ir + iw;
    }
  }
}
