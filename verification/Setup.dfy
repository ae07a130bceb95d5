/** The rings the program sets up, and what their dimensions give. */
module Setup {
  import opened MachineTypes
  import opened BufferManager
  import opened CommandFormat
  import opened ForceInterface
  import opened NetworkClient
  import opened MainLoop
  import opened FifoRefinement
  import opened ItemCapacity
  import opened ItemWindows
  import Spsc = SpscProtocol

  /** The size of the network ring, and of its memory. */
  const MAX_SIZE: int32 := 280

  /** A ring set up the way network_init does it, for any ring size and any memory. The parent's
      loop stays inside the memory for exactly the lists of frames whose windows do. In a memory
      as long as the ring those are the lists no longer than the number of whole elements, or all
      of them if 32 divides the size. */
  method InitRing(maxSize: int32, memory: int32) returns (info: BufferInfo, buff: array<byte>)
    requires CLIENT_BUFF_SIZE < maxSize <= 0x7fff_ffff - CLIENT_BUFF_SIZE && maxSize <= memory
    ensures fresh(info) && fresh(buff) && info.Describes(buff) && Idle(info.View(buff), [])
    ensures info.elementLength == CLIENT_BUFF_SIZE && info.buffLength == maxSize && buff.Length == memory as int
    ensures info.head == info.tail == 0
    ensures forall items :: AllLong(items, FRAME_SIZE) ==>
              (RoundsFit(info.View(buff), items)
               <==> WindowsFit(0, |items|, FRAME_SIZE, maxSize as int, memory as int))
    ensures memory == maxSize ==> forall items :: AllLong(items, FRAME_SIZE) ==>
              (RoundsFit(info.View(buff), items)
               <==> Divides(FRAME_SIZE, maxSize as int) || |items| <= maxSize as int / FRAME_SIZE)
  {
    info := new BufferInfo(CLIENT_BUFF_SIZE, maxSize);
    buff := new byte[memory as int];
    forall items | AllLong(items, FRAME_SIZE)
      ensures RoundsFit(info.View(buff), items)
         <==> WindowsFit(0, |items|, FRAME_SIZE, maxSize as int, memory as int)
      ensures memory == maxSize ==>
                (RoundsFit(info.View(buff), items)
                 <==> Divides(FRAME_SIZE, maxSize as int) || |items| <= maxSize as int / FRAME_SIZE)
    {
      RoundsFitExactly(info.View(buff), items);
      if memory == maxSize {
        RoundsFitIff(info.View(buff), items);
      }
    }
  }

  /** network_init: at the size 280 the loop stays inside its memory for eight frames and no more. */
  method NetworkInit() returns (info: BufferInfo, buff: array<byte>)
    ensures fresh(info) && fresh(buff) && info.Describes(buff) && Idle(info.View(buff), [])
    ensures info.elementLength == 32 && info.buffLength == 280 && buff.Length == 280 && info.head == info.tail == 0
    ensures forall items :: AllLong(items, FRAME_SIZE) ==> (RoundsFit(info.View(buff), items) <==> |items| <= 8)
  {
    info, buff := InitRing(MAX_SIZE, MAX_SIZE);
  }

  /** From set-up to the force core, for any ring size and any memory that holds the windows of the
      frames: serving a stream that starts with any list of commands performs exactly their images,
      in order. */
  method ServeStream(fp: FileStream, core: ForceCore, maxSize: int32, memory: int32,
                     ghost cs: seq<PcCommand>, ghost rest: seq<byte>, n: nat)
    requires CLIENT_BUFF_SIZE < maxSize <= 0x7fff_ffff - CLIENT_BUFF_SIZE && maxSize <= memory
    requires WindowsFit(0, |cs|, FRAME_SIZE, maxSize as int, memory as int)
    requires core.virtualForce.Length == DOFS
    requires n == |cs| && forall k :: 0 <= k < |cs| ==> CommandFormat.WellFormed(cs[k])
    requires fp.input.bytes == EncodeAll(cs) + rest && AllClean(fp.input.events)
    modifies fp, core, core.virtualForce
    ensures core.View() == PerformAll(old(core.View()), Images(cs))
    ensures core.trace == old(core.trace) + Images(cs)
    ensures BlockServed(cs, old(core.View()), core.View()) && SlotServed(cs, old(core.View()), core.View())
  {
    StreamIsTranslated(cs, rest, fp.input.events, fp.input.status);
    assert fp.input == Input(EncodeAll(cs) + rest, fp.input.events, fp.input.status);
    assert |Frames(fp.input, n)| == |cs|;
    var info, buff := InitRing(maxSize, memory);
    var exited := ParentLoop(fp, info, buff, core, n);
  }

  /** In 304 bytes the windows of the network ring always fit; in its own 280, those of eight. */
  lemma NetworkWindows(n: nat)
    ensures WindowsFit(0, n, FRAME_SIZE, MAX_SIZE as int, 304)
    ensures WindowsFit(0, n, FRAME_SIZE, MAX_SIZE as int, MAX_SIZE as int) <==> n <= 8
  {
    NetworkGcd();
    AllWindowsFitIff(FRAME_SIZE, MAX_SIZE as int, 304, 8);
    if n > 8 {
      assert Offset(8, FRAME_SIZE, MAX_SIZE as int) == 256;
    }
  }

  /** shmem_init: elements of 2048 bytes in 4096. Its ring is aligned and empty, so every
      interleaving of a producer and a consumer on it is covered by SpscProtocol. */
  method ShmemInit(localBuff: array<byte>) returns (info: BufferInfo)
    requires localBuff.Length == 4096
    ensures fresh(info) && info.Describes(localBuff) && info.head == info.tail == 0
    ensures info.elementLength == 2048 && info.buffLength == 4096
    ensures Holds(info.View(localBuff), []) && Slots(info.View(localBuff)) - 1 == 1
    ensures Spsc.Init(Spsc.State(info.View(localBuff), Spsc.Idle, Spsc.Waiting, [], []))
  {
    info := new BufferInfo(2048, 4096);
    EmptyRingHolds(info.View(localBuff));
  }
}
