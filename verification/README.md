# The force controller's ring, mailboxes and command path

A Dafny model of the Linux side of VirtualForce. A PC sends 32-byte commands over TCP. The
controller queues them in a byte ring, takes them out again and turns each into a write to
memory shared with a force core; samples travel back through a second piece of that memory.

The project proves what the ring operations mean, what the ring guarantees over whole runs and
under interleaving, when a received frame is the frame that was sent, and what reaches the force
core for any list of commands.

| file | models |
|---|---|
| MachineTypes.dfy | 8-bit and 32-bit integers, wrapped offsets |
| RingModel.dfy | the ring as a value: contents, item operations, bundle transfers |
| BufferManager.dfy | buffer_manager.c in place, over descriptors and byte arrays |
| ItemRuns.dfy, ItemCapacity.dfy | runs of item operations, and how many items the full test admits, for any dimensions |
| ItemWindows.dfy | when the item copies, which are not split at the wrap, stay inside the ring |
| FifoExactly.dfy | when the item ring is first in, first out over every run |
| FifoRefinement.dfy | runs of two rings against two queues of items |
| SpscProtocol.dfy | one producer and one consumer without a lock, byte by byte |
| ThreadedMode.dfy | the two threads around one mutex |
| CommandFormat.dfy, ForceInterface.dfy | the command frame, its meaning, the shared memory |
| NetworkClient.dfy | the reading loop and the receive step |
| FrameContents.dfy | how an attempt at a frame ends, and every byte of the item it stores |
| StreamPrefix.dfy | when the commands received are a prefix of those sent, and what happens when the connection ends |
| MainLoop.dfy, Setup.dfy | dispatch, the parent's loop, the initialisers |
| Mailbox.dfy, CoreMailboxes.dfy | the one-slot mailboxes and their four uses |

The imperative files keep the program's form: descriptors and memories are classes and arrays
changed in place, the loops are loops, and offsets are 32-bit, so every offset expression is
shown not to overflow. Each method is proved equal to a function on values; the properties are
proved about those functions. Interleavings are step relations on values. For every thread in
them, and for each of the four uses of the mailbox, a lemma shows that its steps, run alone, are
the program's operation.

Results that differ from what one would hope, each proved with its exact condition:

- `push_circle_buff_bundle` appends exactly when its source is not empty and the destination keeps
  a byte free; `pull_circle_buff_bundle` tests its source, so only the space matters there.
- Items come out in the order they went in, over every run and even with memory to spare, exactly
  when the element length divides the ring length.
- A ring accepts fewer bytes than its length in every reachable state exactly when the element
  length divides the ring length. The network ring (32 in 280) accepts 34 items, 1088 bytes.
- No accepted push of any run copies past the end of the ring exactly when the element length
  divides the ring length. Otherwise the run that fills the ring up to its last whole element
  reaches one: in the network ring eight pushes are accepted, the tail is 256, the ninth is not
  refused and ends at 288.
- The parent's loop, one push and one pull a round, stays inside a memory of any length exactly
  when every window it uses does, and can go on for ever exactly when the memory is at least as long
  as the ring and one element more, less the greatest common divisor of both lengths. For 32 in 280
  that is 304 bytes; in the program's own 280, eight frames fit. The shared-memory ring (2048 in 4096)
  needs no more than its length.
- In every interleaving of the two threads the frames pulled are the first of those read, and the
  frame the producer holds has its place inside the ring, exactly when the element length divides
  the ring length. On the ring they share, 32 in 280, ten turns of the producer and one of the
  consumer already leave frames pulled that are not the first read. The same condition is exact for the ring
  without a lock.
- The reading loop of `read_data` ends exactly unless the stream runs out within the frame, after
  interruptions only, with EINTR still the last errno: nothing clears the error indicator, and the
  end of the file does not set errno. So when a connection ends behind whole commands that were
  read without loss, the next receive step reads for ever exactly when any read before was
  interrupted.
- `read_data` restarts at the front of its buffer after an interrupted read and does not clear it:
  each byte of the item is the one that the last read to reach it put there, and 0 if none did. So
  it delivers the next frame of every stream exactly when no read was cut short after delivering bytes. Over any number
  of steps, the commands received are a prefix of those sent exactly when no such cut happens up
  to a failure that nothing completes before.
- `Servo_Force_Comm_Set_Instruct` copies the caller's own flag word with the data. It is safe in
  every interleaving exactly when that flag is 0.

## Model

| member | source | states |
|---|---|---|
| BufferManager.Memcpy | VirtualForce_linux/buffer_manager.c:46-46 | The destination is its old content with exactly the copied window replaced; both windows must lie inside their memories, so every call below is shown in bounds. |
| BufferManager.IsBuffFull | VirtualForce_linux/buffer_manager.c:204-213 | Answers 1 exactly when one more element would bring the tail to the head. |
| BufferManager.IsBuffEmpty | VirtualForce_linux/buffer_manager.c:215-224 | Answers 1 exactly when the offsets are equal. |
| BufferManager.PushCircleBuffItem | VirtualForce_linux/buffer_manager.c:5-15 | The in-place push: -1 and no change when one more element would bring the tail to the head; otherwise the element length is returned, the item lies at the old tail, every other byte is kept and the tail is one element on. |
| BufferManager.PullCircleBuffItem | VirtualForce_linux/buffer_manager.c:103-116 | The in-place pull: -1 and no change on equal offsets; otherwise 0, the element at the head goes to the front of the caller's buffer, the rest of that buffer is kept and the head is one element on. |
| BufferManager.PushStretch | VirtualForce_linux/buffer_manager.c:38-57 | Both cases of the push out of an unwrapped source copy exactly what the byte-by-byte loop with wrapping offsets copies, for every pair of lengths and offsets; the block copies lie inside both rings, total the count, and write disjoint ranges unless they lap the destination. |
| BufferManager.PushWrapped | VirtualForce_linux/buffer_manager.c:64-94 | The same for the push out of a wrapped (or empty) source, whose three cases are exhaustive. |
| BufferManager.PullStretch | VirtualForce_linux/buffer_manager.c:140-159 | The same, proved on its own, for the two cases of the pull out of an unwrapped source. |
| BufferManager.PullWrapped | VirtualForce_linux/buffer_manager.c:166-196 | The same, proved on its own, for the three cases of the pull out of a wrapped source. |
| BufferManager.PushCircleBuffBundle | VirtualForce_linux/buffer_manager.c:18-100 | In any wrap case the whole new state and the result are those of the loop; the only demands are distinct rings, copies that fit the memory, and an end offset that fits 32 bits. |
| BufferManager.PullCircleBuffBundle | VirtualForce_linux/buffer_manager.c:119-202 | The same for the pull, through its own copies; it changes nothing and returns 0 on an empty source. |
| RingModel.PushItemAppends | VirtualForce_linux/buffer_manager.c:12-14 | A push whose window fits, with more than one element free, appends the item to the queued bytes. |
| RingModel.PullItemTakes | VirtualForce_linux/buffer_manager.c:112-115 | A pull delivers the oldest bytes and leaves the others in order. |
| RingModel.CopyLoopBlock | VirtualForce_linux/buffer_manager.c:46-56 | A straight block copy is that many rounds of the wrapping byte loop. |
| RingModel.CopyLoopAt | VirtualForce_linux/buffer_manager.c:36-98 | What a transfer leaves in every cell of the destination: the k-th source byte at the k-th cell after the tail, every other cell unchanged. |
| RingModel.CopyLoopLaps | VirtualForce_linux/buffer_manager.c:36-98 | The same for a transfer longer than the destination ring: a cell that is reached twice holds the later byte. |
| RingModel.CopyLoopOutside | VirtualForce_linux/buffer_manager.c:36-98 | A transfer writes nothing behind the end of the destination ring. |
| RingModel.DrainAppends | VirtualForce_linux/buffer_manager.c:36-98 | A legal transfer is concatenation of contents, leaves the source empty and returns the number of bytes moved. |
| RingModel.PushBundleAppendsIff | VirtualForce_linux/buffer_manager.c:18-100 | The bundle push is that concatenation if and only if the source is not empty and the sum of the occupancies is below the destination length. |
| RingModel.PullBundleAppendsIff | VirtualForce_linux/buffer_manager.c:133-202 | The bundle pull is that concatenation if and only if the sum of the occupancies is below the destination length. |
| RingModel.DrainOccupancy | VirtualForce_linux/buffer_manager.c:58-60 | Occupancies add modulo the destination length, so an exact fill makes the destination look empty; an empty source counts as a whole ring. |
| RingModel.RoundTripIff | VirtualForce_linux/buffer_manager.c:18-202 | Draining into an empty longer ring and back restores the contents with equal counts, for all offsets and lengths, if and only if there was something to drain. |
| RingModel.PushPullDuality | VirtualForce_linux/buffer_manager.c:18-202 | Pushing a ring into another and pulling it from there, each by its own block copies, are the same transfer exactly when it is not empty; from an empty one the pull moves nothing and the push a whole ring of stale bytes, byte by byte, adding that length to the occupancy. |
| ItemCapacity.ReturnsExactly | VirtualForce_linux/buffer_manager.c:206-207 | For any element and ring length, m elements come back to the start exactly when m is a multiple of the ring length over the greatest common divisor. |
| ItemCapacity.TestsAreExact | VirtualForce_linux/buffer_manager.c:204-224 | The full test fires exactly one element short of that period, and the empty test exactly when nothing is queued. |
| ItemCapacity.RunKeepsPhase | VirtualForce_linux/buffer_manager.c:5-15 | Every run of pushes and pulls keeps the tail that many elements past the head and below one period. |
| ItemCapacity.ReachableCapacity | VirtualForce_linux/buffer_manager.c:204-224 | In every state reachable from initialisation at most length / gcd - 1 items are queued, and the tests say so exactly. |
| ItemCapacity.AcceptedPushes | VirtualForce_linux/buffer_manager.c:7-14 | Without pulls exactly the first length / gcd - 1 pushes are accepted. |
| ItemCapacity.BytesStayBelowIff | VirtualForce_linux/buffer_manager.c:204-213 | Accepted bytes stay below the ring length in every reachable state if and only if the element length divides the ring length. |
| ItemCapacity.NetworkRingAccepts | VirtualForce_linux/network_client.h:7-7 | Of any number of pushes into the fresh network ring, 32 in 280, exactly the first 34 are accepted. |
| ItemCapacity.SharedRingAccepts | VirtualForce_linux/shmem_client.c:25-54 | Into the fresh shared-memory ring, 2048 in 4096, exactly one. |
| ItemWindows.PushesInsideIff | VirtualForce_linux/buffer_manager.c:7-13 | For every element and ring length: in every run of pushes and pulls each push is refused or copies inside the ring, if and only if the element length divides the ring length. |
| ItemWindows.OverrunReached | VirtualForce_linux/buffer_manager.c:12-13 | Otherwise as many pushes as whole elements fit are all accepted, and then one that is not refused starts inside the ring and ends outside. |
| ItemWindows.NinthPushOverruns | VirtualForce_linux/network_client.h:7-7 | In the network ring that is the ninth: eight are queued, the tail is 256, the ring is not full and the copy ends at 288 of 280. |
| ItemWindows.RoundsFitIff | VirtualForce_linux/main.c:93-98 | For every list of items: passing them one by one through a fresh ring stays inside its memory if and only if the element length divides the ring length or there are no more items than whole elements. |
| ItemWindows.AllRoundsFitIff | VirtualForce_linux/main.c:93-98 | Such rounds can go on for ever inside the memory if and only if the element length divides the ring length. |
| ItemWindows.NetworkRoundsFit | VirtualForce_linux/network_client.h:7-7 | In a memory of 280 they stay inside for exactly eight elements of 32 or fewer. |
| ItemWindows.RoundsFitExactly | VirtualForce_linux/main.c:93-98 | In a memory of any length the rounds for a list of items stay inside it if and only if the window of each of their elements does. |
| ItemWindows.AllWindowsFitIff | VirtualForce_linux/buffer_manager.c:12-14 | For any element and ring length, the windows of all elements fit a memory if and only if it has at least the ring length and one element more, less the greatest common divisor. |
| ItemWindows.RoundsFitForEverIff | VirtualForce_linux/main.c:93-98 | The rounds can go on for ever if and only if the memory is at least that long. |
| ItemWindows.NetworkMemory | VirtualForce_linux/network_client.h:7-7 | For 32 in 280, if and only if it has at least 304 bytes. |
| FifoExactly.FirstInFirstOutIff | VirtualForce_linux/buffer_manager.c:5-116 | For every element and ring length: over all runs of pushes and pulls the items delivered are those accepted, in order, if and only if the element length divides the ring length. |
| FifoExactly.AlignedRunInOrder | VirtualForce_linux/buffer_manager.c:5-116 | On a ring that holds a queue, every run delivers in order. |
| FifoExactly.WrapOverwrites | VirtualForce_linux/buffer_manager.c:12-13 | Otherwise, but for one shape, the run is: one push more than whole elements fit, all of zeros, then one of ones, then a pull; the pull is out of order. |
| FifoExactly.ThreeInTwo | VirtualForce_linux/buffer_manager.c:12-13 | The one shape where that run is refused, three elements in two ring lengths: the run that passes two items through, pushes a zero and a one and pulls is out of order. |
| FifoRefinement.AlignedRoom | VirtualForce_linux/buffer_manager.c:204-213 | In an aligned ring windows never straddle the end and a ring that is not full has more than one element free. |
| FifoRefinement.PushRefines | VirtualForce_linux/buffer_manager.c:5-15 | On a ring holding a queue, a push returns -1 exactly when length / element - 1 items are queued, and otherwise enqueues the item. |
| FifoRefinement.PullRefines | VirtualForce_linux/buffer_manager.c:103-116 | A pull returns -1 exactly on the empty queue and otherwise dequeues the oldest item. |
| FifoRefinement.DrainRefines | VirtualForce_linux/buffer_manager.c:18-100 | A legal bundle transfer moves the whole queue behind the other, item boundaries intact for any two lengths and offsets, and stays in bounds. |
| FifoRefinement.RunRefinesQueues | VirtualForce_linux/buffer_manager.c:5-202 | Over every legal run of pushes, pulls and bundles on two rings of different lengths, the replies are those of two bounded queues, no access leaves its ring, and the rings end holding the queues. |
| SpscProtocol.StepKeepsInv | VirtualForce_linux/buffer_manager.c:5-116 | Each test, byte copy and offset update keeps the invariant that ties memory, both copies in progress and the history together. |
| SpscProtocol.EveryInterleavingIsSafe | VirtualForce_linux/shmem_client.c:46-52 | On a ring whose length the element length divides, such as the shared-memory ring: in every unlocked interleaving, with bytes copied in any order, pushed = pulled followed by what the ring holds, both tests are exact, all copies are in bounds and the two never overlap. |
| SpscProtocol.SoloPush | VirtualForce_linux/buffer_manager.c:5-15 | The producer's steps run alone are the push. |
| SpscProtocol.SoloPull | VirtualForce_linux/buffer_manager.c:103-116 | The consumer's steps run alone are the pull. |
| SpscProtocol.ConservedIff | VirtualForce_linux/buffer_manager.c:5-116 | For every element and ring length: in every unlocked interleaving the items pulled are the first of those pushed, if and only if the element length divides the ring length. |
| ThreadedMode.EveryInterleavingConserves | VirtualForce_linux/network_client.c:186-196 | On a ring whose length the element length divides: in every interleaving of the two threads, frames read = pulled, queued, then the one being pushed under the lock; the push result ignored at line 250 is never -1; the critical sections exclude each other. |
| ThreadedMode.ConservedIff | VirtualForce_linux/network_client.c:186-196 | For every element and ring length: in every interleaving the frames pulled are the first of those read, if and only if the element length divides the ring length. |
| ThreadedMode.NetworkFramesMixUp | VirtualForce_linux/network_client.c:36-49 | On the ring the threads share, 32 in 280: the run of nine frames of zeros and one of ones, each read, pushed and unlocked in its turn, and one turn of the consumer leaves frames pulled that are not the first of those read. |
| ThreadedMode.FramesInsideIff | VirtualForce_linux/network_client.c:187-195 | For every element and ring length: in every interleaving the frame the producer holds under the lock has its place inside the ring, if and only if the element length divides the ring length. |
| ThreadedMode.PullKeepsInv | VirtualForce_linux/controller.c:113-131 | On such a ring the consumer's pull under the lock succeeds and takes the oldest queued frame. |
| ThreadedMode.SoloProducer | VirtualForce_linux/network_client.c:186-196 | From lock to unlock, the producer's steps run alone are the receive step, if it ends: the same ring, and the frame read if one completed. |
| ThreadedMode.SoloConsumer | VirtualForce_linux/controller.c:113-131 | From lock to unlock, the consumer's steps run alone are the pull. |
| CommandFormat.DecodeIff | VirtualForce_linux/force_interface.h:331-335 | What is read out of 32 bytes is the command they carry and no other: the code in bytes 0-3, the reserved word in bytes 4-7 and parameter k in the four bytes from 8+4k, each least significant byte first in two's complement. |
| CommandFormat.EncodeCarries | VirtualForce_linux/force_interface.h:331-335 | What the PC writes for a command carries it in that layout. |
| CommandFormat.DecodeEncode | VirtualForce_linux/force_interface.h:331-335 | A command structure written by the PC is read back field by field as it was. |
| ForceInterface.ForceCore.SendCommand | VirtualForce_linux/force_interface.c:110-169 | A command write leaves the code and seven zeros in the command block and touches nothing else. |
| ForceInterface.ForceCore.ForceVirtualDownload | VirtualForce_linux/force_interface.c:277-299 | An empty slot gets all six values and the mark 0xdeadbeef; a full one stays as it is. |
| ForceInterface.ForceCore.ForceMonitorUpload | VirtualForce_linux/force_interface.c:266-276 | Takes state and angles and clears the flag only when the flag is 1, and otherwise leaves the record alone. |
| ForceInterface.ForceCore.ControllerDisplayRes | VirtualForce_linux/controller.c:139-163 | An upload sends the head 0x11181118 and the pending sample, or state 0 and six angles of 0.0. |
| ForceInterface.ForceCore.SetInstruct | VirtualForce_linux/force_interface.c:215-232 | Fills and marks the slot when it is free, otherwise -1 and no change. |
| ForceInterface.ForceCore.GetResult | VirtualForce_linux/force_interface.c:240-249 | Takes and clears a marked result, otherwise -1 and no change. |
| ForceInterface.PerformAllAppend | VirtualForce_linux/controller.c:58-84 | Effects compose in order. |
| ForceInterface.PendingVectorKept | VirtualForce_linux/force_interface.c:288-298 | No sequence of commands overwrites a vector the core has not taken. |
| ForceInterface.FirstVectorStays | VirtualForce_linux/force_interface.c:288-298 | Of the vectors offered to an empty slot the first one stays. |
| ForceInterface.LastCommandWins | VirtualForce_linux/force_interface.c:110-115 | The command block holds the last command written, and seven zeros. |
| ForceInterface.ImageDispatches | VirtualForce_linux/controller.c:58-84 | For every command and memory: codes 11, 12, 13 and 14 put 4, 2, 1 and 3 and seven zeros into the block; 15 and 16 put the six parameters and the mark into a free slot; everything else is kept, and any other code changes nothing. |
| ForceInterface.CommandsAreServed | VirtualForce_linux/controller.c:58-84 | For every list of commands and memory: the block ends with the last order of the list, the slot with its first force vector if it was free, and what no command of the list concerns is as it was. |
| NetworkClient.FileStream.Fread | VirtualForce_linux/network_client.c:217-217 | A read takes bytes from the front of the stream to the front of the buffer and keeps the rest of the buffer. |
| NetworkClient.LoopEndsIff | VirtualForce_linux/network_client.c:214-243 | From any state and for any schedule, the loop stops after some number of reads if and only if its ending is not the one where, at the end of the file, an old EINTR is taken for a new one. |
| NetworkClient.ReadFrameEndsIff | VirtualForce_linux/network_client.c:208-243 | Reading a frame ends unless fewer than 32 bytes are left, only interruptions come before the first undisturbed read, and the last read that failed, then or earlier, was interrupted; exactly then it never ends. |
| NetworkClient.InterruptedThenClosed | VirtualForce_linux/network_client.c:218-224 | One interruption without a byte and then the end of the connection: after any number of reads the whole frame is still to come and the loop goes on. |
| NetworkClient.ReadData | VirtualForce_linux/network_client.c:208-253 | On a stream for which the loop ends: 0 with one item pushed exactly when the frame is complete, -1 with the ring unchanged otherwise, exit on another error. |
| NetworkClient.NetworkRcv | VirtualForce_linux/network_client.c:128-135 | Nothing is read while the ring is full; otherwise one frame is attempted, on a stream for which that ends, and pushed if it completes. Room at the tail is needed only in that case. |
| NetworkClient.LoopConsumes | VirtualForce_linux/network_client.c:214-243 | The loop takes exactly the bytes it counts off the stream, also for a frame it gives up. |
| NetworkClient.FrameIntactIff | VirtualForce_linux/network_client.c:214-253 | Whatever happened to earlier reads, every stream is delivered as its next 32 bytes if and only if no read before the successful one delivered bytes, timed out or failed. |
| FrameContents.EndingIff | VirtualForce_linux/network_client.c:208-253 | Exactly when an attempt at a frame completes, ends the program or never ends, from the number of bytes, the schedule and what earlier reads left; else it is given up. |
| FrameContents.LoopContents | VirtualForce_linux/network_client.c:214-243 | For every schedule that completes, any number of bytes asked for and any buffer: all of them are taken off the stream, and each byte of the buffer is the one that the last read to reach it delivered there, or as it was. |
| FrameContents.ItemContents | VirtualForce_linux/network_client.c:208-253 | For every schedule that completes: byte j of the item is the one at j in the last read that delivered more than j bytes, and 0 if none did. |
| FrameContents.StoredContents | VirtualForce_linux/network_client.c:248-251 | Those are the bytes the receive step stores at the tail of the ring. |
| FrameContents.OneInterruption | VirtualForce_linux/network_client.c:217-224 | After one interruption at g bytes the item is the stream from g on, over the beginning of the frame, then what is left of the beginning, then zeros. |
| MainLoop.ControllerMsgParase | VirtualForce_linux/controller.c:34-88 | On an empty ring nothing changes. Otherwise the oldest frame is taken, and the command that its bytes carry does to the memory what ImageDispatches says. |
| MainLoop.Dispatch | VirtualForce_linux/controller.c:58-84 | The switch has on the memory exactly the effects of the command, and those are what ImageDispatches says. |
| MainLoop.PushThenPull | VirtualForce_linux/main.c:93-98 | For every element and ring length, an empty ring is not full, holds one item in mid-round, gives it back unchanged and is empty again one element on. |
| MainLoop.ParentRound | VirtualForce_linux/main.c:95-96 | For every ring length and every outcome of a read that ends, a round starts and ends with an empty ring, never takes the full branch, and performs the frame if one was completed. |
| MainLoop.ParentLoop | VirtualForce_linux/main.c:93-98 | After any number of rounds and any schedule of reads that end and whose frames fit the memory: the core's memory and the trace of effects are those of the completed frames, in order, and the block and the slot hold their last order and first vector. |
| MainLoop.StreamIsTranslated | VirtualForce_linux/network_client.c:208-253 | On the byte stream of any list of commands, read without loss, as many receive steps all end and complete frames that decode to exactly that list. |
| MainLoop.StreamCarries | VirtualForce_linux/force_interface.h:331-335 | The stream of a list of commands carries the k-th of them in its k-th 32 bytes. |
| StreamPrefix.StreamPrefixIff | VirtualForce_linux/network_client.c:208-253 | For any schedule: whatever commands are sent and however many receive steps are made, the commands received are a prefix of those sent, if and only if no read is cut short after it delivered bytes, up to a failure that nothing completes before. |
| StreamPrefix.HangsAtTheEndIff | VirtualForce_linux/network_client.c:214-243 | On any list of commands, with at most part of another behind them, read without loss: the receive step after the last command never ends if and only if a read before was interrupted, in any of the steps. |
| Setup.InitRing | VirtualForce_linux/network_client.c:36-49 | For any ring size and memory, leaves an empty ring of 32-byte elements whose memory suffices for the rounds of a list of frames if and only if their windows fit; in a memory as long as the ring, if and only if 32 divides the size or the list is no longer than the number of whole elements. |
| Setup.NetworkInit | VirtualForce_linux/network_client.c:36-49 | At the size 280: an empty ring whose memory suffices for eight frames and no more. |
| Setup.ServeStream | VirtualForce_linux/main.c:74-102 | From set-up, in any memory that holds the windows of the frames, for any number of commands: the effects performed are exactly their images, in order; the block ends with the last order and the slot with the first vector if it was free. |
| Setup.NetworkWindows | VirtualForce_linux/network_client.h:7-16 | For the ring size 280 the windows of any number of frames fit 304 bytes, and those of exactly eight or fewer fit 280. |
| Setup.ShmemInit | VirtualForce_linux/shmem_client.c:25-54 | Leaves an empty ring of 2048 in 4096, aligned and with one usable slot: a starting state of the unlocked protocol. |
| Mailbox.StepKeepsInv | VirtualForce_linux/force_interface.c:266-299 | Each word copy, publication, look and release keeps the mailbox invariant. |
| Mailbox.EveryInterleavingDelivers | VirtualForce_linux/force_interface.c:288-298 | In every interleaving and any word order the payloads delivered are the accepted ones, whole, in order and once, all but at most the last; an offer is dropped exactly while one is pending. |
| Mailbox.StructureCopySafeIff | VirtualForce_linux/force_interface.c:217-229 | A writer that copies the structure's own flag delivers only what it was given, in every interleaving, if and only if the reader would not take that flag. |
| Mailbox.TornRead | VirtualForce_linux/force_interface.c:227-228 | For any old content of the slot, a run in which the reader takes that content because the copied flag arrived first. |
| Mailbox.SoloOffer | VirtualForce_linux/force_interface.c:288-298 | The writer's steps run alone fill and publish an empty slot and leave a full one. |
| Mailbox.SoloTake | VirtualForce_linux/force_interface.c:268-272 | The reader's steps run alone take and clear a published slot. |
| CoreMailboxes.DownloadIsOffer | VirtualForce_linux/force_interface.c:277-299 | Force_Virtual_Download is the uninterrupted offer: the same slot after it, and accepted exactly when the slot was free. |
| CoreMailboxes.UploadIsTake | VirtualForce_linux/force_interface.c:266-276 | Force_Monitor_Upload is the uninterrupted read: the same slot after it, and the record of the upload step is the sample taken or the cleared one. |
| CoreMailboxes.SetInstructIsOffer | VirtualForce_linux/force_interface.c:215-232 | Servo_Force_Comm_Set_Instruct is the uninterrupted offer, flag word included: 0 when it is accepted, -1 when it is dropped. |
| CoreMailboxes.GetResultIsTake | VirtualForce_linux/force_interface.c:240-249 | Servo_Force_Comm_Get_Result is the uninterrupted read: 0 and the slot's words, or -1 and the caller's structure unchanged. |
| CoreMailboxes.VirtualDownloadIsSafe | VirtualForce_linux/force_interface.c:277-299 | The vectors the core receives are a subsequence of those dispatched, none torn or repeated; one is dropped exactly while another is pending. |
| CoreMailboxes.MonitorUploadIsSafe | VirtualForce_linux/controller.c:139-163 | In every interleaving every record sent is the magic head with a whole published sample, or with state 0 and six zeros, and the samples come in order, each once. |
| CoreMailboxes.SetInstructSafeIff | VirtualForce_linux/force_interface.c:215-232 | Safe in every interleaving if and only if the structure given carries a zero flag. |
| CoreMailboxes.GetResultIsSafe | VirtualForce_linux/force_interface.c:240-249 | In every interleaving the results taken are the published ones, whole, in order and once. |

## Left out

- The force core is not part of the repository. The mailboxes assume that it takes a slot only when
  its flag is set and then clears it, and that it publishes only into a slot whose flag is 0.
- Memory is sequentially consistent; hardware ordering, caches and the mapping in mmap_comm.c are
  not modelled.
- Bundle transfers are single steps in every run: they read the source's tail twice, so an
  unlocked transfer beside another user has no contract of its own.
- NetworkClient.Status: errno changes only when a read fails. Other calls between two receive steps
  could change it; a single step starts with any errno, so the conditions for one step cover that.
- MainLoop.ParentLoop: runs any finite number of rounds on a live connection; the reconnect branch,
  fork, kill, signals and sleeping are left out.
- Setup.ServeStream: the memory is a parameter. Behind the 280 bytes of the program's own array lie
  the mutex and the condition variables, and what the ninth frame does to them is not modelled.
- ItemWindows.PushesInsideIff, FifoExactly.FirstInFirstOutIff and the two ConservedIff: stated with
  memory behind the ring, so that a run can be followed after a copy that ends outside; the
  theorems about rounds take a memory of any length.
- Integers in frames are read least significant byte first, as on the machines the program is built
  for. Angles are real numbers that are only copied.
- Sockets, printf, scheduling priorities, the demonstration threads and the unused semaphore and
  lock fields.
- The handshake, heartbeat, mode, diagnosis and reset functions of force_interface.c: single stores
  that the main loop does not reach. Servo_Force_Comm_Set_Para uses a field as a pointer and never
  advances its target.
- The Qt client, apart from the frame it writes.
