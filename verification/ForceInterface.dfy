/** force_interface.c: the memory shared with the force core, written and read in place. */
module ForceInterface {
  import opened MachineTypes
  import opened CommandFormat

  /** 0xdeadbeef stored into an int. */
  const PUBLISHED: int32 := -559038737

  /** The command block: the command word and seven parameter words. */
  datatype ServoCall = ServoCall(cmd: int32, params: seq<int32>)

  const NO_PARAMS: seq<int32> := [0, 0, 0, 0, 0, 0, 0]

  /** The part of the shared memory that received commands act on, and all effects so far. */
  datatype CoreState = CoreState(service: ServoCall, valid: int32, force: seq<int32>, trace: seq<Effect>)

  /** A command write replaces the block; a force vector fills the slot only when it is free. */
  function Perform(s: CoreState, e: Effect): CoreState {
    match e
    case Command(code) =>
      s.(service := ServoCall(code, NO_PARAMS), trace := s.trace + [e])
    case Download(force) =>
      if s.valid == 0 then s.(valid := PUBLISHED, force := force, trace := s.trace + [e])
      else s.(trace := s.trace + [e])
  }

  function PerformAll(s: CoreState, es: seq<Effect>): CoreState
    decreases |es|
  {
    if es == [] then s else PerformAll(Perform(s, es[0]), es[1..])
  }

  lemma {:induction false} PerformAllAppend(s: CoreState, es: seq<Effect>, fs: seq<Effect>)
    ensures PerformAll(s, es + fs) == PerformAll(PerformAll(s, es), fs)
    decreases |es|
  {
    if es == [] {
      assert es + fs == fs;
    } else {
      assert (es + fs)[1..] == es[1..] + fs;
      PerformAllAppend(Perform(s, es[0]), es[1..], fs);
    }
  }

  /** The trace records every effect, in order, whether or not a download found a free slot. */
  lemma {:induction false} TraceGrows(s: CoreState, es: seq<Effect>)
    ensures PerformAll(s, es).trace == s.trace + es
    decreases |es|
  {
    if es != [] {
      TraceGrows(Perform(s, es[0]), es[1..]);
      assert s.trace + es == s.trace + [es[0]] + es[1..];
    }
  }

  /** A vector that waits for the core is not overwritten, whatever commands arrive. */
  lemma {:induction false} PendingVectorKept(s: CoreState, es: seq<Effect>)
    requires s.valid != 0
    ensures PerformAll(s, es).valid == s.valid && PerformAll(s, es).force == s.force
    decreases |es|
  {
    if es != [] {
      PendingVectorKept(Perform(s, es[0]), es[1..]);
    }
  }

  /** The first vector offered to an empty slot is the one that stays there. */
  lemma FirstVectorStays(s: CoreState, force: seq<int32>, es: seq<Effect>)
    requires s.valid == 0
    ensures var t := PerformAll(s, [Download(force)] + es);
            t.valid as int == 0xdead_beef - 0x1_0000_0000 && t.force == force
  {
    PerformAllAppend(s, [Download(force)], es);
    PendingVectorKept(Perform(s, Download(force)), es);
  }

  /** Commands overwrite each other: the block holds the last one written. */
  lemma LastCommandWins(s: CoreState, es: seq<Effect>, code: int32, fs: seq<Effect>)
    requires forall k :: 0 <= k < |fs| ==> fs[k].Download?
    ensures PerformAll(s, es + [Command(code)] + fs).service == ServoCall(code, [0, 0, 0, 0, 0, 0, 0])
  {
    PerformAllAppend(s, es + [Command(code)], fs);
    PerformAllAppend(s, es, [Command(code)]);
    DownloadsKeepService(PerformAll(s, es + [Command(code)]), fs);
  }

  lemma {:induction false} DownloadsKeepService(s: CoreState, fs: seq<Effect>)
    requires forall k :: 0 <= k < |fs| ==> fs[k].Download?
    ensures PerformAll(s, fs).service == s.service
    decreases |fs|
  {
    if fs != [] {
      DownloadsKeepService(Perform(s, fs[0]), fs[1..]);
    }
  }

  // ---------------------------------------------------------------------------------------
  // What a received command does to the memory
  // ---------------------------------------------------------------------------------------

  /** The word written into the command block for a command code of the PC. */
  predicate Orders(cmd: int32, word: int32) {
    (cmd == 11 && word == 4) || (cmd == 12 && word == 2) || (cmd == 13 && word == 1) || (cmd == 14 && word == 3)
  }

  predicate IsOrder(c: PcCommand) {
    11 <= c.cmd <= 14
  }

  predicate IsForce(c: PcCommand) {
    c.cmd == 15 || c.cmd == 16
  }

  /** The block holds the order and seven zeros. */
  predicate Ordered(c: PcCommand, service: ServoCall) {
    && Orders(c.cmd, service.cmd) && |service.params| == 7
    && forall k :: 0 <= k < 7 ==> service.params[k] == 0
  }

  /** The slot holds the command's parameters and the mark 0xdeadbeef. */
  predicate Delivered(c: PcCommand, s: CoreState) {
    s.valid as int == 0xdead_beef - 0x1_0000_0000 && s.force == c.params
  }

  predicate SameSlot(s: CoreState, t: CoreState) {
    s.valid == t.valid && s.force == t.force
  }

  /** One command takes the memory from `s` to `t`. */
  predicate Dispatched(c: PcCommand, s: CoreState, t: CoreState) {
    && (if IsOrder(c) then Ordered(c, t.service) else t.service == s.service)
    && (if IsForce(c) && s.valid == 0 then Delivered(c, t) else SameSlot(s, t))
    && (!IsOrder(c) && !IsForce(c) ==> t == s)
  }

  predicate LastOrder(cs: seq<PcCommand>, k: nat) {
    k < |cs| && IsOrder(cs[k]) && forall m :: k < m < |cs| ==> !IsOrder(cs[m])
  }

  predicate FirstForce(cs: seq<PcCommand>, k: nat) {
    k < |cs| && IsForce(cs[k]) && forall m :: 0 <= m < k ==> !IsForce(cs[m])
  }

  predicate NoOrder(cs: seq<PcCommand>) {
    forall k :: 0 <= k < |cs| ==> !IsOrder(cs[k])
  }

  predicate NoForce(cs: seq<PcCommand>) {
    forall k :: 0 <= k < |cs| ==> !IsForce(cs[k])
  }

  /** A list of commands leaves its last order in the block. */
  ghost predicate BlockServed(cs: seq<PcCommand>, s: CoreState, t: CoreState) {
    && (forall k: nat :: LastOrder(cs, k) ==> Ordered(cs[k], t.service))
    && (NoOrder(cs) ==> t.service == s.service)
  }

  /** A list of commands leaves its first force vector in the slot, if that was free. */
  ghost predicate SlotServed(cs: seq<PcCommand>, s: CoreState, t: CoreState) {
    && (s.valid == 0 ==> forall k: nat :: FirstForce(cs, k) ==> Delivered(cs[k], t))
    && (s.valid != 0 || NoForce(cs) ==> SameSlot(s, t))
  }

  lemma ImageDispatches(c: PcCommand, s: CoreState)
    ensures Dispatched(c, s, PerformAll(s, Image(c)))
  {
  }

  lemma BlockServedFirst(cs: seq<PcCommand>, s: CoreState, m: CoreState, t: CoreState)
    requires cs != [] && Dispatched(cs[0], s, m) && BlockServed(cs[1..], m, t)
    ensures BlockServed(cs, s, t)
  {
    var rest := cs[1..];
    assert forall k :: 1 <= k < |cs| ==> cs[k] == rest[k - 1];
    forall k: nat | LastOrder(cs, k)
      ensures Ordered(cs[k], t.service)
    {
      assert if k == 0 then NoOrder(rest) else LastOrder(rest, k - 1);
    }
    assert NoOrder(cs) ==> NoOrder(rest);
  }

  lemma SlotServedFirst(cs: seq<PcCommand>, s: CoreState, m: CoreState, t: CoreState)
    requires cs != [] && Dispatched(cs[0], s, m) && SlotServed(cs[1..], m, t)
    ensures SlotServed(cs, s, t)
  {
    var rest := cs[1..];
    assert forall k :: 1 <= k < |cs| ==> cs[k] == rest[k - 1];
    forall k: nat | s.valid == 0 && FirstForce(cs, k)
      ensures Delivered(cs[k], t)
    {
      assert k > 0 ==> FirstForce(rest, k - 1);
    }
    assert NoForce(cs) ==> NoForce(rest);
  }

  /** The effects of any list of commands on any memory: its last order ends up in the block, and
      its first force vector in the slot, unless another one was waiting there. */
  lemma {:induction false} CommandsAreServed(cs: seq<PcCommand>, s: CoreState)
    ensures BlockServed(cs, s, PerformAll(s, Images(cs))) && SlotServed(cs, s, PerformAll(s, Images(cs)))
    decreases |cs|
  {
    if cs != [] {
      var m := PerformAll(s, Image(cs[0]));
      PerformAllAppend(s, Image(cs[0]), Images(cs[1..]));
      ImageDispatches(cs[0], s);
      CommandsAreServed(cs[1..], m);
      var t := PerformAll(s, Images(cs));
      BlockServedFirst(cs, s, m, t);
      SlotServedFirst(cs, s, m, t);
    }
  }

  const NO_THETA: seq<real> := [0.0, 0.0, 0.0, 0.0, 0.0, 0.0]

  /** The record sent back to the PC. */
  datatype Record = Record(head: int32, forceState: int32, theta: seq<real>)

  /** A cleared record with the magic head. */
  const CLEARED := Record(0x11181118, 0, NO_THETA)

  class PcData {
    var head: int32
    var forceState: int32
    var theta: seq<real>

    constructor ()
      ensures View() == CLEARED
    {
      head, forceState, theta := 0x11181118, 0, NO_THETA;
    }

    ghost function View(): Record
      reads this
    {
      Record(head, forceState, theta)
    }
  }

  // ---------------------------------------------------------------------------------------
  // The slots for samples, instructions and results
  // ---------------------------------------------------------------------------------------

  datatype Monitor = Monitor(valid: int32, state: int32, theta: seq<real>)
  datatype Instruction = Instruction(valid: int32, notUsed: int32, data: seq<real>)
  datatype BackInfo = BackInfo(valid: int32, data: seq<int32>)

  datatype Uploaded = Uploaded(slot: Monitor, record: Record)
  datatype Instructed = Instructed(slot: Instruction, code: int32)
  datatype Fetched = Fetched(slot: BackInfo, result: BackInfo, code: int32)

  /** A sample is taken only at flag 1; otherwise the record stays as the caller gave it. */
  function Upload(slot: Monitor, record: Record): Uploaded {
    if slot.valid == 1
    then Uploaded(slot.(valid := 0), record.(forceState := slot.state, theta := slot.theta))
    else Uploaded(slot, record)
  }

  /** An instruction fills the slot only when it is free. */
  function Instruct(slot: Instruction, push: Instruction): Instructed {
    if slot.valid == 0 then Instructed(push.(valid := 1), 0) else Instructed(slot, -1)
  }

  /** A result is taken at any flag but 0. */
  function Fetch(slot: BackInfo, pull: BackInfo): Fetched {
    if slot.valid != 0 then Fetched(slot.(valid := 0), slot, 0) else Fetched(slot, pull, -1)
  }

  class ForceCore {
    var service: ServoCall
    var virtualValid: int32
    const virtualForce: array<int32>
    var monitorValid: int32
    var monitorState: int32
    var monitorTheta: seq<real>
    var instruct: Instruction
    var back: BackInfo
    ghost var trace: seq<Effect>

    constructor ()
      ensures fresh(virtualForce) && virtualForce.Length == DOFS && trace == []
    {
      service := ServoCall(0, NO_PARAMS);
      virtualValid, virtualForce := 0, new int32[DOFS];
      monitorValid, monitorState, monitorTheta := 0, 0, NO_THETA;
      instruct := Instruction(0, 0, []);
      back := BackInfo(0, []);
      trace := [];
    }

    ghost function View(): CoreState
      reads this, virtualForce
    {
      CoreState(service, virtualValid, virtualForce[..], trace)
    }

    ghost function MonitorSlot(): Monitor
      reads this
    {
      Monitor(monitorValid, monitorState, monitorTheta)
    }

    method SetCmd(app: ServoCall)
      modifies this`service
      ensures service == app
    {
      service := app;
    }

    method SendCommand(code: int32)
      modifies this`service, this`trace
      ensures View() == Perform(old(View()), Command(code))
      ensures service.cmd == code && |service.params| == 7
      ensures forall k :: 0 <= k < 7 ==> service.params[k] == 0
    {
      SetCmd(ServoCall(code, NO_PARAMS));
      trace := trace + [Command(code)];
    }

    method ForceVirtualDownload(params: seq<int32>)
      requires |params| == DOFS == virtualForce.Length
      modifies this`virtualValid, this`trace, virtualForce
      ensures View() == Perform(old(View()), Download(params))
      ensures old(virtualValid) == 0 ==>
                virtualForce[..] == params && virtualValid as int == 0xdead_beef - 0x1_0000_0000
      ensures old(virtualValid) != 0 ==>
                virtualForce[..] == old(virtualForce[..]) && virtualValid == old(virtualValid)
    {
      if virtualValid == 0 {
        var j := 0;
        while j < DOFS
          invariant j <= DOFS
          invariant virtualForce[..j] == params[..j]
          invariant trace == old(trace) && virtualValid == old(virtualValid)
        {
          virtualForce[j] := params[j];
          j := j + 1;
        }
        assert virtualForce[..] == params;
        virtualValid := PUBLISHED;
      }
      trace := trace + [Download(params)];
    }

    method ForceMonitorUpload(record: PcData)
      modifies this`monitorValid, record`forceState, record`theta
      ensures Uploaded(MonitorSlot(), record.View()) == Upload(old(MonitorSlot()), old(record.View()))
      ensures old(monitorValid) == 1 ==>
                monitorValid == 0 && record.forceState == monitorState && record.theta == monitorTheta
      ensures old(monitorValid) != 1 ==>
                monitorValid == old(monitorValid) && record.View() == old(record.View())
    {
      if monitorValid == 1 {
        record.forceState := monitorState;
        record.theta := monitorTheta;
        monitorValid := 0;
      }
    }

    /** One upload step of the child process: a pending sample, or state 0 and six zero angles. */
    method ControllerDisplayRes() returns (data: PcData)
      modifies this`monitorValid
      ensures fresh(data) && Uploaded(MonitorSlot(), data.View()) == Upload(old(MonitorSlot()), CLEARED)
      ensures data.head == 0x11181118
      ensures old(monitorValid) == 1 ==>
                monitorValid == 0 && data.forceState == monitorState && data.theta == monitorTheta
      ensures old(monitorValid) != 1 ==>
                && monitorValid == old(monitorValid) && data.forceState == 0
                && |data.theta| == 6 && forall k :: 0 <= k < 6 ==> data.theta[k] == 0.0
    {
      data := new PcData();
      ForceMonitorUpload(data);
    }

    method SetInstruct(push: Instruction) returns (code: int32)
      modifies this`instruct
      ensures Instructed(instruct, code) == Instruct(old(instruct), push)
      ensures old(instruct).valid == 0 ==>
                code == 0 && instruct.valid == 1 && instruct.notUsed == push.notUsed && instruct.data == push.data
      ensures old(instruct).valid != 0 ==> code == -1 && instruct == old(instruct)
    {
      if instruct.valid == 0 {
        instruct := push;
        instruct := instruct.(valid := 1);
        return 0;
      }
      return -1;
    }

    method GetResult(pull: BackInfo) returns (code: int32, result: BackInfo)
      modifies this`back
      ensures Fetched(back, result, code) == Fetch(old(back), pull)
      ensures old(back).valid != 0 ==>
                code == 0 && result == old(back) && back.valid == 0 && back.data == old(back).data
      ensures old(back).valid == 0 ==> code == -1 && result == pull && back == old(back)
    {
      result := pull;
      if back.valid != 0 {
        result := back;
        back := back.(valid := 0);
        return 0, result;
      }
      return -1, result;
    }
  }
}
