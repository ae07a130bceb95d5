/** The mailboxes the program really uses, as instances of the mailbox protocol. */
module CoreMailboxes {
  import opened MachineTypes
  import opened CommandFormat
  import opened ForceInterface
  import opened Mailbox

  /** Force_Virtual_Download writes six words and publishes 0xdeadbeef; the core is assumed to
      take any non-zero flag and then to clear it. */
  const VIRTUAL_DOWNLOAD := Protocol(6, PUBLISHED as int, false, false)

  /** The core is assumed to publish with 1, only while the flag is 0; Force_Monitor_Upload
      takes the state and six angles only when the flag is 1. */
  const MONITOR_UPLOAD := Protocol(7, 1, false, true)

  /** Servo_Force_Comm_Set_Instruct copies the caller's whole structure, its flag included, and
      then publishes 1: one unused word and 48 values. */
  const SET_INSTRUCT := Protocol(49, 1, true, false)

  /** Servo_Force_Comm_Get_Result takes 49 words whenever the flag is not 0. */
  const GET_RESULT := Protocol(49, 1, false, false)

  /** A payload word of the structures that mix integers with reals. */
  datatype Word = Int(i: int32) | Real(x: real)

  function Reals(xs: seq<real>): (words: seq<Word>)
    ensures |words| == |xs|
  {
    seq(|xs|, k requires 0 <= k < |xs| => Real(xs[k]))
  }

  function SampleWords(m: Monitor): seq<Word> {
    [Int(m.state)] + Reals(m.theta)
  }

  function RecordWords(r: Record): seq<Word> {
    [Int(r.head), Int(r.forceState)] + Reals(r.theta)
  }

  function InstructionWords(i: Instruction): seq<Word> {
    [Int(i.notUsed)] + Reals(i.data)
  }

  // ---------------------------------------------------------------------------------------
  // Left alone, the protocol's steps are the program's calls
  // ---------------------------------------------------------------------------------------

  lemma DownloadIsOffer(core: CoreState, s: State<int32>, force: seq<int32>)
    returns (steps: seq<Step<int32>>, s': State<int32>)
    requires |core.force| == |force| == DOFS
    requires s.flag == core.valid as int && s.words == core.force && s.writer.Resting?
    ensures Runs(VIRTUAL_DOWNLOAD, s, steps, s') && s'.writer.Resting?
    ensures var after := Perform(core, Download(force));
            s'.flag == after.valid as int && s'.words == after.force
    ensures s'.offered == s.offered + [Message(0, force)]
    ensures |s'.accepted| == |s.accepted| + (if core.valid == 0 then 1 else 0)
  {
    steps, s' := SoloOffer(VIRTUAL_DOWNLOAD, s, Message(0, force));
  }

  /** The record that an upload step sends for what a look at the slot gave. */
  function UploadRecord(o: Outcome<Word>): seq<Word> {
    match o
    case Sample(words) => [Int(CLEARED.head)] + words
    case Nothing => RecordWords(CLEARED)
  }

  /** A read of the sample slot is Force_Monitor_Upload, and what it delivers is the record that
      the upload step of the child process sends. */
  lemma UploadIsTake(slot: Monitor, s: State<Word>) returns (steps: seq<Step<Word>>, s': State<Word>)
    requires |slot.theta| == DOFS
    requires s.flag == slot.valid as int && s.words == SampleWords(slot) && s.reader.Waiting?
    ensures Runs(MONITOR_UPLOAD, s, steps, s') && s'.reader.Waiting?
    ensures var u := Upload(slot, CLEARED);
            && s'.flag == u.slot.valid as int && s'.words == SampleWords(u.slot)
            && |s'.outcomes| == |s.outcomes| + 1 && s.outcomes <= s'.outcomes
            && UploadRecord(s'.outcomes[|s.outcomes|]) == RecordWords(u.record)
  {
    steps, s' := SoloTake(MONITOR_UPLOAD, s);
    var taken := Upload(slot, CLEARED).record;
    assert [Int(taken.head)] + SampleWords(slot) == [Int(taken.head), Int(slot.state)] + Reals(slot.theta);
  }

  /** An offer to the instruction slot is Servo_Force_Comm_Set_Instruct: 0 when it is accepted, -1
      when it is dropped. */
  lemma SetInstructIsOffer(slot: Instruction, push: Instruction, s: State<Word>)
    returns (steps: seq<Step<Word>>, s': State<Word>)
    requires |slot.data| == |push.data| == 48
    requires s.flag == slot.valid as int && s.words == InstructionWords(slot) && s.writer.Resting?
    ensures Runs(SET_INSTRUCT, s, steps, s') && s'.writer.Resting?
    ensures s'.offered == s.offered + [Message(push.valid as int, InstructionWords(push))]
    ensures var r := Instruct(slot, push);
            && s'.flag == r.slot.valid as int && s'.words == InstructionWords(r.slot)
            && match r.code
               case 0 => s'.accepted == s.accepted + [|s.offered|]
               case _ => r.code == -1 && s'.accepted == s.accepted
  {
    steps, s' := SoloOffer(SET_INSTRUCT, s, Message(push.valid as int, InstructionWords(push)));
  }

  /** A read of the result slot is Servo_Force_Comm_Get_Result: 0 and the words, or -1 and the
      caller's own structure back. */
  lemma GetResultIsTake(slot: BackInfo, pull: BackInfo, s: State<int32>)
    returns (steps: seq<Step<int32>>, s': State<int32>)
    requires |slot.data| == 49
    requires s.flag == slot.valid as int && s.words == slot.data && s.reader.Waiting?
    ensures Runs(GET_RESULT, s, steps, s') && s'.reader.Waiting?
    ensures var r := Fetch(slot, pull);
            && s'.flag == r.slot.valid as int && s'.words == r.slot.data
            && match r.code
               case 0 => s'.outcomes == s.outcomes + [Sample(r.result.data)]
               case _ => r.code == -1 && r.result == pull && s'.outcomes == s.outcomes + [Nothing]
  {
    steps, s' := SoloTake(GET_RESULT, s);
  }

  // ---------------------------------------------------------------------------------------
  // With any interference
  // ---------------------------------------------------------------------------------------

  /** Every interleaving of the download with the core: the vectors received are dispatched ones,
      whole, in order, at most once, and one is dropped exactly while another is pending. */
  lemma VirtualDownloadIsSafe(init: State<int32>, steps: seq<Step<int32>>, s: State<int32>)
    requires Init(VIRTUAL_DOWNLOAD, init) && Runs(VIRTUAL_DOWNLOAD, init, steps, s)
    ensures IsSubsequence(Samples(s.outcomes), s.offered)
    ensures s.writer.Resting? ==> (s.flag != 0 <==> |s.accepted| == |Samples(s.outcomes)| + 1)
  {
    EveryInterleavingDelivers(VIRTUAL_DOWNLOAD, init, steps, s);
  }

  lemma RecordsSent()
    ensures forall words :: UploadRecord(Sample(words)) == [Int(0x11181118)] + words
    ensures UploadRecord(Nothing)
         == [Int(0x11181118), Int(0), Real(0.0), Real(0.0), Real(0.0), Real(0.0), Real(0.0), Real(0.0)]
  {
  }

  /** Every interleaving of the upload with the core: each record is a whole published sample or
      cleared, and the samples are the published ones, in order, each once. */
  lemma MonitorUploadIsSafe(init: State<Word>, steps: seq<Step<Word>>, s: State<Word>)
    requires Init(MONITOR_UPLOAD, init) && Runs(MONITOR_UPLOAD, init, steps, s)
    ensures Increasing(s.accepted, |s.offered|)
    ensures Samples(s.outcomes) <= Accepted(s) && |Accepted(s)| <= |Samples(s.outcomes)| + 1
    ensures forall k :: 0 <= k < |s.outcomes| ==>
              match s.outcomes[k]
              case Sample(words) =>
                && UploadRecord(s.outcomes[k]) == [Int(0x11181118)] + words
                && exists j :: 0 <= j < |Accepted(s)| && words == Accepted(s)[j]
              case Nothing =>
                UploadRecord(s.outcomes[k])
                == [Int(0x11181118), Int(0), Real(0.0), Real(0.0), Real(0.0), Real(0.0), Real(0.0), Real(0.0)]
  {
    RecordsSent();
    hide UploadRecord;
    EveryInterleavingDelivers(MONITOR_UPLOAD, init, steps, s);
    forall k | 0 <= k < |s.outcomes| && s.outcomes[k].Sample?
      ensures exists j :: 0 <= j < |Accepted(s)| && s.outcomes[k].words == Accepted(s)[j]
    {
      var j := SampleIndex(s.outcomes, k);
      assert s.outcomes[k].words == Accepted(s)[j];
    }
  }

  /** Where a delivered sample stands among all of them. */
  lemma {:induction false} SampleIndex<W>(outcomes: seq<Outcome<W>>, k: nat) returns (j: nat)
    requires k < |outcomes| && outcomes[k].Sample?
    ensures j < |Samples(outcomes)| && Samples(outcomes)[j] == outcomes[k].words
    decreases |outcomes|
  {
    var front := outcomes[..|outcomes| - 1];
    if k == |front| {
      j := |Samples(front)|;
    } else {
      j := SampleIndex(front, k);
    }
  }

  /** Servo_Force_Comm_Set_Instruct is safe in every interleaving if and only if the structure it
      is given carries a zero flag. */
  lemma SetInstructSafeIff(push: Instruction)
    requires |push.data| == 48
    ensures AlwaysDelivers(SET_INSTRUCT, Message(push.valid as int, InstructionWords(push))) <==> push.valid == 0
  {
    var msg := Message(push.valid as int, InstructionWords(push));
    var other := push.(notUsed := if push.notUsed == 0 then 1 else 0);
    assert InstructionWords(other)[0] != msg.words[0];
    StructureCopySafeIff(SET_INSTRUCT, msg, InstructionWords(other));
  }

  /** Every interleaving of a result read with the core's publishing. */
  lemma GetResultIsSafe(init: State<int32>, steps: seq<Step<int32>>, s: State<int32>)
    requires Init(GET_RESULT, init) && Runs(GET_RESULT, init, steps, s)
    ensures Increasing(s.accepted, |s.offered|)
    ensures Samples(s.outcomes) <= Accepted(s) && |Accepted(s)| <= |Samples(s.outcomes)| + 1
  {
    EveryInterleavingDelivers(GET_RESULT, init, steps, s);
  }
}
