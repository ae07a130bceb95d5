/** The one-slot mailboxes shared with the force core: a `valid` flag and some payload words,
    written and read word by word, in any interleaving and any word order. The party outside
    this repository is an assumption: it follows the same protocol as the party inside. */
module Mailbox {

  /** `size` payload words; the writer publishes by storing `mark` into the flag. A writer that
      copies a whole structure also copies the structure's own flag word (`copiesFlag`). The
      reader either takes any non-zero flag or only the value 1. */
  datatype Protocol = Protocol(size: nat, mark: int, copiesFlag: bool, takesOnlyOne: bool)

  predicate Takes(p: Protocol, flag: int) {
    if p.takesOnlyOne then flag == 1 else flag != 0
  }

  predicate WellFormed(p: Protocol) {
    p.mark != 0 && Takes(p, p.mark)
  }

  /** What the writer is asked to send: the payload, and the flag word that comes with it. */
  datatype Message<W> = Message(flag: int, words: seq<W>)

  datatype Writer<W> = Resting | Writing(msg: Message<W>, done: set<nat>, flagDone: bool)
  datatype Reader<W> = Waiting | Reading(got: map<nat, W>)

  /** One call of the reader: a whole payload, or nothing. */
  datatype Outcome<W> = Sample(words: seq<W>) | Nothing

  datatype State<W> = State(
    flag: int,
    words: seq<W>,
    writer: Writer<W>,
    reader: Reader<W>,
    offered: seq<Message<W>>,
    accepted: seq<nat>,       // the indices of the offers that were not dropped
    outcomes: seq<Outcome<W>>)   // what the reader's finished calls delivered

  datatype Step<W> =
    | Offer(msg: Message<W>)
    | WriteWord(i: nat)
    | WriteFlag
    | Publish
    | Look
    | ReadWord(i: nat)
    | Release

  predicate Enabled<W>(p: Protocol, s: State<W>, step: Step<W>) {
    match step
    case Offer(msg) => s.writer.Resting? && |msg.words| == p.size
    case WriteWord(i) => s.writer.Writing? && i < p.size && i < |s.words| && i < |s.writer.msg.words|
    case WriteFlag => s.writer.Writing? && p.copiesFlag && !s.writer.flagDone
    case Publish =>
      s.writer.Writing? && (p.copiesFlag ==> s.writer.flagDone) && forall i: nat :: i < p.size ==> i in s.writer.done
    case Look => s.reader.Waiting?
    case ReadWord(i) => s.reader.Reading? && i < p.size && i < |s.words|
    case Release => s.reader.Reading? && forall i: nat :: i < p.size ==> i in s.reader.got
  }

  function Apply<W>(p: Protocol, s: State<W>, step: Step<W>): State<W>
    requires Enabled(p, s, step)
  {
    match step
    case Offer(msg) =>
      if s.flag == 0 then
        s.(writer := Writing(msg, {}, false), offered := s.offered + [msg], accepted := s.accepted + [|s.offered|])
      else
        s.(offered := s.offered + [msg])
    case WriteWord(i) =>
      s.(words := s.words[i := s.writer.msg.words[i]], writer := s.writer.(done := s.writer.done + {i}))
    case WriteFlag =>
      s.(flag := s.writer.msg.flag, writer := s.writer.(flagDone := true))
    case Publish =>
      s.(flag := p.mark, writer := Resting)
    case Look =>
      if Takes(p, s.flag) then s.(reader := Reading(map[])) else s.(outcomes := s.outcomes + [Nothing])
    case ReadWord(i) =>
      s.(reader := Reading(s.reader.got[i := s.words[i]]))
    case Release =>
      s.(flag := 0, reader := Waiting,
         outcomes := s.outcomes + [Sample(seq(p.size, i requires 0 <= i < p.size => s.reader.got[i]))])
  }

  ghost predicate Runs<W>(p: Protocol, s: State<W>, steps: seq<Step<W>>, s': State<W>)
    decreases |steps|
  {
    if steps == [] then s' == s
    else Enabled(p, s, steps[0]) && Runs(p, Apply(p, s, steps[0]), steps[1..], s')
  }

  lemma RunStep<W>(p: Protocol, s: State<W>, step: Step<W>, rest: seq<Step<W>>, s': State<W>)
    requires Enabled(p, s, step) && Runs(p, Apply(p, s, step), rest, s')
    ensures Runs(p, s, [step] + rest, s')
  {
    assert ([step] + rest)[1..] == rest;
  }

  lemma LastStep<W>(p: Protocol, s: State<W>, step: Step<W>)
    requires Enabled(p, s, step)
    ensures Runs(p, s, [step], Apply(p, s, step))
  {
    RunStep(p, s, step, [], Apply(p, s, step));
    assert [step] + [] == [step];
  }

  predicate Init<W>(p: Protocol, s: State<W>) {
    && s.flag == 0 && |s.words| == p.size && s.writer.Resting? && s.reader.Waiting?
    && s.offered == [] && s.accepted == [] && s.outcomes == []
  }

  /** The payloads delivered, in order. */
  function Samples<W>(outcomes: seq<Outcome<W>>): seq<seq<W>> {
    if outcomes == [] then []
    else
      var rest := Samples(outcomes[..|outcomes| - 1]);
      var last := outcomes[|outcomes| - 1];
      if last.Sample? then rest + [last.words] else rest
  }

  lemma SamplesAppend<W>(outcomes: seq<Outcome<W>>, o: Outcome<W>)
    ensures Samples(outcomes + [o]) == Samples(outcomes) + if o.Sample? then [o.words] else []
  {
    assert (outcomes + [o])[..|outcomes|] == outcomes;
  }

  // ---------------------------------------------------------------------------------------
  // The invariant
  // ---------------------------------------------------------------------------------------

  /** `accepted` picks offers in increasing order. */
  ghost predicate Increasing(idx: seq<nat>, bound: nat) {
    && (forall k :: 0 <= k < |idx| ==> idx[k] < bound)
    && (forall j, k :: 0 <= j < k < |idx| ==> idx[j] < idx[k])
  }

  /** No offered flag word is one the reader would take, if it is copied at all. */
  ghost predicate QuietOffers<W>(p: Protocol, offered: seq<Message<W>>) {
    p.copiesFlag ==> forall k :: 0 <= k < |offered| ==> !Takes(p, offered[k].flag)
  }

  ghost predicate History<W>(p: Protocol, s: State<W>) {
    && Increasing(s.accepted, |s.offered|)
    && |Samples(s.outcomes)| <= |s.accepted| <= |Samples(s.outcomes)| + 1
    && (forall k :: 0 <= k < |s.offered| ==> |s.offered[k].words| == p.size)
    && (forall k :: 0 <= k < |Samples(s.outcomes)| ==> Samples(s.outcomes)[k] == s.offered[s.accepted[k]].words)
  }

  /** The words on their way: accepted, not yet delivered. */
  ghost predicate InFlight<W>(s: State<W>, words: seq<W>) {
    && |s.accepted| == |Samples(s.outcomes)| + 1
    && s.accepted[|s.accepted| - 1] < |s.offered|
    && s.offered[s.accepted[|s.accepted| - 1]].words == words
  }

  ghost predicate WriterPhase<W>(p: Protocol, s: State<W>)
    requires |s.words| == p.size
  {
    if s.writer.Writing? then
      && !Takes(p, s.flag) && s.reader.Waiting?
      && |s.writer.msg.words| == p.size && InFlight(s, s.writer.msg.words)
      && (p.copiesFlag ==> !Takes(p, s.writer.msg.flag))
      && forall i :: i in s.writer.done ==> i < p.size && s.words[i] == s.writer.msg.words[i]
    else
      s.flag == 0 || s.flag == p.mark
  }

  ghost predicate ReaderPhase<W>(p: Protocol, s: State<W>)
    requires |s.words| == p.size
  {
    && (s.writer.Resting? && s.flag == 0 ==> s.reader.Waiting? && |s.accepted| == |Samples(s.outcomes)|)
    && (s.writer.Resting? && s.flag == p.mark ==> InFlight(s, s.words))
    && (s.reader.Reading? ==> forall i :: i in s.reader.got ==> i < p.size && s.reader.got[i] == s.words[i])
  }

  ghost predicate Inv<W>(p: Protocol, s: State<W>) {
    |s.words| == p.size && History(p, s) && WriterPhase(p, s) && ReaderPhase(p, s)
  }

  lemma OfferKeepsInv<W>(p: Protocol, s: State<W>, step: Step<W>)
    requires WellFormed(p) && Inv(p, s) && Enabled(p, s, step) && step.Offer?
    requires QuietOffers(p, Apply(p, s, step).offered)
    ensures Inv(p, Apply(p, s, step))
  {
    assert p.copiesFlag ==> !Takes(p, Apply(p, s, step).offered[|s.offered|].flag);
  }

  lemma WriteKeepsInv<W>(p: Protocol, s: State<W>, step: Step<W>)
    requires WellFormed(p) && Inv(p, s) && Enabled(p, s, step) && (step.WriteWord? || step.WriteFlag? || step.Publish?)
    ensures Inv(p, Apply(p, s, step))
  {
    if step.Publish? {
      assert s.words == s.writer.msg.words;
    }
  }

  lemma ReadKeepsInv<W>(p: Protocol, s: State<W>, step: Step<W>)
    requires WellFormed(p) && Inv(p, s) && Enabled(p, s, step) && (step.Look? || step.ReadWord?)
    ensures Inv(p, Apply(p, s, step))
  {
    if step.Look? {
      SamplesAppend(s.outcomes, Nothing);
    }
  }

  lemma ReleaseKeepsInv<W>(p: Protocol, s: State<W>, step: Step<W>)
    requires WellFormed(p) && Inv(p, s) && Enabled(p, s, step) && step.Release?
    ensures Inv(p, Apply(p, s, step))
  {
    var words := seq(p.size, i requires 0 <= i < p.size => s.reader.got[i]);
    SamplesAppend(s.outcomes, Sample(words));
    assert words == s.words;
  }

  lemma StepKeepsInv<W>(p: Protocol, s: State<W>, step: Step<W>)
    requires WellFormed(p) && Inv(p, s) && Enabled(p, s, step)
    requires QuietOffers(p, Apply(p, s, step).offered)
    ensures Inv(p, Apply(p, s, step))
  {
    if step.Offer? {
      OfferKeepsInv(p, s, step);
    } else if step.Release? {
      ReleaseKeepsInv(p, s, step);
    } else if step.Look? || step.ReadWord? {
      ReadKeepsInv(p, s, step);
    } else {
      WriteKeepsInv(p, s, step);
    }
  }

  lemma {:induction false} OffersOnlyGrow<W>(p: Protocol, s: State<W>, steps: seq<Step<W>>, s': State<W>)
    requires Runs(p, s, steps, s')
    ensures s.offered <= s'.offered
    decreases |steps|
  {
    if steps != [] {
      OffersOnlyGrow(p, Apply(p, s, steps[0]), steps[1..], s');
    }
  }

  lemma {:induction false} RunKeepsInv<W>(p: Protocol, s: State<W>, steps: seq<Step<W>>, s': State<W>)
    requires WellFormed(p) && Inv(p, s) && Runs(p, s, steps, s') && QuietOffers(p, s'.offered)
    ensures Inv(p, s')
    decreases |steps|
  {
    if steps != [] {
      var t := Apply(p, s, steps[0]);
      OffersOnlyGrow(p, t, steps[1..], s');
      assert forall k :: 0 <= k < |t.offered| ==> t.offered[k] == s'.offered[k];
      StepKeepsInv(p, s, steps[0]);
      RunKeepsInv(p, t, steps[1..], s');
    }
  }

  // ---------------------------------------------------------------------------------------
  // What every interleaving guarantees
  // ---------------------------------------------------------------------------------------

  /** `out` is what some of the offered messages carry, in the order they were offered, each at
      most once. */
  ghost predicate IsSubsequence<W>(out: seq<seq<W>>, offered: seq<Message<W>>) {
    exists idx: seq<nat> ::
      |idx| == |out| && Increasing(idx, |offered|) && forall k :: 0 <= k < |out| ==> out[k] == offered[idx[k]].words
  }

  /** What the accepted offers carry, in order. */
  function Accepted<W>(s: State<W>): seq<seq<W>>
    requires forall k :: 0 <= k < |s.accepted| ==> s.accepted[k] < |s.offered|
  {
    seq(|s.accepted|, k requires 0 <= k < |s.accepted| => s.offered[s.accepted[k]].words)
  }

  /** In every interleaving the delivered payloads are whole, in order and not repeated: they are
      the accepted ones, all but at most the last. A new offer is dropped exactly while an
      accepted one is still undelivered. */
  lemma EveryInterleavingDelivers<W>(p: Protocol, init: State<W>, steps: seq<Step<W>>, s: State<W>)
    requires WellFormed(p) && Init(p, init) && Runs(p, init, steps, s) && QuietOffers(p, s.offered)
    ensures IsSubsequence(Samples(s.outcomes), s.offered)
    ensures Increasing(s.accepted, |s.offered|)
    ensures Samples(s.outcomes) <= Accepted(s) && |Accepted(s)| <= |Samples(s.outcomes)| + 1
    ensures s.writer.Resting? ==> (s.flag != 0 <==> |s.accepted| == |Samples(s.outcomes)| + 1)
    ensures |Samples(s.outcomes)| <= |s.accepted| <= |s.offered|
  {
    RunKeepsInv(p, init, steps, s);
    var out := Samples(s.outcomes);
    var idx := s.accepted[..|out|];
    assert |idx| == |out| && Increasing(idx, |s.offered|);
    IncreasingIsShort(s.accepted, |s.offered|);
  }

  lemma {:induction false} IncreasingIsShort(idx: seq<nat>, bound: nat)
    requires Increasing(idx, bound)
    ensures |idx| <= bound
    decreases |idx|
  {
    if idx != [] {
      var n := |idx| - 1;
      IncreasingIsShort(idx[..n], idx[n]);
    }
  }

  // ---------------------------------------------------------------------------------------
  // When the copied structure carries its own flag
  // ---------------------------------------------------------------------------------------

  function ReadWords<W>(k: nat, n: nat): seq<Step<W>>
    requires k <= n
    decreases n - k
  {
    if k == n then [Release] else [ReadWord(k)] + ReadWords(k + 1, n)
  }

  /** A reader left alone delivers the words as they are. */
  lemma {:induction false} ReadAll<W>(p: Protocol, s: State<W>, k: nat) returns (s': State<W>)
    requires |s.words| == p.size && k <= p.size && s.reader.Reading?
    requires forall i: nat :: i < k ==> i in s.reader.got && s.reader.got[i] == s.words[i]
    ensures Runs(p, s, ReadWords(k, p.size), s')
    ensures s' == s.(flag := 0, reader := Waiting, outcomes := s.outcomes + [Sample(s.words)])
    decreases p.size - k
  {
    if k == p.size {
      s' := Apply(p, s, Release);
      LastStep(p, s, Release);
      assert seq(p.size, i requires 0 <= i < p.size => s.reader.got[i]) == s.words;
    } else {
      s' := ReadAll(p, Apply(p, s, ReadWord(k)), k + 1);
      RunStep(p, s, ReadWord(k), ReadWords(k + 1, p.size), s');
    }
  }

  /** A single offer whose flag word the reader takes can be read before any payload word of it
      is written: the reader then gets what the slot held before. */
  lemma TornRead<W>(p: Protocol, msg: Message<W>, before: seq<W>) returns (init: State<W>, steps: seq<Step<W>>, s: State<W>)
    requires p.copiesFlag && |msg.words| == |before| == p.size && Takes(p, msg.flag)
    ensures Init(p, init) && Runs(p, init, steps, s) && s.offered == [msg]
    ensures init.words == before && Samples(s.outcomes) == [before]
  {
    init := State(0, before, Resting, Waiting, [], [], []);
    var s1 := Apply(p, init, Offer(msg));
    var s2 := Apply(p, s1, WriteFlag);
    var s3 := Apply(p, s2, Look);
    s := ReadAll(p, s3, 0);
    SamplesAppend([], Sample(init.words));
    assert [] + [Sample(init.words)] == s.outcomes;
    var rest := ReadWords(0, p.size);
    RunStep(p, s2, Look, rest, s);
    RunStep(p, s1, WriteFlag, [Look] + rest, s);
    RunStep(p, init, Offer(msg), [WriteFlag] + ([Look] + rest), s);
    steps := [Offer(msg)] + ([WriteFlag] + ([Look] + rest));
  }

  ghost predicate OnlyOffers<W>(s: State<W>, msg: Message<W>) {
    forall k :: 0 <= k < |s.offered| ==> s.offered[k] == msg
  }

  ghost predicate DeliversOnly<W>(p: Protocol, msg: Message<W>, init: State<W>, steps: seq<Step<W>>, s: State<W>) {
    Init(p, init) && Runs(p, init, steps, s) && OnlyOffers(s, msg) ==>
      forall k :: 0 <= k < |Samples(s.outcomes)| ==> Samples(s.outcomes)[k] == msg.words
  }

  ghost predicate AlwaysDelivers<W(!new)>(p: Protocol, msg: Message<W>) {
    forall init, steps, s :: DeliversOnly(p, msg, init, steps, s)
  }

  /** A writer that copies the whole structure, flag included, delivers only what it was given,
      in every interleaving, if and only if the flag it was given is not one the reader takes. There
      is some other payload, `before`, that the slot may hold first. */
  lemma StructureCopySafeIff<W(!new)>(p: Protocol, msg: Message<W>, before: seq<W>)
    requires WellFormed(p) && p.copiesFlag && |msg.words| == |before| == p.size && before != msg.words
    ensures AlwaysDelivers(p, msg) <==> !Takes(p, msg.flag)
  {
    if Takes(p, msg.flag) {
      var init, steps, s := TornRead(p, msg, before);
      assert Samples(s.outcomes)[0] != msg.words;
      assert !DeliversOnly(p, msg, init, steps, s);
    } else {
      forall init, steps, s
        ensures DeliversOnly(p, msg, init, steps, s)
      {
        if Init(p, init) && Runs(p, init, steps, s) && OnlyOffers(s, msg) {
          RunKeepsInv(p, init, steps, s);
        }
      }
    }
  }

  // ---------------------------------------------------------------------------------------
  // The steps without interference are the calls
  // ---------------------------------------------------------------------------------------

  function WriteWords<W>(p: Protocol, k: nat): seq<Step<W>>
    requires k <= p.size
    decreases p.size - k
  {
    if k == p.size then if p.copiesFlag then [WriteFlag] + [Publish] else [Publish]
    else [WriteWord(k)] + WriteWords(p, k + 1)
  }

  lemma {:induction false} WriteAll<W>(p: Protocol, s: State<W>, k: nat) returns (s': State<W>)
    requires |s.words| == p.size && k <= p.size
    requires s.writer.Writing? && |s.writer.msg.words| == p.size && !s.writer.flagDone
    requires forall i: nat :: i < k ==> i in s.writer.done && s.words[i] == s.writer.msg.words[i]
    ensures Runs(p, s, WriteWords(p, k), s')
    ensures s' == s.(flag := p.mark, words := s.writer.msg.words, writer := Resting)
    decreases p.size - k
  {
    if k == p.size {
      assert s.words == s.writer.msg.words;
      var t := if p.copiesFlag then Apply(p, s, WriteFlag) else s;
      s' := Apply(p, t, Publish);
      LastStep(p, t, Publish);
      if p.copiesFlag {
        RunStep(p, s, WriteFlag, [Publish], s');
      }
    } else {
      s' := WriteAll(p, Apply(p, s, WriteWord(k)), k + 1);
      RunStep(p, s, WriteWord(k), WriteWords(p, k + 1), s');
    }
  }

  /** Run alone, an offer fills an empty slot and publishes it, and leaves a full one as it is. */
  lemma SoloOffer<W>(p: Protocol, s: State<W>, msg: Message<W>) returns (steps: seq<Step<W>>, s': State<W>)
    requires |s.words| == p.size == |msg.words| && s.writer.Resting?
    ensures Runs(p, s, steps, s') && s'.writer.Resting? && s'.reader == s.reader && s'.outcomes == s.outcomes
    ensures s'.offered == s.offered + [msg]
    ensures s'.accepted == if s.flag == 0 then s.accepted + [|s.offered|] else s.accepted
    ensures if s.flag == 0 then s'.flag == p.mark && s'.words == msg.words else s'.flag == s.flag && s'.words == s.words
  {
    var t := Apply(p, s, Offer(msg));
    if s.flag == 0 {
      s' := WriteAll(p, t, 0);
      steps := [Offer(msg)] + WriteWords(p, 0);
      RunStep(p, s, Offer(msg), WriteWords(p, 0), s');
    } else {
      steps, s' := [Offer(msg)], t;
      assert steps[1..] == [];
    }
  }

  /** Run alone, a read empties a slot whose flag it takes, and leaves any other as it is. */
  lemma SoloTake<W>(p: Protocol, s: State<W>) returns (steps: seq<Step<W>>, s': State<W>)
    requires |s.words| == p.size && s.reader.Waiting?
    ensures Runs(p, s, steps, s') && s'.reader.Waiting? && s'.writer == s.writer && s'.words == s.words
    ensures s'.offered == s.offered && s'.accepted == s.accepted
    ensures if Takes(p, s.flag) then s'.flag == 0 && s'.outcomes == s.outcomes + [Sample(s.words)]
            else s'.flag == s.flag && s'.outcomes == s.outcomes + [Nothing]
  {
    var t := Apply(p, s, Look);
    if Takes(p, s.flag) {
      s' := ReadAll(p, t, 0);
      steps := [Look] + ReadWords(0, p.size);
      RunStep(p, s, Look, ReadWords(0, p.size), s');
    } else {
      steps, s' := [Look], t;
      assert steps[1..] == [];
    }
  }
}
