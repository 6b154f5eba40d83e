/** One record slot of the auth state table (`auth/src/table.rs`): two banks of words
    selected by the parity of a never-wrapping revision.  Writers hold an exclusive lock
    that the kernel releases if they die; readers take none.  Each word access is a step. */
module AuthSlot {

  const BANK_WORDS: nat := 17
  const U64_MAX: nat := 0xFFFF_FFFF_FFFF_FFFF

  type Wire = seq<nat>

  const ZERO_BANK: Wire := [0, 0, 0, 0, 0, 0, 0, 0, 0, 0, 0, 0, 0, 0, 0, 0, 0]

  datatype ReadResult = Empty | Value(revision: nat, wire: Wire) | Changed

  datatype Reader =
    | LoadRevision
    | CopyWords(before: nat, words: Wire)
    | Recheck(before: nat, words: Wire)
    | Answered(result: ReadResult)

  /** `next` words of `wire` are already in the inactive bank. */
  datatype Writer = NoWriter | Storing(revision: nat, wire: Wire, next: nat)

  datatype State = State(
    revision: nat,
    even: Wire,
    odd: Wire,
    writer: Writer,
    readers: map<nat, Reader>)

  const Initial := State(0, ZERO_BANK, ZERO_BANK, NoWriter, map[])

  function Bank(s: State, revision: nat): Wire { if revision % 2 == 0 then s.even else s.odd }

  function SetWord(s: State, revision: nat, i: nat, word: nat): State
    requires i < |Bank(s, revision)|
  {
    if revision % 2 == 0 then s.(even := s.even[i := word]) else s.(odd := s.odd[i := word])
  }

  datatype Step =
    | StartStore(wire: Wire)
    | RunWriter
    | CrashWriter
    | StartRead(t: nat)
    | RunReader(t: nat)

  predicate Shaped(s: State) {
    |s.even| == BANK_WORDS && |s.odd| == BANK_WORDS
  }

  predicate Enabled(s: State, step: Step) {
    match step
    case StartStore(wire) => s.writer.NoWriter? && |wire| == BANK_WORDS
    case RunWriter => s.writer.Storing? && |s.writer.wire| == BANK_WORDS && s.writer.next <= BANK_WORDS
    case CrashWriter => s.writer.Storing?
    case StartRead(t) => t !in s.readers
    case RunReader(t) => t in s.readers && !s.readers[t].Answered?
  }

  function ReadStep(s: State, r: Reader): Reader
    requires Shaped(s) && !r.Answered?
  {
    match r
    case LoadRevision => if s.revision == 0 then Answered(Empty) else CopyWords(s.revision, [])
    case CopyWords(before, words) =>
      if |words| < BANK_WORDS then CopyWords(before, words + [Bank(s, before)[|words|]])
      else Recheck(before, words)
    case Recheck(before, words) =>
      Answered(if s.revision != before then Changed else Value(before, words))
  }

  function Apply(s: State, step: Step): State
    requires Shaped(s) && Enabled(s, step)
  {
    match step
    case StartStore(wire) =>
      // an exhausted revision is an error and writes nothing
      if s.revision == U64_MAX then s else s.(writer := Storing(s.revision + 1, wire, 0))
    case RunWriter =>
      var w := s.writer;
      if w.next < BANK_WORDS then
        SetWord(s, w.revision, w.next, w.wire[w.next]).(writer := w.(next := w.next + 1))
      else s.(revision := w.revision, writer := NoWriter)
    case CrashWriter => s.(writer := NoWriter)
    case StartRead(t) => s.(readers := s.readers[t := LoadRevision])
    case RunReader(t) => s.(readers := s.readers[t := ReadStep(s, s.readers[t])])
  }

  // --------------------------------------------------------------------- invariant

  ghost predicate WriterInvariant(s: State)
    requires Shaped(s)
  {
    s.writer.Storing? ==>
      && s.writer.revision == s.revision + 1 <= U64_MAX
      && |s.writer.wire| == BANK_WORDS && s.writer.next <= BANK_WORDS
      && Bank(s, s.writer.revision)[..s.writer.next] == s.writer.wire[..s.writer.next]
  }

  /** A copy taken while its revision is still current is a prefix of the current bank. */
  ghost predicate ReaderInvariant(s: State, r: Reader)
    requires Shaped(s)
  {
    match r
    case LoadRevision => true
    case CopyWords(before, words) =>
      && 0 < before <= s.revision && |words| <= BANK_WORDS
      && (before == s.revision ==> words == Bank(s, before)[..|words|])
    case Recheck(before, words) =>
      && 0 < before <= s.revision && |words| == BANK_WORDS
      && (before == s.revision ==> words == Bank(s, before))
    case Answered(result) => result.Value? ==> 0 < result.revision <= s.revision
  }

  ghost predicate Invariant(s: State) {
    && Shaped(s) && s.revision <= U64_MAX
    && WriterInvariant(s)
    && forall t :: t in s.readers ==> ReaderInvariant(s, s.readers[t])
  }

  lemma ReaderStepKeeps(s: State, r: Reader)
    requires Invariant(s) && !r.Answered? && ReaderInvariant(s, r)
    ensures ReaderInvariant(s, ReadStep(s, r))
  {
  }

  lemma WordStepKeeps(s: State)
    requires Invariant(s) && Enabled(s, RunWriter) && s.writer.next < BANK_WORDS
    ensures Invariant(Apply(s, RunWriter))
    ensures Bank(Apply(s, RunWriter), s.revision) == Bank(s, s.revision)
  {
  }

  lemma PublishKeeps(s: State)
    requires Invariant(s) && Enabled(s, RunWriter) && s.writer.next == BANK_WORDS
    ensures Invariant(Apply(s, RunWriter))
  {
    var s' := Apply(s, RunWriter);
    forall t | t in s'.readers ensures ReaderInvariant(s', s'.readers[t]) {
      assert ReaderInvariant(s, s.readers[t]);
    }
  }

  lemma RunReaderKeeps(s: State, t: nat)
    requires Invariant(s) && Enabled(s, RunReader(t))
    ensures Invariant(Apply(s, RunReader(t)))
  {
    var s' := Apply(s, RunReader(t));
    ReaderStepKeeps(s, s.readers[t]);
    forall x | x in s'.readers ensures ReaderInvariant(s', s'.readers[x]) {
      assert x != t ==> ReaderInvariant(s, s.readers[x]);
    }
  }

  lemma StepKeepsInvariant(s: State, step: Step)
    requires Invariant(s) && Enabled(s, step)
    ensures Invariant(Apply(s, step))
  {
    var s' := Apply(s, step);
    match step
    case RunWriter => if s.writer.next < BANK_WORDS { WordStepKeeps(s); } else { PublishKeeps(s); }
    case RunReader(t) => RunReaderKeeps(s, t);
    case _ =>
      forall x | x in s'.readers ensures ReaderInvariant(s', s'.readers[x]) {
        assert x in s.readers ==> ReaderInvariant(s, s.readers[x]);
      }
  }

  // --------------------------------------------------------------- whole executions

  ghost predicate IsExecution(ss: seq<State>, steps: seq<Step>) {
    && |ss| == |steps| + 1 && ss[0] == Initial
    && forall i :: 0 <= i < |steps| ==>
         Shaped(ss[i]) && Enabled(ss[i], steps[i]) && ss[i + 1] == Apply(ss[i], steps[i])
  }

  lemma {:induction false} ExecutionKeepsInvariant(ss: seq<State>, steps: seq<Step>, n: nat)
    requires IsExecution(ss, steps) && n < |ss|
    ensures Invariant(ss[n])
  {
    if n > 0 {
      ExecutionKeepsInvariant(ss, steps, n - 1);
      StepKeepsInvariant(ss[n - 1], steps[n - 1]);
    }
  }

  /** Step `i` completes the store of `wire` under `revision`. */
  ghost predicate Publishes(ss: seq<State>, steps: seq<Step>, i: nat, revision: nat, wire: Wire) {
    && i < |steps| < |ss| && steps[i] == RunWriter
    && ss[i].writer == Storing(revision, wire, BANK_WORDS)
  }

  lemma {:induction false} CurrentWasPublished(ss: seq<State>, steps: seq<Step>, n: nat) returns (i: nat)
    requires IsExecution(ss, steps) && n < |ss| && ss[n].revision > 0
    ensures Shaped(ss[n]) && i < n && Publishes(ss, steps, i, ss[n].revision, Bank(ss[n], ss[n].revision))
  {
    var p := n - 1;
    var s, step := ss[p], steps[p];
    ExecutionKeepsInvariant(ss, steps, p);
    ExecutionKeepsInvariant(ss, steps, n);
    if step.RunWriter? && s.writer.next == BANK_WORDS {
      i := p;
      assert Bank(s, s.writer.revision)[..BANK_WORDS] == Bank(s, s.writer.revision);
      assert s.writer.wire[..BANK_WORDS] == s.writer.wire;
    } else {
      if step.RunWriter? {
        WordStepKeeps(s);
      }
      assert ss[n].revision == s.revision && Bank(ss[n], s.revision) == Bank(s, s.revision);
      i := CurrentWasPublished(ss, steps, p);
    }
  }

  lemma {:induction false} RevisionsGrow(ss: seq<State>, steps: seq<Step>, i: nat, j: nat)
    requires IsExecution(ss, steps) && i <= j < |ss|
    ensures ss[i].revision <= ss[j].revision
  {
    if i < j {
      RevisionsGrow(ss, steps, i, j - 1);
      ExecutionKeepsInvariant(ss, steps, j - 1);
    }
  }

  /** Torn-free reads.  In every interleaving of word stores, word loads and writer
      crashes, the words a reader returns under a revision are exactly the wire whose
      store published that revision, complete and current at one instant of the read. */
  lemma {:induction false} ReadIsWhatWasPublished(ss: seq<State>, steps: seq<Step>, n: nat, t: nat)
    returns (published: nat, instant: nat)
    requires IsExecution(ss, steps) && n < |ss|
    requires t in ss[n].readers && ss[n].readers[t].Answered? && ss[n].readers[t].result.Value?
    ensures
      var v := ss[n].readers[t].result;
      && published < instant < n
      && Publishes(ss, steps, published, v.revision, v.wire)
      && steps[instant] == RunReader(t)
      && ss[instant].revision == v.revision && Bank(ss[instant], v.revision) == v.wire
  {
    var p := n - 1;
    var s := ss[p];
    if t in s.readers && s.readers[t] == ss[n].readers[t] {
      published, instant := ReadIsWhatWasPublished(ss, steps, p, t);
    } else {
      ExecutionKeepsInvariant(ss, steps, p);
      assert steps[p] == RunReader(t);
      assert ReaderInvariant(s, s.readers[t]);
      instant := p;
      published := CurrentWasPublished(ss, steps, p);
    }
  }

  /** A revision is published at most once, so equal revisions mean equal wires. */
  lemma PublishedOnce(ss: seq<State>, steps: seq<Step>, i: nat, j: nat, revision: nat, a: Wire, b: Wire)
    requires IsExecution(ss, steps)
    requires Publishes(ss, steps, i, revision, a) && Publishes(ss, steps, j, revision, b)
    ensures i == j && a == b
  {
    ExecutionKeepsInvariant(ss, steps, i);
    ExecutionKeepsInvariant(ss, steps, j);
    if i < j {
      RevisionsGrow(ss, steps, i + 1, j);
    } else if j < i {
      RevisionsGrow(ss, steps, j + 1, i);
    }
  }

  function ReadAlone(s: State, r: Reader, steps: nat): Reader
    requires Shaped(s)
    decreases steps
  {
    if steps == 0 || r.Answered? then r else ReadAlone(s, ReadStep(s, r), steps - 1)
  }

  lemma {:induction false} CopyAlone(s: State, words: Wire)
    requires Shaped(s) && s.revision > 0 && |words| <= BANK_WORDS
    requires words == Bank(s, s.revision)[..|words|]
    ensures ReadAlone(s, CopyWords(s.revision, words), BANK_WORDS - |words| + 2)
         == Answered(Value(s.revision, Bank(s, s.revision)))
    decreases BANK_WORDS - |words|
  {
    var bank := Bank(s, s.revision);
    if |words| < BANK_WORDS {
      assert bank[..|words| + 1] == bank[..|words|] + [bank[|words|]];
      CopyAlone(s, words + [bank[|words|]]);
    } else {
      assert bank[..BANK_WORDS] == bank;
      var recheck := Recheck(s.revision, words);
      assert ReadAlone(s, CopyWords(s.revision, words), 2) == ReadAlone(s, recheck, 1);
      assert ReadAlone(s, recheck, 1) == ReadAlone(s, ReadStep(s, recheck), 0);
    }
  }

  /** Crash safety.  Wherever a writer dies before publishing, an undisturbed read still
      returns the record that was current when that store began. */
  lemma CrashLeavesPreviousReadable(ss: seq<State>, steps: seq<Step>, began: nat, n: nat)
    requires IsExecution(ss, steps) && began < n < |ss|
    requires steps[began].StartStore?
    requires forall i :: began < i < n ==> !steps[i].StartStore? && !steps[i].CrashWriter?
    requires ss[n].writer.Storing? && ss[began].revision > 0
    ensures Shaped(ss[n])
    ensures
      var crashed := Apply(ss[n], CrashWriter);
      ReadAlone(crashed, LoadRevision, BANK_WORDS + 3)
        == Answered(Value(ss[began].revision, Bank(ss[began], ss[began].revision)))
  {
    StoreHidesItsWork(ss, steps, began, n);
    ExecutionKeepsInvariant(ss, steps, n);
    var crashed := Apply(ss[n], CrashWriter);
    CopyAlone(crashed, []);
  }

  lemma {:induction false} StoreHidesItsWork(ss: seq<State>, steps: seq<Step>, began: nat, n: nat)
    requires IsExecution(ss, steps) && began < n < |ss|
    requires steps[began].StartStore?
    requires forall i :: began < i < n ==> !steps[i].StartStore? && !steps[i].CrashWriter?
    requires ss[n].writer.Storing?
    ensures ss[n].revision == ss[began].revision
    ensures Shaped(ss[n]) && Bank(ss[n], ss[n].revision) == Bank(ss[began], ss[n].revision)
  {
    ExecutionKeepsInvariant(ss, steps, n);
    ExecutionKeepsInvariant(ss, steps, n - 1);
    if began < n - 1 {
      StoreHidesItsWork(ss, steps, began, n - 1);
      if steps[n - 1].RunWriter? {
        WordStepKeeps(ss[n - 1]);
      }
    }
  }
}
