/** The index of the arena along the runs of `ArenaPins`, when the writer also makes the choices
    that the code makes (`arena/src/lib.rs`): the key's old record is retired before room is
    sought for the new one, and a slot is chosen on the key's probe chain.  Then probe chains,
    unique keys and separate spans survive every interleaving and every death. */
module ArenaPlan {

  import opened Wrappers
  import opened ArenaTypes
  import opened ArenaPins
  import opened ArenaPinsRuns
  import Index = ArenaIndex

  function KeyOf(slot: RawSlot): Key { Key(slot.words[0], slot.words[1]) }

  predicate Named(slot: RawSlot, key: Key) { slot.state.Live? && KeyOf(slot) == key }

  predicate Offered(slot: RawSlot) { slot.state.Live? || slot.state.Addressed? }

  /** No EMPTY slot comes before `i` on the key's probe chain. */
  ghost predicate Reachable(slots: seq<RawSlot>, key: Key, i: nat)
    requires i < |slots|
  {
    forall d :: 0 <= d < Index.Distance(key, |slots|, i) ==>
      !slots[Index.ProbeAt(key, |slots|, d)].state.Empty?
  }

  ghost predicate Unnamed(slots: seq<RawSlot>, key: Option<Key>) {
    key.Some? ==> forall j :: 0 <= j < |slots| ==> !Named(slots[j], key.value)
  }

  ghost predicate OnChain(slots: seq<RawSlot>, key: Option<Key>, i: nat) {
    key.Some? && i < |slots| ==> Reachable(slots, key.value, i)
  }

  /** What the code chooses where `ArenaPins` leaves the writer free: `find_locked` and its
      eviction come before the search, and `free_slot_locked` passes no EMPTY slot. */
  ghost predicate Chosen(s: State, step: Step) {
    match step
    case StartWrite(job, _) => Unnamed(s.slots, job.key)
    case Choose(i) => s.writer.Choosing? ==> OnChain(s.slots, s.writer.job.key, i)
    case _ => true
  }

  // --------------------------------------------------------------------- invariant

  ghost predicate Relied(threads: Threads, j: nat) {
    exists t :: t in threads && threads[t].slot == j && Relies(threads[t].pc)
  }

  /** Somebody may read the slot's bytes. */
  ghost predicate InUse(slots: seq<RawSlot>, threads: Threads, j: nat)
    requires j < |slots|
  {
    Offered(slots[j]) || Relied(threads, j)
  }

  predicate Apart(a: RawSlot, b: RawSlot) { SpanEnd(a) <= SpanStart(b) || SpanEnd(b) <= SpanStart(a) }

  ghost predicate Chained(slots: seq<RawSlot>) {
    forall i :: 0 <= i < |slots| && slots[i].state.Live? ==> Reachable(slots, KeyOf(slots[i]), i)
  }

  ghost predicate OneLivePerKey(slots: seq<RawSlot>) {
    forall i, j | 0 <= i < |slots| && 0 <= j < |slots| && slots[i].state.Live? && slots[j].state.Live? ::
      KeyOf(slots[i]) == KeyOf(slots[j]) ==> i == j
  }

  ghost predicate SpansApart(slots: seq<RawSlot>, threads: Threads, bytes: nat) {
    && (forall i :: 0 <= i < |slots| && InUse(slots, threads, i) ==> SpanEnd(slots[i]) <= bytes)
    && (forall i, j | 0 <= i < |slots| && 0 <= j < |slots| && i != j ::
          InUse(slots, threads, i) && InUse(slots, threads, j) ==> Apart(slots[i], slots[j]))
  }

  ghost predicate Numbered(slots: seq<RawSlot>, counter: nat) {
    forall i :: 0 <= i < |slots| ==> Generation(slots[i]) <= counter
  }

  ghost predicate Indexed(s: State) {
    Chained(s.slots) && OneLivePerKey(s.slots) &&
    SpansApart(s.slots, s.threads, |s.ring|) && Numbered(s.slots, s.counter)
  }

  /** Nobody reads what the window holds, but for the slot being written. */
  ghost predicate OthersClear(slots: seq<RawSlot>, threads: Threads, start: nat, end: nat, i: nat) {
    forall j :: 0 <= j < |slots| && j != i ==> ClearIfMet(slots, threads, start, end, j)
  }

  /** The writer may publish what it is about to. */
  ghost predicate Planned(s: State) {
    match s.writer
    case Unlocked => true
    case Locked => true
    case Scanning(job, _, _, _, _) => Unnamed(s.slots, job.key)
    case Choosing(job, _) => Unnamed(s.slots, job.key)
    case Vetting(job, _, i, _, _) => Unnamed(s.slots, job.key) && OnChain(s.slots, job.key, i)
    case Numbering(job, _, i) => Unnamed(s.slots, job.key) && OnChain(s.slots, job.key, i)
    case Copying(job, _, i, _, _) => Unnamed(s.slots, job.key) && OnChain(s.slots, job.key, i)
    case Storing(job, position, i, _, _) =>
      && Unnamed(s.slots, job.key) && OnChain(s.slots, job.key, i)
      && OthersClear(s.slots, s.threads, position, position + |Content(job.record)|, i)
  }

  // ------------------------------------------------------------ steps that only retire

  /** Words stay, a state stays or becomes RETIRED, and only what was read is relied on. */
  ghost predicate OnlyRetires(slots: seq<RawSlot>, threads: Threads, slots': seq<RawSlot>, threads': Threads) {
    && |slots'| == |slots|
    && forall j :: 0 <= j < |slots| ==>
         && slots'[j].words == slots[j].words
         && (slots'[j].state == slots[j].state || (slots'[j].state.Retired? && !slots[j].state.Empty?))
         && (Relied(threads', j) ==> Relied(threads, j) || Offered(slots[j]))
  }

  lemma ReliedAfter(threads: Threads, t: nat, pc: Pc, j: nat)
    requires t in threads
    ensures Relied(Goto(threads, t, pc), j) ==> Relied(threads, j) || (threads[t].slot == j && Relies(pc))
  {
  }

  lemma EndedReliesLess(threads: Threads, row: nat, j: nat)
    ensures Relied(Ended(threads, row), j) ==> Relied(threads, j)
  {
  }

  ghost predicate StateRetires(s: State, s': State) {
    && OnlyRetires(s.slots, s.threads, s'.slots, s'.threads)
    && |s'.ring| == |s.ring| && s'.counter >= s.counter
  }

  lemma WriterRetires(s: State)
    requires Invariant(s) && Enabled(s, RunWriter) && !s.writer.Storing?
    ensures StateRetires(s, Apply(s, RunWriter))
  {
    WriterFrame(s);
  }

  lemma ReaderRetires(s: State, t: nat)
    requires Invariant(s) && Enabled(s, RunReader(t))
    ensures StateRetires(s, Read(s, t))
  {
    var s' := Read(s, t);
    ReadMoves(s, t);
    forall j | 0 <= j < |s.slots| ensures Relied(s'.threads, j) ==> Relied(s.threads, j) || Offered(s.slots[j]) {
      ReliedAfter(s.threads, t, s'.threads[t].pc, j);
    }
  }

  lemma OtherRetires(s: State, step: Step)
    requires Invariant(s) && Enabled(s, step) && !step.RunWriter? && !step.RunReader?
    ensures StateRetires(s, Apply(s, step))
  {
    var s' := Apply(s, step);
    match step
    case DropEntry(t) =>
      forall j | 0 <= j < |s.slots| ensures Relied(s'.threads, j) ==> Relied(s.threads, j) {
        ReliedAfter(s.threads, t, Done, j);
      }
    case Die(row) =>
      forall j | 0 <= j < |s.slots| ensures Relied(s'.threads, j) ==> Relied(s.threads, j) {
        EndedReliesLess(s.threads, row, j);
      }
    case _ =>
  }

  lemma StepRetires(s: State, step: Step)
    requires Invariant(s) && Enabled(s, step) && !(step.RunWriter? && s.writer.Storing?)
    ensures StateRetires(s, Apply(s, step))
  {
    match step
    case RunWriter => WriterRetires(s);
    case RunReader(t) => ReaderRetires(s, t);
    case _ => OtherRetires(s, step);
  }

  lemma RetiringKeepsIndexed(s: State, s': State)
    requires Indexed(s) && StateRetires(s, s')
    ensures Indexed(s')
  {
    forall i | 0 <= i < |s.slots| && InUse(s'.slots, s'.threads, i) ensures InUse(s.slots, s.threads, i) {
    }
  }

  lemma RetiringKeepsPlans(
      slots: seq<RawSlot>, threads: Threads, slots': seq<RawSlot>, threads': Threads, key: Option<Key>, i: nat)
    requires OnlyRetires(slots, threads, slots', threads')
    ensures Unnamed(slots, key) ==> Unnamed(slots', key)
    ensures OnChain(slots, key, i) ==> OnChain(slots', key, i)
  {
  }

  lemma RetiringKeepsClear(
      slots: seq<RawSlot>, threads: Threads, slots': seq<RawSlot>, threads': Threads, start: nat, end: nat, i: nat)
    requires OnlyRetires(slots, threads, slots', threads') && OthersClear(slots, threads, start, end, i)
    ensures OthersClear(slots', threads', start, end, i)
  {
    forall j | 0 <= j < |slots| && j != i ensures ClearIfMet(slots', threads', start, end, j) {
      assert ClearIfMet(slots, threads, start, end, j);
      if Meets(slots'[j], start, end) {
        assert Clear(slots, threads, j);
        assert !Relied(threads, j);
        assert !Relied(threads', j);
      }
    }
  }

  /** A writer that does not move keeps its plan. */
  lemma PlanStays(s: State, s': State)
    requires Planned(s) && StateRetires(s, s') && s'.writer == s.writer
    ensures Planned(s')
  {
    match s.writer
    case Unlocked =>
    case Locked =>
    case Scanning(job, _, i, _, _) => RetiringKeepsPlans(s.slots, s.threads, s'.slots, s'.threads, job.key, i);
    case Choosing(job, _) => RetiringKeepsPlans(s.slots, s.threads, s'.slots, s'.threads, job.key, 0);
    case Vetting(job, _, i, _, _) => RetiringKeepsPlans(s.slots, s.threads, s'.slots, s'.threads, job.key, i);
    case Numbering(job, _, i) => RetiringKeepsPlans(s.slots, s.threads, s'.slots, s'.threads, job.key, i);
    case Copying(job, _, i, _, _) => RetiringKeepsPlans(s.slots, s.threads, s'.slots, s'.threads, job.key, i);
    case Storing(job, position, i, _, _) =>
      RetiringKeepsPlans(s.slots, s.threads, s'.slots, s'.threads, job.key, i);
      RetiringKeepsClear(s.slots, s.threads, s'.slots, s'.threads, position, position + |Content(job.record)|, i);
  }

  lemma ScanningGoesOn(s: State)
    requires Invariant(s) && s.writer.Scanning? && Enabled(s, RunWriter)
    ensures
      var w := StepScan(s).writer;
      w.Locked? || ((w.Scanning? || w.Choosing?) && w.job == s.writer.job)
  {
  }

  lemma UnnamedStays(s: State, s': State)
    requires StateRetires(s, s') && Planned(s) && s.writer.Scanning?
    requires s'.writer.Locked? || ((s'.writer.Scanning? || s'.writer.Choosing?) && s'.writer.job == s.writer.job)
    ensures Planned(s')
  {
    RetiringKeepsPlans(s.slots, s.threads, s'.slots, s'.threads, s.writer.job.key, 0);
  }

  lemma ScanningKeepsPlan(s: State)
    requires Invariant(s) && Planned(s) && s.writer.Scanning? && Enabled(s, RunWriter)
    ensures Planned(Apply(s, RunWriter))
  {
    WriterRetires(s);
    ScanningGoesOn(s);
    UnnamedStays(s, Apply(s, RunWriter));
  }

  lemma PreparingKeepsPlan(s: State)
    requires Invariant(s) && Planned(s) && Enabled(s, RunWriter)
    requires s.writer.Vetting? || s.writer.Numbering? || s.writer.Copying?
    ensures Planned(Apply(s, RunWriter))
  {
    if s.writer.Copying? {
      var end := s.writer.position + |Content(s.writer.job.record)|;
      assert WindowClear(s.slots, s.threads, s.writer.position, end, |s.slots|);
    }
  }

  lemma ChoosingKeepsPlan(s: State, i: nat)
    requires Invariant(s) && Planned(s) && Enabled(s, Choose(i)) && Chosen(s, Choose(i))
    ensures Planned(Apply(s, Choose(i)))
  {
    var s' := Apply(s, Choose(i));
    OtherRetires(s, Choose(i));
    RetiringKeepsPlans(s.slots, s.threads, s'.slots, s'.threads, s.writer.job.key, i);
  }

  /** A step that publishes no word leaves the writer with a plan. */
  lemma RetiringKeepsPlan(s: State, step: Step)
    requires Invariant(s) && Planned(s) && Enabled(s, step) && Chosen(s, step)
    requires !(step.RunWriter? && s.writer.Storing?)
    ensures Planned(Apply(s, step))
  {
    match step
    case RunWriter => {
      if s.writer.Scanning? {
        ScanningKeepsPlan(s);
      } else {
        PreparingKeepsPlan(s);
      }
    }
    case Choose(i) => ChoosingKeepsPlan(s, i);
    case StartWrite(_, _) =>
    case Retry(_) =>
    case Lock =>
    case Unlock =>
    case GiveUp =>
    case CrashWriter =>
    case RunReader(t) => {
      ReaderRetires(s, t);
      ReadMoves(s, t);
      PlanStays(s, Read(s, t));
    }
    case _ => {
      OtherRetires(s, step);
      PlanStays(s, Apply(s, step));
    }
  }

  // ----------------------------------------------------------- the words, publication

  /** A word goes into a slot that nobody reads and nobody will. */
  lemma WordKeepsPlan(s: State)
    requires Invariant(s) && Indexed(s) && Planned(s) && s.writer.Storing? && s.writer.next < WORDS
    ensures Indexed(StepStore(s)) && Planned(StepStore(s))
  {
    var s' := StepStore(s);
    var i := s.writer.slot;
    assert !InUse(s.slots, s.threads, i);
    forall j | 0 <= j < |s.slots| ensures s'.slots[j].state == s.slots[j].state {
    }
    forall j | 0 <= j < |s.slots| && InUse(s'.slots, s'.threads, j) ensures j != i && InUse(s.slots, s.threads, j) {
    }
    var start, end := s.writer.position, s.writer.position + |Content(s.writer.job.record)|;
    forall j | 0 <= j < |s.slots| && j != i ensures ClearIfMet(s'.slots, s'.threads, start, end, j) {
      assert ClearIfMet(s.slots, s.threads, start, end, j);
    }
  }

  /** The slot about to be published, whole. */
  lemma PublishesTarget(s: State)
    requires Invariant(s) && s.writer.Storing? && s.writer.next >= WORDS
    ensures
      var i := s.writer.slot;
      && StepStore(s).slots
           == s.slots[i := RawSlot(if s.writer.job.key.Some? then Live else Addressed, Target(s.writer))]
      && StepStore(s).threads == s.threads && |StepStore(s).ring| == |s.ring| && StepStore(s).counter == s.counter
  {
    var i := s.writer.slot;
    assert s.slots[i].words[..10] == s.slots[i].words;
    assert Target(s.writer)[..10] == Target(s.writer);
  }

  lemma NotReadIsApart(slots: seq<RawSlot>, threads: Threads, start: nat, end: nat, j: nat)
    requires j < |slots| && ClearIfMet(slots, threads, start, end, j) && InUse(slots, threads, j)
    ensures SpanEnd(slots[j]) <= start || end <= SpanStart(slots[j])
  {
    assert Meets(slots[j], start, end) ==> NoneRelies(threads, j);
  }

  lemma PublishedIsChained(slots: seq<RawSlot>, i: nat, slot: RawSlot)
    requires Chained(slots) && OneLivePerKey(slots) && i < |slots| && !slot.state.Empty?
    requires slot.state.Live? ==> Unnamed(slots, Some(KeyOf(slot))) && OnChain(slots, Some(KeyOf(slot)), i)
    ensures Chained(slots[i := slot]) && OneLivePerKey(slots[i := slot])
  {
    var slots' := slots[i := slot];
    forall j | 0 <= j < |slots| && slots'[j].state.Live? ensures Reachable(slots', KeyOf(slots'[j]), j) {
      assert Reachable(slots, KeyOf(slots'[j]), j);
    }
    forall j | 0 <= j < |slots| && j != i && slot.state.Live? && slots[j].state.Live?
      ensures KeyOf(slots[j]) != KeyOf(slot)
    {
      assert !Named(slots[j], KeyOf(slot));
    }
  }

  lemma PublishedIsApart(slots: seq<RawSlot>, threads: Threads, bytes: nat, i: nat, slot: RawSlot)
    requires SpansApart(slots, threads, bytes) && i < |slots| && SpanEnd(slot) <= bytes
    requires OthersClear(slots, threads, SpanStart(slot), SpanEnd(slot), i)
    ensures SpansApart(slots[i := slot], threads, bytes)
  {
    var slots' := slots[i := slot];
    forall j | 0 <= j < |slots| && j != i && InUse(slots', threads, j)
      ensures InUse(slots, threads, j) && Apart(slots[j], slot)
    {
      assert ClearIfMet(slots, threads, SpanStart(slot), SpanEnd(slot), j);
      NotReadIsApart(slots, threads, SpanStart(slot), SpanEnd(slot), j);
    }
  }

  lemma PublishKeepsIndexed(s: State)
    requires Invariant(s) && Indexed(s) && Planned(s) && s.writer.Storing? && s.writer.next >= WORDS
    ensures Indexed(StepStore(s))
  {
    var w := s.writer;
    var slot := RawSlot(if w.job.key.Some? then Live else Addressed, Target(w));
    PublishesTarget(s);
    assert SpanStart(slot) == w.position && SpanEnd(slot) == w.position + |Content(w.job.record)|;
    assert slot.state.Live? ==> w.job.key == Some(KeyOf(slot));
    PublishedIsChained(s.slots, w.slot, slot);
    PublishedIsApart(s.slots, s.threads, |s.ring|, w.slot, slot);
  }

  // --------------------------------------------------------------- whole executions

  lemma StepKeepsIndexed(s: State, step: Step)
    requires Invariant(s) && Indexed(s) && Planned(s) && Enabled(s, step) && Chosen(s, step)
    ensures Indexed(Apply(s, step)) && Planned(Apply(s, step))
  {
    if step.RunWriter? && s.writer.Storing? {
      if s.writer.next < WORDS {
        WordKeepsPlan(s);
      } else {
        PublishKeepsIndexed(s);
      }
    } else {
      StepRetires(s, step);
      RetiringKeepsIndexed(s, Apply(s, step));
      RetiringKeepsPlan(s, step);
    }
  }
}
