/** What the pin protocol of `ArenaPins` guarantees over whole executions: entries are exact
    and never change while held, generations only grow, and a dead address stays dead. */
module ArenaPinsRuns {

  import opened Wrappers
  import opened ArenaTypes
  import opened ArenaPins

  // --------------------------------------------------------------- whole executions

  ghost predicate IsExecution(ss: seq<State>, steps: seq<Step>) {
    && |ss| == |steps| + 1
    && IsInitial(ss[0])
    && forall i :: 0 <= i < |steps| ==>
         Shaped(ss[i]) && Enabled(ss[i], steps[i]) && ss[i + 1] == Apply(ss[i], steps[i])
  }

  lemma {:induction false} ExecutionKeepsInvariant(ss: seq<State>, steps: seq<Step>, n: nat)
    requires IsExecution(ss, steps) && n < |ss|
    ensures Invariant(ss[n])
  {
    if n > 0 {
      ExecutionKeepsInvariant(ss, steps, n - 1);
      StepKeepsInvariant(ss[n - 1], steps[n - 1]);
    }
  }

  ghost predicate IsPublication(s: State, step: Step) {
    step.RunWriter? && s.writer.Storing? && s.writer.next >= WORDS
  }

  lemma WriterFrame(s: State)
    requires Shaped(s) && Enabled(s, RunWriter)
    ensures Apply(s, RunWriter).threads == s.threads
    ensures !s.writer.Storing? ==> Apply(s, RunWriter).published == s.published
  {
  }

  lemma OnlyPublicationPublishes(s: State, step: Step)
    requires Shaped(s) && Enabled(s, step) && !IsPublication(s, step)
    ensures Apply(s, step).published == s.published
  {
    match step
    case RunWriter => WriterFrame(s);
    case RunReader(t) => ReadMoves(s, t);
    case _ =>
  }

  lemma StepKeepsPublished(s: State, step: Step)
    requires Invariant(s) && Enabled(s, step)
    ensures forall g :: g in s.published ==>
      g in Apply(s, step).published && Apply(s, step).published[g] == s.published[g]
  {
    if !IsPublication(s, step) {
      OnlyPublicationPublishes(s, step);
    }
  }

  lemma StepKeepsCalls(s: State, step: Step, t: nat)
    requires Shaped(s) && Enabled(s, step) && t in s.threads
    ensures t in Apply(s, step).threads && SameCall(s.threads[t], Apply(s, step).threads[t])
  {
    match step
    case RunReader(u) => ReadMoves(s, u);
    case RunWriter => WriterFrame(s);
    case _ =>
  }

  ghost predicate SameCall(a: Thread, b: Thread) {
    && a.row == b.row && a.slot == b.slot && a.generation == b.generation && a.key == b.key
    && (a.pc.Done? ==> b.pc.Done?)
    && (a.pc.Holding? ==> b.pc.Done? || b.pc == a.pc)
  }

  /** Nothing published is forgotten or altered. */
  lemma {:induction false} HistoryGrows(ss: seq<State>, steps: seq<Step>, i: nat, j: nat, g: nat)
    requires IsExecution(ss, steps) && i <= j < |ss| && g in ss[i].published
    ensures g in ss[j].published && ss[j].published[g] == ss[i].published[g]
  {
    if i < j {
      HistoryGrows(ss, steps, i, j - 1, g);
      ExecutionKeepsInvariant(ss, steps, j - 1);
      StepKeepsPublished(ss[j - 1], steps[j - 1]);
    }
  }

  /** A call keeps its arguments and, once it has one, its entry, until it ends for good. */
  lemma {:induction false} CallsPersist(ss: seq<State>, steps: seq<Step>, i: nat, j: nat, t: nat)
    requires IsExecution(ss, steps) && i <= j < |ss| && t in ss[i].threads
    ensures t in ss[j].threads && SameCall(ss[i].threads[t], ss[j].threads[t])
  {
    if i < j {
      CallsPersist(ss, steps, i, j - 1, t);
      StepKeepsCalls(ss[j - 1], steps[j - 1], t);
    }
  }

  // ------------------------------------------------------------------ held entries

  ghost predicate Holds(s: State, t: nat) { t in s.threads && s.threads[t].pc.Holding? }

  /** What the holder of an entry reads at this moment through the offsets it loaded. */
  function BytesAt(ring: seq<nat>, offset: nat, len: nat): seq<nat> {
    if offset + len <= |ring| then ring[offset..offset + len] else []
  }

  function EntryRecord(ring: seq<nat>, words: seq<nat>): Record
    requires |words| == 7
  {
    Record(
      BytesAt(ring, words[0], words[1]),
      if words[3] > 0 then Some(Encoded(BytesAt(ring, words[2], words[3]), words[4])) else None,
      words[5],
      words[6])
  }

  lemma SplitContent(ring: seq<nat>, position: nat, r: Record)
    requires position + |Content(r)| <= |ring| && ring[position..position + |Content(r)|] == Content(r)
    ensures BytesAt(ring, position, |r.body|) == r.body
    ensures BytesAt(ring, position + |r.body|, |EncodedBytes(r)|) == EncodedBytes(r)
  {
    var content := ring[position..position + |Content(r)|];
    assert content[..|r.body|] == r.body;
    assert content[|r.body|..] == EncodedBytes(r);
    assert ring[position..position + |r.body|] == content[..|r.body|];
    assert ring[position + |r.body|..position + |Content(r)|] == content[|r.body|..];
  }

  lemma HeldIsExact(s: State, t: nat)
    requires Invariant(s) && Holds(s, t)
    ensures
      var th := s.threads[t];
      && th.generation in s.published && |th.pc.words| == 7
      && var p := s.published[th.generation];
      && p.slot == th.slot && p.key == th.key
      && EntryRecord(s.ring, th.pc.words) == Normal(p.record)
  {
    var th := s.threads[t];
    assert ThreadInvariant(s.slots, s.ring, s.published, th);
    var p := s.published[th.generation];
    var words := s.slots[th.slot].words;
    SplitContent(s.ring, p.position, p.record);
    assert th.pc.words == [words[2], words[3], words[4], words[5], words[6], words[7], words[8]];
  }

  /** Torn-free reads.  At every moment an entry is held, what it reads is exactly the
      record published under the generation, slot and key the lookup asked for. */
  lemma EntryIsExact(ss: seq<State>, steps: seq<Step>, n: nat, t: nat)
    requires IsExecution(ss, steps) && n < |ss| && Holds(ss[n], t)
    ensures
      var s := ss[n];
      var th := s.threads[t];
      && th.generation in s.published && |th.pc.words| == 7
      && var p := s.published[th.generation];
      && p.slot == th.slot && p.key == th.key
      && EntryRecord(s.ring, th.pc.words) == Normal(p.record)
  {
    ExecutionKeepsInvariant(ss, steps, n);
    HeldIsExact(ss[n], t);
  }

  /** The writer has picked the slot, or is writing a record's bytes or words for it. */
  predicate Reinstalls(w: Writer, i: nat) {
    (w.Numbering? || w.Copying? || w.Storing?) && w.slot == i
  }

  /** From the moment an entry is obtained until it is dropped, whatever writers do and
      wherever they die, what it reads never changes, its slot keeps its words, and no
      writer prepares the slot for another record. */
  lemma HeldEntryNeverChanges(ss: seq<State>, steps: seq<Step>, i: nat, j: nat, t: nat)
    requires IsExecution(ss, steps) && i <= j < |ss| && Holds(ss[i], t) && Holds(ss[j], t)
    ensures
      var th := ss[i].threads[t];
      && ss[j].threads[t] == th && |th.pc.words| == 7
      && th.slot < |ss[i].slots| && th.slot < |ss[j].slots|
      && EntryRecord(ss[j].ring, th.pc.words) == EntryRecord(ss[i].ring, th.pc.words)
      && ss[j].slots[th.slot].words == ss[i].slots[th.slot].words
      && !Reinstalls(ss[j].writer, th.slot)
  {
    CallsPersist(ss, steps, i, j, t);
    ExecutionKeepsInvariant(ss, steps, i);
    ExecutionKeepsInvariant(ss, steps, j);
    HeldIsExact(ss[i], t);
    HeldIsExact(ss[j], t);
    HistoryGrows(ss, steps, i, j, ss[i].threads[t].generation);
    HeldSlotIsPublished(ss[i], t);
    HeldSlotIsPublished(ss[j], t);
  }

  lemma HeldSlotIsPublished(s: State, t: nat)
    requires Invariant(s) && Holds(s, t)
    ensures
      var th := s.threads[t];
      && th.generation in s.published && th.slot < |s.slots| && !Reinstalls(s.writer, th.slot)
      && var p := s.published[th.generation];
      s.slots[th.slot].words == WordsOf(p.key, p.record, p.position, th.generation)
  {
    assert ThreadInvariant(s.slots, s.ring, s.published, s.threads[t]);
  }

  // --------------------------------------------------------------------- addresses

  lemma PublicationIsNewest(s: State, step: Step, g: nat)
    requires Invariant(s) && Enabled(s, step)
    requires g !in s.published && g in Apply(s, step).published
    ensures g == s.counter
  {
    if !IsPublication(s, step) {
      OnlyPublicationPublishes(s, step);
    }
  }

  /** Every publication takes a generation above all those published before it. */
  lemma GenerationsIncrease(ss: seq<State>, steps: seq<Step>, n: nat, g: nat, earlier: nat)
    requires IsExecution(ss, steps) && n + 1 < |ss|
    requires g !in ss[n].published && g in ss[n + 1].published && earlier in ss[n].published
    ensures earlier < g
  {
    ExecutionKeepsInvariant(ss, steps, n);
    PublicationIsNewest(ss[n], steps[n], g);
  }

  ghost predicate Current(s: State, slot: nat, g: nat) {
    slot < |s.slots| && s.slots[slot].state.Addressed? && Generation(s.slots[slot]) == g
  }

  /** The generation was published, and the slot no longer offers it. */
  ghost predicate Gone(s: State, slot: nat, g: nat) { g in s.published && !Current(s, slot, g) }

  lemma GoneWrite(s: State, slot: nat, g: nat)
    requires Invariant(s) && Enabled(s, RunWriter) && Gone(s, slot, g)
    ensures Gone(Apply(s, RunWriter), slot, g)
  {
    StepKeepsPublished(s, RunWriter);
    match s.writer
    case Scanning(_, _, i, _, _) =>
      assert i < |s.slots| ==>
        StepScan(s).slots == s.slots || StepScan(s).slots == RetireSlot(s, i).slots;
    case _ =>
  }

  lemma GoneStep(s: State, step: Step, slot: nat, g: nat)
    requires Invariant(s) && Enabled(s, step) && Gone(s, slot, g)
    ensures Gone(Apply(s, step), slot, g)
  {
    match step
    case RunWriter => GoneWrite(s, slot, g);
    case RunReader(t) => ReadMoves(s, t);
    case _ =>
  }

  lemma {:induction false} GoneForever(ss: seq<State>, steps: seq<Step>, i: nat, j: nat, slot: nat, g: nat)
    requires IsExecution(ss, steps) && i <= j < |ss| && Gone(ss[i], slot, g)
    ensures Gone(ss[j], slot, g)
  {
    if i < j {
      GoneForever(ss, steps, i, j - 1, slot, g);
      ExecutionKeepsInvariant(ss, steps, j - 1);
      GoneStep(ss[j - 1], steps[j - 1], slot, g);
    }
  }

  ghost predicate CannotHit(s: State, t: nat) {
    t in s.threads && var th := s.threads[t];
    th.pc.Pin? || th.pc.LoadState? || th.pc.Unpin? || th.pc.Done? ||
    (th.pc.LoadGeneration? && th.slot < |s.slots| && Generation(s.slots[th.slot]) != th.generation)
  }

  lemma CannotHitRead(s: State, t: nat)
    requires Invariant(s) && CannotHit(s, t) && Enabled(s, RunReader(t))
    requires s.threads[t].key.None? && Gone(s, s.threads[t].slot, s.threads[t].generation)
    ensures CannotHit(Read(s, t), t)
  {
  }

  lemma CannotHitWrite(s: State, t: nat)
    requires Invariant(s) && CannotHit(s, t) && Enabled(s, RunWriter)
    ensures CannotHit(Apply(s, RunWriter), t)
  {
    var th := s.threads[t];
    assert ThreadInvariant(s.slots, s.ring, s.published, th);
    assert Apply(s, RunWriter).threads == s.threads;
    if th.pc.LoadGeneration? {
      assert s.writer.Storing? ==> s.writer.slot != th.slot;
      assert Apply(s, RunWriter).slots[th.slot].words == s.slots[th.slot].words;
    }
  }

  lemma CannotHitStep(s: State, step: Step, t: nat)
    requires Invariant(s) && Enabled(s, step) && CannotHit(s, t)
    requires s.threads[t].key.None? && Gone(s, s.threads[t].slot, s.threads[t].generation)
    ensures CannotHit(Apply(s, step), t)
  {
    match step
    case RunReader(u) =>
      if u == t {
        CannotHitRead(s, t);
      } else {
        ReadMoves(s, u);
      }
    case RunWriter => CannotHitWrite(s, t);
    case _ =>
  }

  /** The lookup of that address is under way or over, and cannot hit. */
  ghost predicate Misses(s: State, t: nat, slot: nat, g: nat) {
    && CannotHit(s, t)
    && s.threads[t].key.None? && s.threads[t].slot == slot && s.threads[t].generation == g
  }

  lemma MissesNext(ss: seq<State>, steps: seq<Step>, n: nat, t: nat, slot: nat, g: nat)
    requires IsExecution(ss, steps) && n < |steps| && Misses(ss[n], t, slot, g) && Gone(ss[n], slot, g)
    ensures Misses(ss[n + 1], t, slot, g)
  {
    ExecutionKeepsInvariant(ss, steps, n);
    StepKeepsCalls(ss[n], steps[n], t);
    CannotHitStep(ss[n], steps[n], t);
  }

  /** An address that misses once its record is retired misses for ever: no lookup begun
      afterwards ever yields an entry, across reuse of the slot, resets and crashes. */
  lemma GoneAddressAlwaysMisses(ss: seq<State>, steps: seq<Step>, began: nat, n: nat, t: nat)
    requires IsExecution(ss, steps) && began < n < |ss|
    requires steps[began].StartLookup? && steps[began].t == t && steps[began].key.None?
    requires Gone(ss[began], steps[began].slot, steps[began].generation)
    ensures CannotHit(ss[n], t) && !Holds(ss[n], t)
    ensures ss[n].threads[t].key.None?
    ensures ss[n].threads[t].slot == steps[began].slot && ss[n].threads[t].generation == steps[began].generation
  {
    for x := began + 1 to n
      invariant Misses(ss[x], t, steps[began].slot, steps[began].generation)
    {
      GoneForever(ss, steps, began, x, steps[began].slot, steps[began].generation);
      MissesNext(ss, steps, x, t, steps[began].slot, steps[began].generation);
    }
  }

  // ------------------------------------------------------------- undisturbed lookup

  ghost function Alone(s: State, t: nat, steps: nat): State
    requires Shaped(s) && t in s.threads
    decreases steps
  {
    if steps == 0 || s.threads[t].pc.Done? || s.threads[t].pc.Holding? then s
    else
      ReadMoves(s, t);
      Alone(Read(s, t), t, steps - 1)
  }

  predicate Offers(slot: RawSlot, generation: nat, key: Option<Key>) {
    && Generation(slot) == generation
    && match key {
         case Some(k) => slot.state.Live? && slot.words[0] == k.lo && slot.words[1] == k.hi
         case None => slot.state.Addressed?
       }
  }

  /** The thread holds its pin and stands at `pc`; nothing else differs from `s`. */
  ghost function At(s: State, t: nat, pc: Pc): State
    requires Shaped(s) && t in s.threads && s.threads[t].pc.Pin?
  {
    var th := s.threads[t];
    WithPin(s, th.row, th.slot, s.pins[th.row][th.slot] + 1).(threads := Goto(s.threads, t, pc))
  }

  lemma AtMoves(s: State, t: nat, pc: Pc)
    requires Shaped(s) && t in s.threads && s.threads[t].pc.Pin?
    requires !pc.Pin? && !pc.Done? && !pc.Holding?
    ensures Shaped(At(s, t, pc))
    ensures !pc.Unpin? ==>
      var pc' := Read(At(s, t, pc), t).threads[t].pc;
      Read(At(s, t, pc), t) == At(s, t, pc')
    ensures pc.Unpin? ==> Read(At(s, t, pc), t) == s.(threads := Goto(s.threads, t, Done))
  {
    var th := s.threads[t];
    var x := At(s, t, pc);
    assert forall p :: Goto(x.threads, t, p) == Goto(s.threads, t, p);
    assert x.pins[th.row][th.slot := s.pins[th.row][th.slot]] == s.pins[th.row];
    assert x.pins[th.row := s.pins[th.row]] == s.pins;
  }

  lemma UnpinAlone(s: State, t: nat, n: nat)
    requires Shaped(s) && t in s.threads && s.threads[t].pc.Pin? && n > 0
    ensures Shaped(At(s, t, Unpin))
    ensures Alone(At(s, t, Unpin), t, n) == s.(threads := Goto(s.threads, t, Done))
  {
    AtMoves(s, t, Unpin);
  }

  lemma {:induction false} LoadsAlone(s: State, t: nat, words: seq<nat>, n: nat)
    requires Shaped(s) && t in s.threads && s.threads[t].pc.Pin? && |words| <= 7 && n >= 8 - |words|
    ensures Shaped(At(s, t, LoadEntry(words)))
    ensures Holds(Alone(At(s, t, LoadEntry(words)), t, n), t)
    decreases 7 - |words|
  {
    AtMoves(s, t, LoadEntry(words));
    if |words| < 7 {
      LoadsAlone(s, t, words + [s.slots[s.threads[t].slot].words[2 + |words|]], n - 1);
    }
  }

  lemma KeyHighAlone(s: State, t: nat, n: nat)
    requires Shaped(s) && t in s.threads && s.threads[t].pc.Pin? && s.threads[t].key.Some? && n >= 9
    ensures Shaped(At(s, t, LoadKeyHigh))
    ensures
      var th := s.threads[t];
      var s' := Alone(At(s, t, LoadKeyHigh), t, n);
      if s.slots[th.slot].words[1] == th.key.value.hi then Holds(s', t)
      else s' == s.(threads := Goto(s.threads, t, Done))
  {
    AtMoves(s, t, LoadKeyHigh);
    if s.slots[s.threads[t].slot].words[1] == s.threads[t].key.value.hi {
      LoadsAlone(s, t, [], n - 1);
    } else {
      UnpinAlone(s, t, n - 1);
    }
  }

  lemma KeyAlone(s: State, t: nat, n: nat)
    requires Shaped(s) && t in s.threads && s.threads[t].pc.Pin? && s.threads[t].key.Some? && n >= 10
    ensures Shaped(At(s, t, LoadKeyLow))
    ensures
      var th := s.threads[t];
      var s' := Alone(At(s, t, LoadKeyLow), t, n);
      if s.slots[th.slot].words[0] == th.key.value.lo && s.slots[th.slot].words[1] == th.key.value.hi
      then Holds(s', t)
      else s' == s.(threads := Goto(s.threads, t, Done))
  {
    AtMoves(s, t, LoadKeyLow);
    if s.slots[s.threads[t].slot].words[0] == s.threads[t].key.value.lo {
      KeyHighAlone(s, t, n - 1);
    } else {
      UnpinAlone(s, t, n - 1);
    }
  }

  lemma GenerationAlone(s: State, t: nat)
    requires Shaped(s) && t in s.threads && s.threads[t].pc.Pin?
    requires s.slots[s.threads[t].slot].state == if s.threads[t].key.Some? then Live else Addressed
    ensures Shaped(At(s, t, LoadGeneration))
    ensures
      var th := s.threads[t];
      var s' := Alone(At(s, t, LoadGeneration), t, 11);
      if Offers(s.slots[th.slot], th.generation, th.key) then Holds(s', t)
      else s' == s.(threads := Goto(s.threads, t, Done))
  {
    var th := s.threads[t];
    AtMoves(s, t, LoadGeneration);
    if Generation(s.slots[th.slot]) != th.generation {
      UnpinAlone(s, t, 10);
    } else if th.key.Some? {
      KeyAlone(s, t, 10);
    } else {
      LoadsAlone(s, t, [], 10);
    }
  }

  lemma StateAlone(s: State, t: nat)
    requires Shaped(s) && t in s.threads && s.threads[t].pc.Pin?
    ensures Shaped(At(s, t, LoadState))
    ensures
      var th := s.threads[t];
      var s' := Alone(At(s, t, LoadState), t, 12);
      if Offers(s.slots[th.slot], th.generation, th.key) then Holds(s', t)
      else s' == s.(threads := Goto(s.threads, t, Done))
  {
    AtMoves(s, t, LoadState);
    if s.slots[s.threads[t].slot].state == if s.threads[t].key.Some? then Live else Addressed {
      GenerationAlone(s, t);
    } else {
      UnpinAlone(s, t, 11);
    }
  }

  /** A lookup left alone finds the record exactly when the slot offers it and the pin
      counter has room; when it does not, the arena is as it was, the pin given back. */
  lemma LookupHitsIff(s: State, t: nat)
    requires Shaped(s) && t in s.threads && s.threads[t].pc.Pin?
    ensures
      var th := s.threads[t];
      var s' := Alone(s, t, 13);
      if Offers(s.slots[th.slot], th.generation, th.key) && s.pins[th.row][th.slot] < U32_MAX
      then Holds(s', t)
      else s' == s.(threads := Goto(s.threads, t, Done))
  {
    var th := s.threads[t];
    ReadMoves(s, t);
    assert Alone(s, t, 13) == Alone(Read(s, t), t, 12);
    if s.pins[th.row][th.slot] < U32_MAX {
      StateAlone(s, t);
    }
  }
}
