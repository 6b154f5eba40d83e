/** What single steps of `ArenaPins` and `ArenaPlan` do to a slot that a walk comes to, and to
    the call that it makes there. */
module ArenaWalkSteps {

  import opened Wrappers
  import opened ArenaTypes
  import opened ArenaPins
  import opened ArenaPinsRuns
  import opened ArenaPlan

  lemma StepKeepsSlots(s: State, step: Step)
    requires Invariant(s) && Enabled(s, step)
    ensures |Apply(s, step).slots| == |s.slots|
    ensures forall j :: 0 <= j < |s.slots| && !s.slots[j].state.Empty? ==> !Apply(s, step).slots[j].state.Empty?
    ensures forall j :: 0 <= j < |s.slots| && Offered(s.slots[j]) ==> Apply(s, step).slots[j].words == s.slots[j].words
  {
    if !(step.RunWriter? && s.writer.Storing?) {
      StepRetires(s, step);
    }
  }

  // ------------------------------------------------------------------ a call at the key

  /** Ways for the call of thread `t` to end other than by a failed look at its slot: the pin
      counter is full, its process dies, or the entry it held is dropped. */
  ghost predicate Ends(s: State, step: Step, t: nat)
    requires t in s.threads
  {
    var th := s.threads[t];
    || (step == RunReader(t) && th.pc.Pin? && th.row < |s.pins| && th.slot < |s.pins[th.row]|
        && s.pins[th.row][th.slot] >= U32_MAX)
    || step == Die(th.row)
    || (step == DropEntry(t) && th.pc.Holding?)
  }

  /** The slot offers what the call looks for. */
  ghost predicate Served(s: State, t: nat)
    requires t in s.threads
  {
    var th := s.threads[t];
    th.key.Some? && th.slot < |s.slots| && Offers(s.slots[th.slot], th.generation, th.key)
  }

  predicate OnWay(pc: Pc) { !pc.Unpin? && !pc.Done? }

  lemma OfferedReadGoesOn(s: State, t: nat)
    requires Shaped(s) && Enabled(s, RunReader(t)) && OnWay(s.threads[t].pc) && Served(s, t)
    ensures
      var th := s.threads[t];
      || OnWay(Read(s, t).threads[t].pc)
      || (th.pc.Pin? && s.pins[th.row][th.slot] >= U32_MAX)
  {
  }

  lemma ServedGoesOn(s: State, step: Step, t: nat)
    requires Shaped(s) && Enabled(s, step) && t in s.threads && OnWay(s.threads[t].pc) && Served(s, t)
    ensures t in Apply(s, step).threads && SameCall(s.threads[t], Apply(s, step).threads[t])
    ensures OnWay(Apply(s, step).threads[t].pc) || Ends(s, step, t)
  {
    StepKeepsCalls(s, step, t);
    match step
    case RunReader(u) => {
      ReadMoves(s, u);
      if u == t {
        OfferedReadGoesOn(s, t);
      }
    }
    case RunWriter => WriterFrame(s);
    case _ =>
  }

  // ---------------------------------------------------------------- a call at another slot

  /** The call stands at slot `j`, and if it relies on the slot then another record is there. */
  ghost predicate Elsewhere(s: State, t: nat, j: nat, key: Key) {
    && t in s.threads && s.threads[t].slot == j < |s.slots| && s.threads[t].key == Some(key)
    && !s.threads[t].pc.LoadEntry? && !s.threads[t].pc.Holding?
    && (Relies(s.threads[t].pc) ==> KeyOf(s.slots[j]) != key)
  }

  lemma OwnReadStaysElsewhere(s: State, t: nat, j: nat, key: Key)
    requires Invariant(s) && Enabled(s, RunReader(t))
    requires Elsewhere(s, t, j, key) && !Named(s.slots[j], key)
    ensures Elsewhere(Read(s, t), t, j, key)
  {
    ReadMoves(s, t);
    assert ThreadInvariant(s.slots, s.ring, s.published, s.threads[t]);
  }

  lemma StoreStaysElsewhere(s: State, t: nat, j: nat, key: Key)
    requires Invariant(s) && Enabled(s, RunWriter) && s.writer.Storing? && Elsewhere(s, t, j, key)
    ensures Elsewhere(Apply(s, RunWriter), t, j, key)
  {
    WriterFrame(s);
    assert Clear(s.slots, s.threads, s.writer.slot);
  }

  /** Nobody else moves a call, but for the death of its process. */
  lemma OthersLeaveCall(s: State, step: Step, t: nat)
    requires Shaped(s) && Enabled(s, step) && t in s.threads && step != RunReader(t)
    ensures t in Apply(s, step).threads && SameCall(s.threads[t], Apply(s, step).threads[t])
    ensures Apply(s, step).threads[t].pc == s.threads[t].pc || Apply(s, step).threads[t].pc.Done?
  {
    match step
    case RunReader(u) => ReadMoves(s, u);
    case RunWriter => WriterFrame(s);
    case _ =>
  }

  lemma StepStaysElsewhere(s: State, step: Step, t: nat, j: nat, key: Key)
    requires Invariant(s) && Enabled(s, step) && Elsewhere(s, t, j, key) && !Named(s.slots[j], key)
    ensures Elsewhere(Apply(s, step), t, j, key)
  {
    if step == RunReader(t) {
      OwnReadStaysElsewhere(s, t, j, key);
    } else if step.RunWriter? && s.writer.Storing? {
      StoreStaysElsewhere(s, t, j, key);
    } else {
      StepRetires(s, step);
      OthersLeaveCall(s, step, t);
    }
  }

}
