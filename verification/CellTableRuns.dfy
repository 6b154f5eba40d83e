/** What the generation fence of `CellTable` guarantees over whole executions: a stalled
    operation touches its own generation only, ids are issued once and stay stale for ever,
    and leases are counted one for one. */
module CellTableRuns {

  import opened CellTable

  ghost predicate IsExecution(ss: seq<State>, steps: seq<Step>) {
    && |ss| == |steps| + 1 && IsInitial(ss[0])
    && forall i :: 0 <= i < |steps| ==>
         Shaped(ss[i]) && Enabled(ss[i], steps[i]) && ss[i + 1] == Apply(ss[i], steps[i])
  }

  lemma {:induction false} ExecutionKeepsInvariant(ss: seq<State>, steps: seq<Step>, n: nat)
    requires IsExecution(ss, steps) && n < |ss|
    ensures Invariant(ss[n])
  {
    if n > 0 {
      ExecutionKeepsInvariant(ss, steps, n - 1);
      StepKeepsInvariant(ss[n - 1], steps[n - 1]);
    } else {
      InitialInvariant(ss[0]);
    }
  }

  lemma InitialInvariant(s: State)
    requires IsInitial(s)
    ensures Invariant(s)
  {
  }

  /** The structural lock holder is rewriting the slot for a new generation. */
  predicate BeingInstalled(s: State, i: nat) { s.holder.Held? && s.holder.work.Installing? && s.holder.work.slot == i }

  ghost predicate Running(s: State, t: nat) { t in s.ops && !s.ops[t].pc.Finished? }

  /** The fence.  However long an operation stalls after checking its handle, and whatever
      is released, reset, reclaimed or reclaimed and reused meanwhile, the slot it then
      touches is still in its own generation, and nobody is installing another. */
  lemma OperationTouchesItsOwnGeneration(ss: seq<State>, steps: seq<Step>, n: nat, t: nat)
    requires IsExecution(ss, steps) && n < |ss| && Running(ss[n], t)
    ensures
      var id := ss[n].ops[t].id;
      && id.slot < |ss[n].cells| && ss[n].cells[id.slot].generation == id.generation
      && !BeingInstalled(ss[n], id.slot)
  {
    ExecutionKeepsInvariant(ss, steps, n);
  }

  /** An install begins only once every lease of every owner on the slot is gone. */
  lemma InstallNeedsNoLease(ss: seq<State>, steps: seq<Step>, n: nat, i: nat)
    requires IsExecution(ss, steps) && n < |ss| && BeingInstalled(ss[n], i)
    ensures forall h :: h in ss[n].handles ==> ss[n].handles[h].id.slot != i
    ensures forall t :: Running(ss[n], t) ==> ss[n].ops[t].id.slot != i
  {
    ExecutionKeepsInvariant(ss, steps, n);
  }

  /** No id is ever issued twice. */
  lemma IdsAreIssuedOnce(ss: seq<State>, steps: seq<Step>, n: nat, k: nat, l: nat)
    requires IsExecution(ss, steps) && n < |ss| && k < l < |ss[n].issued|
    ensures ss[n].issued[k] != ss[n].issued[l]
  {
    ExecutionKeepsInvariant(ss, steps, n);
  }

  ghost predicate Stale(s: State, id: Id) { id in s.issued && !Is(s, id) }

  /** What one step can do to a slot's fence. */
  ghost predicate Forward(s: State, s': State, i: nat)
    requires i < |s.cells|
  {
    && |s'.cells| == |s.cells|
    && s.issued <= s'.issued
    && s.cells[i].generation <= s'.cells[i].generation
    && (s'.cells[i].state.Occupied? && !s.cells[i].state.Occupied? ==> Id(i, s'.cells[i].generation) !in s.issued)
    && (s'.cells[i].state.Occupied? && s.cells[i].state.Occupied? ==> s'.cells[i].generation == s.cells[i].generation)
    && (BeingInstalled(s', i) && !BeingInstalled(s, i) ==> s.cells[i].generation < U32_MAX)
    && (s'.cells[i].state.Occupied? && !s.cells[i].state.Occupied? ==> BeingInstalled(s, i))
    && (s'.cells[i].generation != s.cells[i].generation ==> BeingInstalled(s, i))
  }

  lemma QuietStep(s: State, step: Step)
    requires Shaped(s) && Enabled(s, step) && !step.RunHolder? && !step.Release? && !step.Reset?
    ensures SameFences(s.cells, Apply(s, step).cells) && Apply(s, step).issued == s.issued
    ensures forall i :: BeingInstalled(Apply(s, step), i) ==> BeingInstalled(s, i)
  {
  }

  lemma HolderMovesForward(s: State, h: nat, i: nat)
    requires Invariant(s) && Enabled(s, RunHolder(h)) && i < |s.cells|
    ensures Forward(s, HolderStep(s, h), i)
  {
  }

  lemma CellsMoveForward(s: State, step: Step, i: nat)
    requires Invariant(s) && Enabled(s, step) && i < |s.cells|
    ensures Forward(s, Apply(s, step), i)
  {
    match step
    case RunHolder(h) => HolderMovesForward(s, h, i);
    case Release(_) =>
    case Reset(_) =>
    case _ => QuietStep(s, step);
  }

  lemma StaleStaysStale(s: State, step: Step, id: Id)
    requires Invariant(s) && Enabled(s, step) && Stale(s, id)
    ensures Stale(Apply(s, step), id)
  {
    CellsMoveForward(s, step, id.slot);
  }

  /** A released, reset or reclaimed id never names a live cell again. */
  lemma {:induction false} StaleForEver(ss: seq<State>, steps: seq<Step>, i: nat, j: nat, id: Id)
    requires IsExecution(ss, steps) && i <= j < |ss| && Stale(ss[i], id)
    ensures Stale(ss[j], id)
  {
    if i < j {
      StaleForEver(ss, steps, i, j - 1, id);
      ExecutionKeepsInvariant(ss, steps, j - 1);
      StaleStaysStale(ss[j - 1], steps[j - 1], id);
    }
  }

  /** A slot whose generations have run out is never allocated again. */
  lemma {:induction false} ExhaustedIsNeverReused(ss: seq<State>, steps: seq<Step>, m: nat, n: nat, i: nat)
    requires IsExecution(ss, steps) && m <= n < |ss| && i < |ss[m].cells|
    requires ss[m].cells[i].generation == U32_MAX && !ss[m].cells[i].state.Occupied? && !BeingInstalled(ss[m], i)
    ensures i < |ss[n].cells| && ss[n].cells[i].generation == U32_MAX
    ensures !ss[n].cells[i].state.Occupied? && !BeingInstalled(ss[n], i)
  {
    if m < n {
      ExhaustedIsNeverReused(ss, steps, m, n - 1, i);
      ExecutionKeepsInvariant(ss, steps, n - 1);
      CellsMoveForward(ss[n - 1], steps[n - 1], i);
    }
  }

  /** Every lease of a living owner is counted, one for one, so no drop ever underflows and
      the slot is free the moment the last one goes. */
  lemma LeasesAreCounted(ss: seq<State>, steps: seq<Step>, n: nat, row: nat, i: nat)
    requires IsExecution(ss, steps) && n < |ss|
    requires row < |ss[n].alive| && ss[n].alive[row] && i < |ss[n].cells|
    ensures Shaped(ss[n])
    ensures ss[n].pins[row][i]
      == |Leases(ss[n].handles, row, i)| + if HolderLease(ss[n].holder) == Taken(row, i) then 1 else 0
    ensures forall h :: h in ss[n].handles && ss[n].handles[h].row == row && ss[n].handles[h].id.slot == i ==>
      ss[n].pins[row][i] > 0
  {
    ExecutionKeepsInvariant(ss, steps, n);
    assert RowExact(ss[n].handles, HolderLease(ss[n].holder), ss[n].pins, row);
    forall h | h in ss[n].handles && ss[n].handles[h].row == row && ss[n].handles[h].id.slot == i
      ensures ss[n].pins[row][i] > 0
    {
      assert h in Leases(ss[n].handles, row, i);
    }
  }
}
