/** Whole executions in which the writer chooses as in `ArenaPlan`: the slots stay the index
    of `ArenaIndex`. */
module ArenaPlanRuns {

  import opened Wrappers
  import opened ArenaTypes
  import opened ArenaPins
  import opened ArenaPinsRuns
  import opened ArenaPlan
  import Index = ArenaIndex

  /** An execution in which the writer chooses as the code does, from a segment of zeros. */
  ghost predicate IsPlannedExecution(ss: seq<State>, steps: seq<Step>) {
    && IsExecution(ss, steps)
    && (forall i :: 0 <= i < |ss[0].slots| ==> Generation(ss[0].slots[i]) == 0)
    && forall i :: 0 <= i < |steps| ==> Chosen(ss[i], steps[i])
  }

  lemma FirstIsIndexed(s: State)
    requires IsInitial(s) && forall i :: 0 <= i < |s.slots| ==> Generation(s.slots[i]) == 0
    ensures Indexed(s) && Planned(s)
  {
    forall j | 0 <= j < |s.slots| ensures !InUse(s.slots, s.threads, j) {
    }
  }

  lemma {:induction false} ExecutionKeepsIndexed(ss: seq<State>, steps: seq<Step>, n: nat)
    requires IsPlannedExecution(ss, steps) && n < |ss|
    ensures Indexed(ss[n]) && Planned(ss[n])
  {
    if n == 0 {
      FirstIsIndexed(ss[0]);
    } else {
      ExecutionKeepsIndexed(ss, steps, n - 1);
      ExecutionKeepsInvariant(ss, steps, n - 1);
      assert Chosen(ss[n - 1], steps[n - 1]);
      StepKeepsIndexed(ss[n - 1], steps[n - 1]);
    }
  }

  /** `shown` is what `ArenaIndex` makes of the shared words. */
  ghost predicate Shows(slots: seq<RawSlot>, shown: seq<Index.Slot>) {
    |shown| == |slots| && forall i :: 0 <= i < |slots| ==> IsShown(slots[i], shown[i])
  }

  predicate IsShown(slot: RawSlot, s: Index.Slot) {
    && s.state == slot.state && s.key == KeyOf(slot) && s.start == slot.words[2]
    && s.bodyLen == slot.words[3] && s.encodedLen == slot.words[5] && s.generation == Generation(slot)
  }

  ghost function ReliedSlots(threads: Threads): set<nat> {
    set t | t in threads && Relies(threads[t].pc) :: threads[t].slot
  }

  /** The index stays well formed.  In every interleaving of lookups, deaths, reclaims, writer
      crashes and writes that choose as the code does, the slots are a well formed index of
      `ArenaIndex`: no EMPTY slot before a live key, one live slot a key, and the spans that
      anybody reads inside the ring and apart. */
  lemma IndexStaysWellFormed(ss: seq<State>, steps: seq<Step>, n: nat, shown: seq<Index.Slot>)
    requires IsPlannedExecution(ss, steps) && n < |ss| && |ss[n].slots| > 0 && Shows(ss[n].slots, shown)
    ensures Index.WellFormed(shown, ReliedSlots(ss[n].threads), |ss[n].ring|, ss[n].counter)
  {
    var s := ss[n];
    ExecutionKeepsIndexed(ss, steps, n);
    forall i | 0 <= i < |shown| && Index.InUse(shown, ReliedSlots(s.threads), i) ensures InUse(s.slots, s.threads, i) {
    }
    forall i | 0 <= i < |shown| && shown[i].state.Live? ensures Index.Reachable(shown, shown[i].key, i) {
      assert Reachable(s.slots, KeyOf(s.slots[i]), i);
    }
    assert Index.Chained(shown) && Index.OneLivePerKey(shown);
    assert Index.SpansApart(shown, ReliedSlots(s.threads), |s.ring|);
  }
}
