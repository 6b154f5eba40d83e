/** The walk of a lock-free `get` over the probe chain (`arena/src/lib.rs`): every load of the
    walk is one instant of an execution of `ArenaPlanRuns`, while the writer goes on.  A key that
    is live throughout is found, unless an earlier slot shows the walk one key word of the
    record that leaves it and one of the record that comes. */
module ArenaWalk {

  import opened Wrappers
  import opened ArenaTypes
  import opened ArenaPins
  import opened ArenaPinsRuns
  import opened ArenaPlan
  import opened ArenaPlanRuns
  import opened ArenaWalkSteps
  import Index = ArenaIndex

  /** The instants at which one probe loads the state and the two key words.  A word that the
      code does not come to load may be given any instant. */
  datatype Probe = Probe(state: nat, low: nat, high: nat)

  /** The probes go on in time, between two instants of the execution. */
  ghost predicate Ordered(rs: seq<Probe>, first: nat, last: nat) {
    && (forall p :: 0 <= p < |rs| ==> first <= rs[p].state <= rs[p].low <= rs[p].high <= last)
    && forall p, q :: 0 <= p < q < |rs| ==> rs[p].high <= rs[q].state
  }

  /** Slots keep their number. */
  ghost predicate Sized(ss: seq<State>, n: nat) {
    forall x :: 0 <= x < |ss| ==> |ss[x].slots| == n
  }

  ghost predicate EmptyAt(ss: seq<State>, i: nat, r: Probe)
    requires r.state < |ss| && i < |ss[r.state].slots|
  {
    ss[r.state].slots[i].state.Empty?
  }

  /** The three loads agree with the key. */
  ghost predicate Matches(ss: seq<State>, key: Key, i: nat, r: Probe)
    requires |ss| > 0 && Sized(ss, |ss[0].slots|) && i < |ss[0].slots|
    requires r.state < |ss| && r.low < |ss| && r.high < |ss|
  {
    && ss[r.state].slots[i].state.Live?
    && ss[r.low].slots[i].words[0] == key.lo
    && ss[r.high].slots[i].words[1] == key.hi
  }

  ghost predicate IsWalk(ss: seq<State>, key: Key, rs: seq<Probe>, first: nat, last: nat) {
    && |ss| > 0 && Sized(ss, |ss[0].slots|)
    && 0 < |rs| <= |ss[0].slots| && Ordered(rs, first, last) && last < |ss|
    && forall p :: 0 <= p < |rs| - 1 ==> GoesOn(ss, key, rs, p)
  }

  ghost predicate GoesOn(ss: seq<State>, key: Key, rs: seq<Probe>, p: nat)
    requires |ss| > 0 && Sized(ss, |ss[0].slots|) && p < |rs| <= |ss[0].slots|
    requires rs[p].state < |ss| && rs[p].low < |ss| && rs[p].high < |ss|
  {
    var i := Index.ProbeAt(key, |ss[0].slots|, p);
    !EmptyAt(ss, i, rs[p]) && !Matches(ss, key, i, rs[p])
  }

  /** The walk ends at an EMPTY slot or at the end of the chain. */
  ghost predicate EndsWithout(ss: seq<State>, key: Key, rs: seq<Probe>, first: nat, last: nat)
    requires IsWalk(ss, key, rs, first, last)
  {
    var p := |rs| - 1;
    || EmptyAt(ss, Index.ProbeAt(key, |ss[0].slots|, p), rs[p])
    || (|rs| == |ss[0].slots| && GoesOn(ss, key, rs, p))
  }

  /** The walk ends at slot `i`, whose three loads agree with the key. */
  ghost predicate EndsAt(ss: seq<State>, key: Key, rs: seq<Probe>, first: nat, last: nat, i: nat)
    requires IsWalk(ss, key, rs, first, last)
  {
    var p := |rs| - 1;
    i == Index.ProbeAt(key, |ss[0].slots|, p) && Matches(ss, key, i, rs[p])
  }

  ghost predicate LiveThroughout(ss: seq<State>, key: Key, i: nat, first: nat, last: nat) {
    && last < |ss|
    && forall x :: first <= x <= last ==> i < |ss[x].slots| && Named(ss[x].slots[i], key)
  }

  // -------------------------------------------------------------- slots along the run

  /** A slot that was written to stays so. */
  ghost predicate SlotsKept(slots: seq<RawSlot>, slots': seq<RawSlot>) {
    && |slots'| == |slots|
    && forall j :: 0 <= j < |slots| && !slots[j].state.Empty? ==> !slots'[j].state.Empty?
  }

  lemma RunKeepsSlots(ss: seq<State>, steps: seq<Step>, n: nat)
    requires IsExecution(ss, steps) && n < |steps|
    ensures SlotsKept(ss[n].slots, ss[n + 1].slots)
  {
    ExecutionKeepsInvariant(ss, steps, n);
    StepKeepsSlots(ss[n], steps[n]);
  }

  lemma SlotsStay(ss: seq<State>, steps: seq<Step>, a: nat, b: nat)
    requires IsExecution(ss, steps) && a <= b < |ss|
    ensures SlotsKept(ss[a].slots, ss[b].slots)
  {
    for n := a to b
      invariant SlotsKept(ss[a].slots, ss[n].slots)
    {
      RunKeepsSlots(ss, steps, n);
    }
  }

  lemma {:induction false} LiveKeepsWords(ss: seq<State>, steps: seq<Step>, key: Key, i: nat,
      first: nat, last: nat, x: nat)
    requires IsExecution(ss, steps) && LiveThroughout(ss, key, i, first, last) && first <= x <= last
    ensures ss[x].slots[i].words == ss[first].slots[i].words
    decreases x
  {
    if first < x {
      LiveKeepsWords(ss, steps, key, i, first, last, x - 1);
      ExecutionKeepsInvariant(ss, steps, x - 1);
      assert Named(ss[x - 1].slots[i], key);
      StepKeepsSlots(ss[x - 1], steps[x - 1]);
    }
  }

  // ------------------------------------------------------------------------ the walk

  /** A key live throughout a walk is never walked past: no EMPTY slot comes before it, and
      the slot that holds it matches. */
  lemma WalkReachesKey(
      ss: seq<State>, steps: seq<Step>, key: Key, i: nat, rs: seq<Probe>, first: nat, last: nat)
    requires IsPlannedExecution(ss, steps) && IsWalk(ss, key, rs, first, last) && first <= last
    requires LiveThroughout(ss, key, i, first, last)
    ensures !EndsWithout(ss, key, rs, first, last)
  {
    var n := |ss[0].slots|;
    assert Named(ss[first].slots[i], key) && |ss[first].slots| == n;
    var d := Index.Distance(key, n, i);
    var p := |rs| - 1;
    ExecutionKeepsIndexed(ss, steps, first);
    assert Reachable(ss[first].slots, key, i);
    if d <= p {
      assert Named(ss[rs[d].state].slots[i], key) && Named(ss[rs[d].low].slots[i], key);
      assert Named(ss[rs[d].high].slots[i], key);
      assert Matches(ss, key, i, rs[d]) && !GoesOn(ss, key, rs, d);
    } else {
      assert !ss[first].slots[Index.ProbeAt(key, n, p)].state.Empty?;
      SlotsStay(ss, steps, first, rs[p].state);
    }
  }

  /** The three loads of one probe saw two records: at no instant between them was the slot
      live under the key, and a key word changed on the way. */
  ghost predicate Torn(ss: seq<State>, key: Key, j: nat, r: Probe)
    requires |ss| > 0 && Sized(ss, |ss[0].slots|) && j < |ss[0].slots|
    requires r.state < |ss| && r.low < |ss| && r.high < |ss|
  {
    && (forall x :: r.state <= x <= r.high ==> !Named(ss[x].slots[j], key))
    && KeyOf(ss[r.state].slots[j]) != Key(ss[r.low].slots[j].words[0], ss[r.high].slots[j].words[1])
  }

  /** A key live throughout is found.  The walk ends at the slot that holds it, or at an
      earlier one whose loads were torn. */
  lemma WalkFindsKeyUnlessTorn(
      ss: seq<State>, steps: seq<Step>, key: Key, i: nat, rs: seq<Probe>, first: nat, last: nat, j: nat)
    requires IsPlannedExecution(ss, steps) && IsWalk(ss, key, rs, first, last)
    requires LiveThroughout(ss, key, i, first, last) && EndsAt(ss, key, rs, first, last, j)
    ensures j == i || Torn(ss, key, j, rs[|rs| - 1])
  {
    var r := rs[|rs| - 1];
    if j != i {
      forall x | r.state <= x <= r.high ensures !Named(ss[x].slots[j], key) {
        ExecutionKeepsIndexed(ss, steps, x);
        assert Named(ss[x].slots[i], key);
      }
    }
  }

  // ------------------------------------------------------------ the call at the key

  /** The call that the walk makes at the slot of a key live throughout, with the generation it
      loaded at instant `d`, never fails at a look: it goes on to its entry, unless its pin
      counter is full or its process dies. */
  lemma {:induction false} CallFindsKey(
      ss: seq<State>, steps: seq<Step>, key: Key, i: nat, first: nat, last: nat,
      d: nat, b: nat, x: nat)
    requires IsExecution(ss, steps) && LiveThroughout(ss, key, i, first, last) && first <= d <= b < x <= last
    requires steps[b].StartLookup? && steps[b].slot == i && steps[b].key == Some(key)
    requires steps[b].generation == Generation(ss[d].slots[i])
    ensures
      var t := steps[b].t;
      && t in ss[x].threads
      && ss[x].threads[t].slot == i && ss[x].threads[t].generation == steps[b].generation
      && ss[x].threads[t].key == Some(key)
      && (OnWay(ss[x].threads[t].pc) || exists y :: b < y < x && t in ss[y].threads && Ends(ss[y], steps[y], t))
    decreases x
  {
    var t := steps[b].t;
    if x == b + 1 {
      assert Named(ss[b].slots[i], key);
    } else {
      CallFindsKey(ss, steps, key, i, first, last, d, b, x - 1);
      assert Named(ss[x - 1].slots[i], key);
      LiveKeepsWords(ss, steps, key, i, first, last, x - 1);
      LiveKeepsWords(ss, steps, key, i, first, last, d);
      if OnWay(ss[x - 1].threads[t].pc) {
        ServedGoesOn(ss[x - 1], steps[x - 1], t);
      } else {
        StepKeepsCalls(ss[x - 1], steps[x - 1], t);
      }
    }
  }

  // ---------------------------------------------------------- a call at another slot

  /** While a key is live in one slot, a call at another never comes to an entry of it. */
  lemma {:induction false} CallElsewhereMisses(
      ss: seq<State>, steps: seq<Step>, key: Key, i: nat, first: nat, last: nat, j: nat, b: nat, x: nat)
    requires IsPlannedExecution(ss, steps) && LiveThroughout(ss, key, i, first, last) && first <= b < x <= last
    requires steps[b].StartLookup? && steps[b].slot == j < |ss[b].slots| && steps[b].key == Some(key) && j != i
    ensures Elsewhere(ss[x], steps[b].t, j, key)
    decreases x
  {
    RunKeepsSlots(ss, steps, x - 1);
    if x > b + 1 {
      CallElsewhereMisses(ss, steps, key, i, first, last, j, b, x - 1);
      ExecutionKeepsInvariant(ss, steps, x - 1);
      ExecutionKeepsIndexed(ss, steps, x - 1);
      assert Named(ss[x - 1].slots[i], key);
      StepStaysElsewhere(ss[x - 1], steps[x - 1], steps[b].t, j, key);
    }
  }

  // --------------------------------------------------------------- the whole `get`

  ghost predicate Undisturbed(ss: seq<State>, steps: seq<Step>, b: nat, x: nat, t: nat)
    requires x < |ss| == |steps| + 1
  {
    forall y :: b < y < x && t in ss[y].threads ==> !Ends(ss[y], steps[y], t)
  }

  /** A `get` of a key live throughout, whose walk has ended at slot `j` and whose call there is
      over, has its entry if and only if the walk was not cut short: the loads of the
      earlier slot were torn.  A full pin counter or a death is the only other way to miss. */
  lemma GetFindsKeyIff(
      ss: seq<State>, steps: seq<Step>, key: Key, i: nat, rs: seq<Probe>, first: nat, last: nat,
      j: nat, d: nat, b: nat, x: nat)
    requires IsPlannedExecution(ss, steps) && IsWalk(ss, key, rs, first, last)
    requires LiveThroughout(ss, key, i, first, last) && EndsAt(ss, key, rs, first, last, j)
    requires first <= d <= b < x <= last
    requires steps[b].StartLookup? && steps[b].slot == j && steps[b].key == Some(key)
    requires steps[b].generation == Generation(ss[d].slots[j])
    requires Undisturbed(ss, steps, b, x, steps[b].t)
    requires steps[b].t in ss[x].threads
    requires ss[x].threads[steps[b].t].pc.Holding? || !OnWay(ss[x].threads[steps[b].t].pc)
    ensures Holds(ss[x], steps[b].t) <==> j == i
    ensures Holds(ss[x], steps[b].t) || Torn(ss, key, j, rs[|rs| - 1])
  {
    if j == i {
      CallFindsKey(ss, steps, key, i, first, last, d, b, x);
    } else {
      CallElsewhereMisses(ss, steps, key, i, first, last, j, b, x);
      WalkFindsKeyUnlessTorn(ss, steps, key, i, rs, first, last, j);
    }
  }
}
