/** The one way to sleep through an interrupt that `CellWakeRuns` leaves: a wait for a version that
    the cell has not reached when the wait begins, and exactly such a wait. */
module CellWakeStranded {

  import opened Wrappers
  import opened CellWake
  import opened CellWakeRuns

  /** An execution so far: the states and the steps between them. */
  datatype Trace = Trace(ss: seq<State>, steps: seq<Step>) {
    ghost predicate Valid() { IsExecution(ss, steps) }

    function Last(): State
      requires ss != []
    {
      ss[|ss| - 1]
    }

    ghost predicate Continues(e: Trace) { e.ss <= ss && e.steps <= steps }
  }

  lemma Extend(e: Trace, step: Step) returns (e': Trace)
    requires e.Valid() && Enabled(e.Last(), step)
    ensures e'.Valid() && e'.Continues(e) && e'.Last() == Apply(e.Last(), step)
    ensures e'.steps == e.steps + [step]
  {
    e' := Trace(e.ss + [Apply(e.Last(), step)], e.steps + [step]);
  }

  const GONE := Thread(Finished, 0, None, false)

  /** Nobody is registered and no flag is up; every thread but zero is one of the first `n`
      and has finished. */
  ghost predicate Idle(s: State, n: nat) {
    && s.sequence == 0 && s.waiters == 0 && s.flags == {}
    && OthersGone(s.threads, n)
  }

  ghost predicate OthersGone(threads: map<nat, Thread>, n: nat) {
    forall t :: t in threads && t != 0 ==> t <= n && threads[t] == GONE
  }

  /** A write or a release about to move the version finds nobody to wake. */
  lemma MovesVersion(e: Trace, t: nat) returns (e': Trace)
    requires e.Valid() && t in e.Last().threads && e.Last().threads[t] == Thread(Bump, 0, None, false)
    requires e.Last().waiters == 0
    ensures e'.Valid() && e'.Continues(e)
    ensures e'.Last() == e.Last().(version := e.Last().version + 1, threads := e.Last().threads[t := GONE])
  {
    var s := e.Last();
    e' := Extend(e, Run(t));
    assert e'.Last().threads[t].pc == LoadWaiters && e'.Last().waiters == 0;
    e' := Extend(e', Run(t));
    assert e'.Last().threads == s.threads[t := GONE];
  }

  /** A complete write. */
  lemma WriteOnce(e: Trace, n: nat) returns (e': Trace)
    requires e.Valid() && Idle(e.Last(), n)
    ensures e'.Valid() && e'.Continues(e) && Idle(e'.Last(), n + 1)
    ensures e'.Last() == e.Last().(version := e.Last().version + 1, threads := e.Last().threads[n + 1 := GONE])
  {
    var s := e.Last();
    e' := Extend(e, StartWrite(n + 1));
    e' := MovesVersion(e', n + 1);
    assert e'.Last().threads == s.threads[n + 1 := GONE];
  }

  lemma {:induction false} Writes(e: Trace, n: nat, k: nat) returns (e': Trace)
    requires e.Valid() && Idle(e.Last(), n)
    ensures e'.Valid() && e'.Continues(e) && Idle(e'.Last(), n + k)
    ensures e'.Last().version == e.Last().version + k && e'.Last().retired == e.Last().retired
    ensures 0 in e'.Last().threads <==> 0 in e.Last().threads
    ensures 0 in e.Last().threads ==> e'.Last().threads[0] == e.Last().threads[0]
    decreases k
  {
    e' := e;
    if k > 0 {
      e' := WriteOnce(e, n);
      e' := Writes(e', n + 1, k - 1);
    }
  }

  function Waiting(pc: Pc, since: nat, flag: nat): Thread { Thread(pc, since, Some(flag), true) }

  /** The wait of thread zero stands at `pc`. */
  ghost predicate WaitAt(s: State, pc: Pc, since: nat, flag: nat) {
    0 in s.threads && s.threads[0] == Waiting(pc, since, flag)
  }

  /** A wait for a version to come finds the handle alive. */
  lemma WaitAsks(e: Trace, n: nat, since: nat, flag: nat) returns (e': Trace)
    requires e.Valid() && Idle(e.Last(), n) && 0 !in e.Last().threads && !e.Last().retired
    requires e.Last().version < since
    ensures e'.Valid() && e'.Continues(e) && Idle(e'.Last(), n)
    ensures |e'.steps| > |e.steps| && e'.steps[|e.steps|] == StartWait(0, since, Some(flag))
    ensures WaitAt(e'.Last(), LoadVersion, since, flag)
    ensures e'.Last().version == e.Last().version && !e'.Last().retired
  {
    e' := Extend(e, StartWait(0, since, Some(flag)));
    assert WaitAt(e'.Last(), CheckInterrupt, since, flag);
    e' := Extend(e', Run(0));
    assert WaitAt(e'.Last(), CheckSlot, since, flag);
    e' := Extend(e', Run(0));
  }

  lemma CellRetired(e: Trace, n: nat) returns (e': Trace)
    requires e.Valid() && Idle(e.Last(), n)
    ensures e'.Valid() && e'.Continues(e)
    ensures e'.Last() ==
      e.Last().(retired := true, threads := e.Last().threads[n + 1 := Thread(Bump, 0, None, false)])
  {
    var s := e.Last();
    e' := Extend(e, StartRelease(n + 1));
    assert e'.Last().threads[n + 1].pc == Retire;
    e' := Extend(e', Run(n + 1));
    assert e'.Last().threads == s.threads[n + 1 := Thread(Bump, 0, None, false)];
  }

  /** A release retires the handle and moves the version. */
  lemma CellReleased(e: Trace, n: nat, since: nat, flag: nat) returns (e': Trace)
    requires e.Valid() && Idle(e.Last(), n) && WaitAt(e.Last(), LoadVersion, since, flag)
    ensures e'.Valid() && e'.Continues(e) && Idle(e'.Last(), n + 1)
    ensures WaitAt(e'.Last(), LoadVersion, since, flag)
    ensures e'.Last().version == e.Last().version + 1 && e'.Last().retired
  {
    e' := CellRetired(e, n);
    e' := MovesVersion(e', n + 1);
  }

  /** The wait sees the version it asked for, registers and parks. */
  lemma WaitParks(e: Trace, n: nat, since: nat, flag: nat) returns (e': Trace)
    requires e.Valid() && Idle(e.Last(), n) && WaitAt(e.Last(), LoadVersion, since, flag)
    requires e.Last().version == since && e.Last().retired
    ensures e'.Valid() && e'.Continues(e)
    ensures WaitAt(e'.Last(), Parked(0), since, flag) && OthersGone(e'.Last().threads, n) && e'.Last().retired
  {
    e' := Extend(e, Run(0));
    assert WaitAt(e'.Last(), Register, since, flag);
    e' := Extend(e', Run(0));
    assert WaitAt(e'.Last(), LoadSequence, since, flag);
    e' := Extend(e', Run(0));
    assert WaitAt(e'.Last(), RecheckVersion(0), since, flag);
    e' := Extend(e', Run(0));
    assert WaitAt(e'.Last(), RecheckInterrupt(0), since, flag);
    e' := Extend(e', Run(0));
    assert WaitAt(e'.Last(), Park(0), since, flag);
    e' := Extend(e', Run(0));
  }

  /** Thread zero sleeps on its raised flag and nobody is left to wake it. */
  ghost predicate Stranded(s: State) {
    && 0 in s.threads && s.threads[0].pc.Parked? && FlagRaised(s, 0)
    && forall t :: !OwesWake(s, t)
  }

  lemma FlagGoesUp(e: Trace, n: nat, flag: nat) returns (e': Trace)
    requires e.Valid() && OthersGone(e.Last().threads, n)
    ensures e'.Valid() && e'.Continues(e)
    ensures e'.Last() == e.Last().(
      flags := e.Last().flags + {flag}, threads := e.Last().threads[n + 1 := Thread(CheckAlive, 0, None, false)])
  {
    var s := e.Last();
    e' := Extend(e, StartInterrupt(n + 1, flag));
    assert e'.Last().threads[n + 1].pc == SetFlag(flag);
    e' := Extend(e', Run(n + 1));
    assert e'.Last().threads == s.threads[n + 1 := Thread(CheckAlive, 0, None, false)];
  }

  /** The canceller raises the flag and finds the handle stale. */
  lemma CancellerLeaves(e: Trace, n: nat, since: nat, flag: nat) returns (e': Trace)
    requires e.Valid() && WaitAt(e.Last(), Parked(0), since, flag)
    requires OthersGone(e.Last().threads, n) && e.Last().retired
    ensures e'.Valid() && e'.Continues(e) && Stranded(e'.Last())
  {
    var s := e.Last();
    e' := FlagGoesUp(e, n, flag);
    e' := Extend(e', Run(n + 1));
    assert e'.Last().threads == s.threads[n + 1 := GONE];
  }

  /** In the execution, the wait that thread zero began at step `b`, on a cell at `version`,
      ends up stranded. */
  ghost predicate Strands(ss: seq<State>, steps: seq<Step>, b: nat, version: nat, since: nat, flag: nat) {
    && IsExecution(ss, steps) && b < |steps|
    && steps[b] == StartWait(0, since, Some(flag)) && ss[b].version == version
    && Stranded(ss[|steps|])
  }

  /** Whatever version the cell has, a wait for any later one can be stranded. */
  lemma WaitAheadMayBeStranded(version: nat, since: nat, flag: nat)
    returns (ss: seq<State>, steps: seq<Step>, b: nat)
    requires version < since
    ensures Strands(ss, steps, b, version, since, flag)
  {
    var start := Trace([Initial], []);
    var before := Writes(start, 0, version);
    var asked := WaitAsks(before, version, since, flag);
    var moved := Writes(asked, version, since - version - 1);
    var gone := CellReleased(moved, since - 1, since, flag);
    var parked := WaitParks(gone, since, since, flag);
    var e := CancellerLeaves(parked, since, since, flag);
    ss, steps, b := e.ss, e.steps, |before.steps|;
    assert asked.Continues(before) && e.Continues(asked);
    assert ss[b] == before.ss[b] && steps[b] == asked.steps[b];
  }

  /** A wait keeps what it was asked for. */
  lemma {:induction false} WaitKeepsItsArguments(ss: seq<State>, steps: seq<Step>, b: nat, n: nat)
    requires IsExecution(ss, steps) && b < n < |ss| && steps[b].StartWait?
    ensures
      var t := steps[b].t;
      && t in ss[n].threads && ss[n].threads[t].since == steps[b].since
      && (ss[n].threads[t].ahead <==> ss[b].version < steps[b].since)
  {
    if n > b + 1 {
      WaitKeepsItsArguments(ss, steps, b, n - 1);
    }
  }

  /** The exact condition.  A cell at `version` can have a wait for `since` put to sleep through
      its interrupt for good if and only if the wait began before the cell reached `since`. */
  lemma StrandedIff(version: nat, since: nat, flag: nat)
    ensures (exists ss: seq<State>, steps: seq<Step>, b: nat :: Strands(ss, steps, b, version, since, flag)) <==>
            version < since
  {
    if ss: seq<State>, steps: seq<Step>, b: nat :| Strands(ss, steps, b, version, since, flag) {
      WaitKeepsItsArguments(ss, steps, b, |steps|);
      if version >= since {
        NoLostWake(ss, steps, |steps|, 0);
      }
    }
    if version < since {
      var ss, steps, b := WaitAheadMayBeStranded(version, since, flag);
    }
  }
}
