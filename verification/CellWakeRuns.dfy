/** Whole executions of `CellWake`: no wake is lost, an owed wake arrives, the counters are exact. */
module CellWakeRuns {

  import opened Wrappers
  import opened CellWake

  ghost predicate IsExecution(ss: seq<State>, steps: seq<Step>) {
    && |ss| == |steps| + 1 && ss[0] == Initial
    && forall i :: 0 <= i < |steps| ==> Enabled(ss[i], steps[i]) && ss[i + 1] == Apply(ss[i], steps[i])
  }

  lemma {:induction false} ExecutionKeepsInvariant(ss: seq<State>, steps: seq<Step>, n: nat)
    requires IsExecution(ss, steps) && n < |ss|
    ensures Invariant(ss[n])
  {
    if n == 0 {
      assert RegisteredThreads(map[]) == {};
    } else {
      ExecutionKeepsInvariant(ss, steps, n - 1);
      StepKeepsInvariant(ss[n - 1], steps[n - 1]);
    }
  }

  /** A thread whose own remaining steps wake every sleeper. */
  ghost predicate OwesWake(s: State, t: nat) {
    && t in s.threads
    && var pc := s.threads[t].pc;
       pc.Bump? || pc.LoadWaiters? || (pc.CheckAlive? && !s.retired) || pc.Notify? || pc.Wake?
  }

  lemma OwedAt(s: State, p: Pc)
    requires SomeAt(s.threads, p)
    requires p == Bump || p == LoadWaiters || (p == CheckAlive && !s.retired) || p == Notify || p == Wake
    ensures exists t :: OwesWake(s, t)
  {
    var t :| t in s.threads && s.threads[t].pc == p;
    assert OwesWake(s, t);
  }

  /** No lost wake.  In every reachable state of every interleaving, a thread sleeping on
      a cell whose version has moved past what it saw, or whose interrupt flag has been
      raised, has a notifier that has not finished.  It holds although a canceller whose
      handle has gone stale leaves without a notification, unless the wait had begun before
      the cell reached its version.  Saturation of the sequence word at `u32::MAX` is inside
      the statement. */
  lemma NoLostWake(ss: seq<State>, steps: seq<Step>, n: nat, w: nat)
    requires IsExecution(ss, steps) && n < |ss|
    requires w in ss[n].threads && ss[n].threads[w].pc.Parked?
    requires
      || ss[n].version != ss[n].threads[w].since
      || (FlagRaised(ss[n], w) && !(ss[n].retired && ss[n].threads[w].ahead))
    ensures exists t :: OwesWake(ss[n], t)
  {
    var s := ss[n];
    ExecutionKeepsInvariant(ss, steps, n);
    assert ThreadInvariant(s, w);
    OwedAt(s, if SomeAt(s.threads, Wake) then Wake else if SomeAt(s.threads, Notify) then Notify
              else if SomeAt(s.threads, LoadWaiters) then LoadWaiters
              else if SomeAt(s.threads, Bump) then Bump else CheckAlive);
  }

  function RunFor(s: State, t: nat, steps: nat): State
    decreases steps
  {
    if steps == 0 || !Runnable(s, t) then s else RunFor(Advance(s, t), t, steps - 1)
  }

  /** How many steps of its own a notifier needs. */
  function StepsLeft(pc: Pc): nat {
    match pc
    case Wake => 1
    case Notify => 2
    case LoadWaiters => 3
    case CheckAlive => 3
    case _ => 4
  }

  lemma {:induction false} WakesWithin(s: State, w: nat, t: nat, k: nat)
    requires OwesWake(s, t) && StepsLeft(s.threads[t].pc) <= k
    requires w in s.threads && s.threads[w].pc.Parked? && s.waiters != 0
    ensures var s' := RunFor(s, t, k); w in s'.threads && s'.threads[w].pc == Deregister(None)
    decreases k
  {
    var s1 := Advance(s, t);
    if s.threads[t].pc.Wake? {
      assert RunFor(s, t, k) == RunFor(s1, t, k - 1) == s1;
    } else {
      WakesWithin(s1, w, t, k - 1);
    }
  }

  /** What a notifier owes it delivers: its next four steps, run alone, leave no thread
      asleep. */
  lemma OwedWakeArrives(ss: seq<State>, steps: seq<Step>, n: nat, w: nat, t: nat)
    requires IsExecution(ss, steps) && n < |ss|
    requires w in ss[n].threads && ss[n].threads[w].pc.Parked? && OwesWake(ss[n], t)
    ensures
      var s' := RunFor(ss[n], t, 4);
      w in s'.threads && s'.threads[w].pc == Deregister(None)
  {
    ExecutionKeepsInvariant(ss, steps, n);
    assert w in RegisteredThreads(ss[n].threads);
    WakesWithin(ss[n], w, t, 4);
  }

  /** The counters are exact in every reachable state: nobody is registered twice, no
      registration is dropped, deregistration never wraps and the sequence never does. */
  lemma CountersExact(ss: seq<State>, steps: seq<Step>, n: nat)
    requires IsExecution(ss, steps) && n < |ss|
    ensures ss[n].waiters == |RegisteredThreads(ss[n].threads)| && ss[n].sequence <= U32_MAX
    ensures forall t :: t in ss[n].threads && ss[n].threads[t].pc.Deregister? ==> ss[n].waiters > 0
    ensures n + 1 < |ss| ==> ss[n].sequence <= ss[n + 1].sequence && ss[n].version <= ss[n + 1].version
  {
    var s := ss[n];
    ExecutionKeepsInvariant(ss, steps, n);
    forall t | t in s.threads && s.threads[t].pc.Deregister? ensures s.waiters > 0 {
      assert t in RegisteredThreads(s.threads);
    }
  }
}
