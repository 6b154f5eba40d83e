/** What the accounting of `ClientPool` guarantees over whole executions: the counters are
    exact, nothing leaks, and a drain that has returned leaves nothing live. */
module ClientPoolRuns {

  import opened Wrappers
  import opened ClientPool

  ghost predicate IsExecution(o: Options, ss: seq<System>, steps: seq<Step>) {
    && ValidOptions(o)
    && |ss| == |steps| + 1 && ss[0] == System(Empty, map[], {})
    && forall i :: 0 <= i < |steps| ==> Enabled(ss[i], steps[i]) && ss[i + 1] == Apply(ss[i], o, steps[i])
  }

  lemma {:induction false} ExecutionKeepsInvariant(o: Options, ss: seq<System>, steps: seq<Step>, n: nat)
    requires IsExecution(o, ss, steps) && n < |ss|
    ensures Invariant(ss[n], o)
  {
    if n > 0 {
      ExecutionKeepsInvariant(o, ss, steps, n - 1);
      StepKeepsInvariant(ss[n - 1], o, steps[n - 1]);
    } else {
      EmptyIsInvariant(o);
    }
  }

  /** Clients recycling, leased, or on their way back. */
  ghost function CheckedOut(tasks: Tasks): set<nat> {
    set t | t in tasks && Owns(tasks[t], Live) && !Owns(tasks[t], CreatingNow)
  }

  /** Creations made for a request rather than for the warm floor. */
  ghost function AdmittedCreates(tasks: Tasks): set<nat> {
    set t | t in tasks && Owns(tasks[t], InFlight) && Owns(tasks[t], CreatingNow)
  }

  function LeasedStat(s: State): nat { Sat(s.live, |s.idle| + s.creating) }

  /** Conservation.  In every reachable state, wherever futures were dropped, the counters
      are what is really held, the four limits hold, and no step's subtraction saturates. */
  lemma CountersAreExact(o: Options, ss: seq<System>, steps: seq<Step>, n: nat)
    requires IsExecution(o, ss, steps) && n < |ss|
    ensures
      var (s, tasks) := (ss[n].pool, ss[n].tasks);
      && s.live == |s.idle| + s.creating + |CheckedOut(tasks)|
      && s.inFlight == |CheckedOut(tasks)| + |AdmittedCreates(tasks)|
      && s.waiting == |Owners(tasks, Waiting)|
      && LeasedStat(s) == |CheckedOut(tasks)|
      && WithinLimits(s, o)
    ensures n < |steps| ==> !Saturates(ss[n], o, steps[n])
  {
    ExecutionKeepsInvariant(o, ss, steps, n);
    var tasks := ss[n].tasks;
    assert Owners(tasks, Live) == CheckedOut(tasks) + Owners(tasks, CreatingNow);
    assert CheckedOut(tasks) !! Owners(tasks, CreatingNow);
    assert Owners(tasks, InFlight) == CheckedOut(tasks) + AdmittedCreates(tasks);
    assert CheckedOut(tasks) !! AdmittedCreates(tasks);
    if n < |steps| {
      NothingSaturates(ss[n], o, steps[n]);
    }
  }

  /** Nothing leaks: with every future finished or dropped, only the idle clients remain. */
  lemma NothingLeaks(o: Options, ss: seq<System>, steps: seq<Step>, n: nat)
    requires IsExecution(o, ss, steps) && n < |ss|
    requires forall t :: t in ss[n].tasks ==>
      ss[n].tasks[t].Done? || ss[n].tasks[t].Drained? || ss[n].tasks[t].Cancelling?
    ensures
      var s := ss[n].pool;
      s.live == |s.idle| && s.creating == 0 && s.inFlight == 0 && s.waiting == 0
  {
    ExecutionKeepsInvariant(o, ss, steps, n);
    forall c ensures Owners(ss[n].tasks, c) == {} {
    }
  }

  // ------------------------------------------------------------------------- drain

  ghost predicate DrainReturned(sys: System) { exists d :: d in sys.tasks && sys.tasks[d].Drained? }

  lemma NothingLiveStays(sys: System, o: Options, step: Step)
    requires Conserved(sys, o) && Enabled(sys, step) && NothingLive(sys.pool)
    ensures NothingLive(Apply(sys, o, step).pool)
    ensures Apply(sys, o, step).pool.waiting <= sys.pool.waiting
  {
    NothingLiveIsEnough(sys, o);
  }

  lemma {:induction false} DrainReturnsEmpty(o: Options, ss: seq<System>, steps: seq<Step>, n: nat)
    requires IsExecution(o, ss, steps) && n < |ss| && DrainReturned(ss[n])
    ensures NothingLive(ss[n].pool)
  {
    var p := n - 1;
    ExecutionKeepsInvariant(o, ss, steps, p);
    if DrainReturned(ss[p]) {
      DrainReturnsEmpty(o, ss, steps, p);
      NothingLiveStays(ss[p], o, steps[p]);
    } else {
      var d :| d in ss[n].tasks && ss[n].tasks[d].Drained?;
      assert !(d in ss[p].tasks && ss[p].tasks[d].Drained?);
      assert steps[p].RunDrain? && steps[p].t == d;
      NothingLiveIsEnough(ss[p], o);
    }
  }

  lemma QueueIsCounted(s: State, tasks: Tasks)
    requires Accounts(s, tasks)
    ensures s.waiting == 0 <==> forall t :: t in tasks ==> !Owns(tasks[t], Waiting)
  {
    if s.waiting == 0 {
      forall t | t in tasks ensures !Owns(tasks[t], Waiting) {
        assert t !in Owners(tasks, Waiting);
      }
    } else {
      assert Owners(tasks, Waiting) != {};
    }
  }

  lemma NothingLiveNext(o: Options, ss: seq<System>, steps: seq<Step>, k: nat)
    requires IsExecution(o, ss, steps) && k < |steps| && NothingLive(ss[k].pool)
    ensures NothingLive(ss[k + 1].pool) && ss[k + 1].pool.waiting <= ss[k].pool.waiting
  {
    ExecutionKeepsInvariant(o, ss, steps, k);
    NothingLiveStays(ss[k], o, steps[k]);
  }

  lemma NothingLiveFromThenOn(o: Options, ss: seq<System>, steps: seq<Step>, i: nat, j: nat)
    requires IsExecution(o, ss, steps) && i <= j < |ss| && NothingLive(ss[i].pool)
    ensures NothingLive(ss[j].pool) && ss[j].pool.waiting <= ss[i].pool.waiting
  {
    for k := i to j
      invariant NothingLive(ss[k].pool) && ss[k].pool.waiting <= ss[i].pool.waiting
    {
      NothingLiveNext(o, ss, steps, k);
    }
  }

  /** Once a drain has returned, nothing is live, idle, creating or in flight, for ever, and
      the queue only shrinks.  All counts are zero exactly when every future that had queued
      has been polled again or dropped. */
  lemma DrainedForEver(o: Options, ss: seq<System>, steps: seq<Step>, i: nat, j: nat)
    requires IsExecution(o, ss, steps) && i <= j < |ss| && DrainReturned(ss[i])
    ensures NothingLive(ss[j].pool) && ss[j].pool.waiting <= ss[i].pool.waiting
    ensures ss[j].pool.waiting == 0 <==> forall t :: t in ss[j].tasks ==> !Owns(ss[j].tasks[t], Waiting)
  {
    DrainReturnsEmpty(o, ss, steps, i);
    NothingLiveFromThenOn(o, ss, steps, i, j);
    ExecutionKeepsInvariant(o, ss, steps, j);
    QueueIsCounted(ss[j].pool, ss[j].tasks);
  }

  /** A drain does not wait for the queue: under any options that allow queueing at all,
      some run has a drain return while a queued future is still counted. */
  lemma DrainMayReturnWithWaiters(o: Options) returns (ss: seq<System>, steps: seq<Step>)
    requires ValidOptions(o) && o.maxWaiting > 0
    ensures IsExecution(o, ss, steps)
    ensures DrainReturned(ss[|ss| - 1]) && ss[|ss| - 1].pool.waiting == 1
  {
    var paused := Empty.(status := Paused(""));
    var queued := paused.(waiting := 1);
    var draining := queued.(status := Draining, drainStarted := Some(0));
    var s0 := System(Empty, map[], {});
    var s1 := System(paused, map[], {});
    var s2 := System(paused, map[0 := Admitting(false, Preserve)], {});
    var s3 := System(queued, map[0 := Admitting(true, Preserve)], {});
    var s4 := System(draining, map[0 := Admitting(true, Preserve), 1 := Cancelling({})], {});
    var s5 := System(draining.(status := Closed), map[0 := Admitting(true, Preserve), 1 := Drained], {});
    QueueingRun(o, s2, s3);
    DrainingRun(o, s3, s4);
    ClosingRun(o, s4, s5);
    ss := [s0, s1, s2, s3, s4, s5];
    steps := [PauseNow(""), StartAcquire(0, Preserve), TryAdmit(0, 0), StartDrain(1, 0), RunDrain(1, 0)];
    forall i | 0 <= i < |steps| ensures Enabled(ss[i], steps[i]) && ss[i + 1] == Apply(ss[i], o, steps[i]) {
      if i <= 1 {
        ParkingRun(o, s0, s1, s2);
      }
    }
    assert s5.tasks[1].Drained?;
  }

  ghost predicate DrainReturnsWithWaiters(o: Options, ss: seq<System>, steps: seq<Step>) {
    && IsExecution(o, ss, steps)
    && DrainReturned(ss[|steps|]) && ss[|steps|].pool.waiting > 0
  }

  /** Exactly the options that allow queueing let a drain return before the queue is empty. */
  lemma DrainMayReturnWithWaitersIff(o: Options)
    requires ValidOptions(o)
    ensures (exists ss, steps :: DrainReturnsWithWaiters(o, ss, steps)) <==> o.maxWaiting > 0
  {
    if ss, steps :| DrainReturnsWithWaiters(o, ss, steps) {
      CountersAreExact(o, ss, steps, |steps|);
    }
    if o.maxWaiting > 0 {
      var ss, steps := DrainMayReturnWithWaiters(o);
      assert DrainReturnsWithWaiters(o, ss, steps);
    }
  }

  lemma ParkingRun(o: Options, s0: System, s1: System, s2: System)
    requires s0 == System(Empty, map[], {}) && s1 == s0.(pool := Empty.(status := Paused("")))
    requires s2 == s1.(tasks := map[0 := Admitting(false, Preserve)])
    ensures Apply(s0, o, PauseNow("")) == s1 && Apply(s1, o, StartAcquire(0, Preserve)) == s2
  {
  }

  lemma ClosingRun(o: Options, s4: System, s5: System)
    requires 1 in s4.tasks && s4.tasks[1] == Cancelling({}) && s4.pool.live == 0
    requires s5 == System(s4.pool.(status := Closed), s4.tasks[1 := Drained], s4.cancelled)
    ensures Enabled(s4, RunDrain(1, 0)) && Apply(s4, o, RunDrain(1, 0)) == s5
  {
  }

  lemma DrainingRun(o: Options, s3: System, s4: System)
    requires s3.pool == Empty.(status := Paused(""), waiting := 1) && 1 !in s3.tasks && s3.cancelled == {}
    requires s4 == System(s3.pool.(status := Draining, drainStarted := Some(0)), s3.tasks[1 := Cancelling({})], {})
    ensures Apply(s3, o, StartDrain(1, 0)) == s4
  {
    var (s, due) := BeginDrain(s3.pool, 0);
    assert s.cancellations == map[] && due == {};
  }

  lemma QueueingRun(o: Options, s2: System, s3: System)
    requires o.maxWaiting > 0
    requires s2 == System(Empty.(status := Paused("")), map[0 := Admitting(false, Preserve)], {})
    requires s3 == System(Empty.(status := Paused(""), waiting := 1), map[0 := Admitting(true, Preserve)], {})
    ensures Apply(s2, o, TryAdmit(0, 0)) == s3
  {
  }

  /** After a drain has begun, every lease that asked to be cancelled on drain is cancelled,
      or a drain holds its token and cancels it before it waits; one that asked to be
      preserved never is. */
  lemma DrainSignalsLeases(o: Options, ss: seq<System>, steps: seq<Step>, n: nat, t: nat)
    requires IsExecution(o, ss, steps) && n < |ss|
    requires t in ss[n].tasks && ss[n].tasks[t].Leased?
    ensures ss[n].pool.drainStarted.Some? && ss[n].tasks[t].policy == CancelOnDrain(None) ==> CancelledOrDue(ss[n], t)
    ensures ss[n].pool.drainStarted.None? || ss[n].tasks[t].policy.Preserve? ==> !CancelledOrDue(ss[n], t)
  {
    ExecutionKeepsInvariant(o, ss, steps, n);
    assert LeaseTracked(ss[n], t);
  }

  /** The same for a grace period, at the first look the drain takes once it is over. */
  lemma DrainSignalsAfterGrace(o: Options, ss: seq<System>, steps: seq<Step>, n: nat, t: nat)
    requires IsExecution(o, ss, steps) && n < |steps|
    requires steps[n].RunDrain? && ss[n].pool.live > 0 && ss[n].pool.drainStarted.Some?
    requires t in ss[n].tasks && ss[n].tasks[t].Leased? && t != steps[n].t
    requires IsDue(ss[n].tasks[t].policy, ss[n].pool.drainStarted.value, steps[n].now)
    ensures CancelledOrDue(ss[n + 1], t)
  {
    ExecutionKeepsInvariant(o, ss, steps, n);
    ExecutionKeepsInvariant(o, ss, steps, n + 1);
    assert LeaseTracked(ss[n + 1], t);
  }
}
