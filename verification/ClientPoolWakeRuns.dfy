/** Whole executions of `ClientPoolWake`: no sleeper is forgotten, and a notification reaches
    every sleeper. */
module ClientPoolWakeRuns {

  import opened Wrappers
  import opened ClientPool
  import opened ClientPoolWake

  ghost predicate IsRun(o: Options, ws: seq<World>, es: seq<Event>) {
    && ValidOptions(o) && |ws| == |es| + 1 && ws[0] == Start
    && forall i :: 0 <= i < |es| ==> Possible(ws[i], es[i]) && ws[i + 1] == Next(ws[i], o, es[i])
  }

  lemma {:induction false} RunKeepsInvariant(o: Options, ws: seq<World>, es: seq<Event>, n: nat)
    requires IsRun(o, ws, es) && n < |ws|
    ensures WakeInvariant(ws[n], o)
  {
    if n == 0 {
      EmptyIsInvariant(o);
    } else {
      RunKeepsInvariant(o, ws, es, n - 1);
      EventKeepsInvariant(ws[n - 1], o, es[n - 1]);
    }
  }

  /** No sleeper is forgotten.  In every reachable world, an acquire, a wait for a paused pool
      or a drain that is asleep although a look now would serve it has been notified since it
      began to listen, or some critical section has yet to notify. */
  lemma NoSleeperForgotten(o: Options, ws: seq<World>, es: seq<Event>, n: nat, t: nat)
    requires IsRun(o, ws, es) && n < |ws| && t in ws[n].asleep
    ensures t in ws[n].heard && t in ws[n].sys.tasks && Queued(ws[n].sys.tasks[t])
    ensures Ready(ws[n].sys.pool, o, ws[n].sys.tasks[t]) ==> ws[n].heard[t] != ws[n].generation || ws[n].owed > 0
    ensures forall now: nat :: ReadyMeans(ws[n].sys, o, t, now)
  {
    RunKeepsInvariant(o, ws, es, n);
    assert Sleeps(ws[n], o, t);
    forall now: nat ensures ReadyMeans(ws[n].sys, o, t, now) {
      ReadyIff(ws[n].sys.pool, o, ws[n].sys.tasks[t], now);
    }
  }

  /** Ready is what a queued future's next look, or the drain's, would find at any time. */
  ghost predicate ReadyMeans(sys: System, o: Options, t: nat, now: nat)
    requires t in sys.tasks
  {
    var s, p := sys.pool, sys.tasks[t];
    && (p.Admitting? ==> (Ready(s, o, p) <==> !Admit(s, o, true, now).2.Wait?))
    && (p.Opening? ==> (Ready(s, o, p) <==> !AwaitOpen(s, o, true).1.Opening?))
    && (p.Cancelling? ==> (Ready(s, o, p) <==> PollDrain(s, now).1.None?))
  }

  /** One notification is enough for everybody: after it, every sleeper may wake. */
  lemma NotificationReachesAll(o: Options, ws: seq<World>, es: seq<Event>, n: nat, t: nat)
    requires IsRun(o, ws, es) && n < |es| && es[n].Notify? && t in ws[n].asleep
    ensures t in ws[n + 1].asleep && Possible(ws[n + 1], WakeUp(t))
  {
    RunKeepsInvariant(o, ws, es, n);
    assert Sleeps(ws[n], o, t);
  }
}
