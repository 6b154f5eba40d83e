/** Sleeping on the client pool (`client-pool/src/pool.rs`): an acquire, a wait for a paused
    pool and a drain first listen, then look under the mutex, and sleep if there is nothing
    for them; most critical sections notify everybody once they have let go of the mutex, but
    not all do.  The sections themselves are the steps of `ClientPool`. */
module ClientPoolWake {

  import opened Wrappers
  import opened ClientPool

  /** `generation` counts the notifications sent and `owed` the sections that have yet to send
      theirs; `heard` is the generation at which a future began to listen. */
  datatype World = World(sys: System, generation: nat, owed: nat, heard: map<nat, nat>, asleep: set<nat>)

  datatype Event =
    | Listen(t: nat)
    | Section(step: Step)
    | Notify
    | WakeUp(t: nat)

  const Start := World(System(Empty, map[], {}), 0, 0, map[], {})

  /** Does the critical section notify once it is over? */
  predicate Notifies(sys: System, step: Step)
    requires Enabled(sys, step)
  {
    match step
    case OperationFails(_) => true
    case OperationSucceeds(t, _, _) => sys.tasks[t].Warming?
    case RunRegister(t, now) => Register(sys.pool, sys.tasks[t].policy, t, now).1.id.Some?
    case RunFinish(_) => true
    case DropLease(t, _) => sys.tasks[t].registration.Some?
    case Settle(_, _) => true
    case Abandon(t) => Owns(sys.tasks[t], Waiting)
    case DiscardOne(index) => index < |sys.pool.idle|
    case CloseNow => true
    case PauseNow(_) => true
    case ResumeNow => sys.pool.status.Paused?
    case StartDrain(_, _) => true
    case RunDrain(_, _) => sys.pool.live == 0
    case _ => false
  }

  /** The looks of those who may sleep. */
  predicate Looks(step: Step) { step.TryAdmit? || step.TryOpen? || step.RunDrain? }

  /** After such a look, the future is going to sleep. */
  predicate Waits(p: Phase) { p.Admitting? || p.Opening? || p.Cancelling? }

  /** It waits, and if it waits for admission it is counted in the queue. */
  predicate Queued(p: Phase) { Waits(p) && (p.Cancelling? || p.entered) }

  predicate Possible(w: World, e: Event) {
    match e
    case Listen(t) => t in w.sys.tasks && Waits(w.sys.tasks[t]) && t !in w.asleep
    case Section(step) => Enabled(w.sys, step) && (Looks(step) ==> step.t in w.heard && step.t !in w.asleep)
    case Notify => w.owed > 0
    case WakeUp(t) => t in w.asleep && t in w.heard && w.heard[t] != w.generation
  }

  function Next(w: World, o: Options, e: Event): World
    requires Possible(w, e)
  {
    match e
    case Listen(t) => w.(heard := w.heard[t := w.generation])
    case Section(step) =>
      var sys := Apply(w.sys, o, step);
      World(sys, w.generation, w.owed + Unit(Notifies(w.sys, step)), w.heard,
            if Looks(step) && Waits(sys.tasks[step.t]) then w.asleep + {step.t}
            else if step.Abandon? then w.asleep - {step.t} else w.asleep)
    case Notify => w.(generation := w.generation + 1, owed := w.owed - 1)
    case WakeUp(t) => w.(heard := w.heard - {t}, asleep := w.asleep - {t})
  }

  // ------------------------------------------------------------- what a sleeper waits for

  /** A look now would not send the future back to sleep. */
  predicate Ready(s: State, o: Options, p: Phase) {
    match p
    case Admitting(_, _) =>
      || s.status.Draining? || s.status.Closed?
      || (s.status.Open? && s.inFlight < o.maxConcurrency && (s.idle != [] || s.live < o.maxLive))
    case Opening(_) => !s.status.Paused?
    case Cancelling(_) => s.live == 0
    case _ => true
  }

  /** That is what it says, whatever the clock shows. */
  lemma ReadyIff(s: State, o: Options, p: Phase, now: nat)
    requires |s.idle| <= s.live <= o.maxLive
    ensures p.Admitting? ==> (Ready(s, o, p) <==> !Admit(s, o, true, now).2.Wait?)
    ensures p.Opening? ==> (Ready(s, o, p) <==> !AwaitOpen(s, o, true).1.Opening?)
    ensures p.Cancelling? ==> (Ready(s, o, p) <==> PollDrain(s, now).1.None?)
  {
  }

  /** A drain leaves no idle client and no way back. */
  ghost predicate Drains(sys: System) {
    && (sys.pool.status.Draining? || sys.pool.status.Closed? ==> sys.pool.idle == [])
    && forall d :: d in sys.tasks && sys.tasks[d].Cancelling? ==> sys.pool.status.Draining? || sys.pool.status.Closed?
  }

  ghost predicate Sleeps(w: World, o: Options, t: nat) {
    && t in w.heard && w.heard[t] <= w.generation
    && t in w.sys.tasks && Queued(w.sys.tasks[t])
    && (w.heard[t] == w.generation && w.owed == 0 ==> !Ready(w.sys.pool, o, w.sys.tasks[t]))
  }

  ghost predicate WakeInvariant(w: World, o: Options) {
    && Invariant(w.sys, o) && Drains(w.sys)
    && (forall t :: t in w.heard ==> w.heard[t] <= w.generation)
    && forall t :: t in w.asleep ==> Sleeps(w, o, t)
  }

  lemma SectionKeepsDrains(sys: System, o: Options, step: Step)
    requires Drains(sys) && Enabled(sys, step)
    ensures Drains(Apply(sys, o, step))
  {
  }

  /** A section that does not notify has nothing for a sleeper. */
  lemma QuietSectionServesNobody(sys: System, o: Options, step: Step, p: Phase)
    requires Conserved(sys, o) && Drains(sys) && Enabled(sys, step) && !Notifies(sys, step)
    requires Waits(p) && !Ready(sys.pool, o, p) && (p.Cancelling? ==> sys.pool.idle == [])
    ensures !Ready(Apply(sys, o, step).pool, o, p)
  {
  }

  /** Whoever goes to sleep has just seen nothing for it. */
  lemma WaitsUnready(sys: System, o: Options, step: Step)
    requires Conserved(sys, o) && Enabled(sys, step) && Looks(step)
    requires Waits(Apply(sys, o, step).tasks[step.t])
    ensures Queued(Apply(sys, o, step).tasks[step.t])
    ensures !Ready(Apply(sys, o, step).pool, o, Apply(sys, o, step).tasks[step.t])
  {
  }

  /** Nobody else changes what a sleeper waits for. */
  lemma SleeperStays(sys: System, o: Options, step: Step, t: nat)
    requires Enabled(sys, step) && t in sys.tasks && Waits(sys.tasks[t])
    requires (Looks(step) || step.Abandon?) ==> step.t != t
    ensures t in Apply(sys, o, step).tasks
    ensures
      var p, p' := sys.tasks[t], Apply(sys, o, step).tasks[t];
      p' == p || (p.Cancelling? && p'.Cancelling?)
  {
  }

  lemma SectionKeepsSleeper(w: World, o: Options, step: Step, t: nat)
    requires WakeInvariant(w, o) && Possible(w, Section(step)) && t in Next(w, o, Section(step)).asleep
    ensures Sleeps(Next(w, o, Section(step)), o, t)
  {
    var w' := Next(w, o, Section(step));
    if Looks(step) && t == step.t {
      WaitsUnready(w.sys, o, step);
    } else {
      assert Sleeps(w, o, t);
      SleeperStays(w.sys, o, step, t);
      if !Notifies(w.sys, step) && !Ready(w.sys.pool, o, w.sys.tasks[t]) {
        QuietSectionServesNobody(w.sys, o, step, w.sys.tasks[t]);
      }
    }
  }

  lemma EventKeepsInvariant(w: World, o: Options, e: Event)
    requires WakeInvariant(w, o) && Possible(w, e)
    ensures WakeInvariant(Next(w, o, e), o)
  {
    var w' := Next(w, o, e);
    match e
    case Section(step) => {
      StepKeepsInvariant(w.sys, o, step);
      SectionKeepsDrains(w.sys, o, step);
      forall t | t in w'.asleep ensures Sleeps(w', o, t) {
        SectionKeepsSleeper(w, o, step, t);
      }
    }
    case _ =>
      forall t | t in w'.asleep ensures Sleeps(w', o, t) {
        assert Sleeps(w, o, t);
      }
  }
}
