/** Accounting of the outbound client pool (`client-pool/src/pool.rs`, `reservation.rs`).
    The counters are values here and every mutex critical section is one transition; the
    system around them is any number of futures, each of which may be dropped at any await. */
module ClientPool {

  import opened Wrappers

  datatype Options = Options(
    minIdle: nat, maxIdle: nat, maxLive: nat, maxConcurrency: nat, maxWaiting: nat,
    idleTimeout: Option<nat>, maxLifetime: Option<nat>)

  predicate ValidOptions(o: Options) {
    o.maxLive > 0 && o.maxConcurrency > 0 && o.minIdle <= o.maxIdle <= o.maxLive
  }

  datatype PoolState = Open | Paused(reason: string) | Draining | Closed
  datatype Policy = Preserve | CancelOnDrain(grace: Option<nat>)
  datatype Entry = Entry(client: nat, createdAt: nat, idleSince: nat)
  datatype Active = Active(policy: Policy, token: nat)

  datatype State = State(
    idle: seq<Entry>,
    live: nat,
    creating: nat,
    waiting: nat,
    inFlight: nat,
    status: PoolState,
    nextActiveId: nat,
    drainStarted: Option<nat>,
    cancellations: map<nat, Active>)

  const Empty := State([], 0, 0, 0, 0, Open, 0, None, map[])

  function Sat(a: nat, b: nat): nat { if a >= b then a - b else 0 }

  // ------------------------------------------------------------------------ expiry

  function RetirementDeadline(e: Entry, o: Options): Option<nat> {
    match (o.idleTimeout, o.maxLifetime)
    case (Some(i), Some(l)) => Some(if e.idleSince + i < e.createdAt + l then e.idleSince + i else e.createdAt + l)
    case (Some(i), None) => Some(e.idleSince + i)
    case (None, Some(l)) => Some(e.createdAt + l)
    case (None, None) => None
  }

  predicate Expired(e: Entry, now: nat, o: Options) {
    RetirementDeadline(e, o).Some? && RetirementDeadline(e, o).value <= now
  }

  function Retain(idle: seq<Entry>, now: nat, o: Options): (r: seq<Entry>)
    ensures |r| <= |idle|
  {
    if idle == [] then []
    else (if Expired(idle[0], now, o) then [] else [idle[0]]) + Retain(idle[1..], now, o)
  }

  function Prune(s: State, now: nat, o: Options): State {
    var idle := Retain(s.idle, now, o);
    s.(idle := idle, live := Sat(s.live, |s.idle| - |idle|))
  }

  // ------------------------------------------------------------ critical sections

  datatype Action = Wait | Reuse(entry: Entry) | Create | RefuseClosed | RefuseFull

  /** `Waiter::enter`: queue once, unless the queue is full. */
  function Enter(s: State, o: Options, entered: bool): (State, bool, Action) {
    if entered then (s, true, Wait)
    else if s.waiting >= o.maxWaiting then (s, false, RefuseFull)
    else (s.(waiting := s.waiting + 1), true, Wait)
  }

  function Leave(s: State, entered: bool): State {
    if entered then s.(waiting := Sat(s.waiting, 1)) else s
  }

  /** One turn of the acquire loop. */
  function Admit(s0: State, o: Options, entered: bool, now: nat): (State, bool, Action) {
    var s := Prune(s0, now, o);
    match s.status
    case Draining => (s, entered, RefuseClosed)
    case Closed => (s, entered, RefuseClosed)
    case Paused(_) => Enter(s, o, entered)
    case Open =>
      if s.inFlight >= o.maxConcurrency then Enter(s, o, entered)
      else if s.idle != [] then
        (Leave(s.(idle := s.idle[1..], inFlight := s.inFlight + 1), entered), false, Reuse(s.idle[0]))
      else if s.live < o.maxLive then
        (Leave(s.(live := s.live + 1, creating := s.creating + 1, inFlight := s.inFlight + 1), entered), false, Create)
      else Enter(s, o, entered)
  }

  datatype Direct = Admitted | NotOpen | AtCapacity

  function CreateDirectly(s0: State, o: Options, now: nat): (State, Direct) {
    var s := Prune(s0, now, o);
    if !s.status.Open? then (s, NotOpen)
    else if s.live >= o.maxLive || s.inFlight >= o.maxConcurrency then (s, AtCapacity)
    else (s.(live := s.live + 1, creating := s.creating + 1, inFlight := s.inFlight + 1), Admitted)
  }

  /** `index` is where the caller's predicate first matches, if it does. */
  function TakeIdle(s: State, o: Options, index: nat): (State, Option<Entry>) {
    if !s.status.Open? || s.inFlight >= o.maxConcurrency || index >= |s.idle| then (s, None)
    else (s.(idle := s.idle[..index] + s.idle[index + 1..], inFlight := s.inFlight + 1), Some(s.idle[index]))
  }

  function AcquireIdle(s: State, o: Options, index: nat, now: nat): (State, Option<Entry>) {
    TakeIdle(Prune(s, now, o), o, index)
  }

  function DiscardIdle(s: State, index: nat): State {
    if index >= |s.idle| then s
    else s.(idle := s.idle[..index] + s.idle[index + 1..], live := Sat(s.live, 1))
  }

  function ReserveWarm(s: State, o: Options): (State, bool) {
    if !s.status.Open? || |s.idle| + s.creating >= o.minIdle || s.live >= o.maxLive then (s, false)
    else (s.(live := s.live + 1, creating := s.creating + 1), true)
  }

  function FinishCreate(s: State, succeeded: bool, admitted: bool): State {
    var s1 := s.(creating := Sat(s.creating, 1));
    if succeeded then s1
    else s1.(live := Sat(s1.live, 1), inFlight := if admitted then Sat(s1.inFlight, 1) else s1.inFlight)
  }

  function FinishWarm(s: State, o: Options, client: nat, now: nat): State {
    var s1 := s.(creating := Sat(s.creating, 1));
    if s1.status.Draining? || s1.status.Closed? || |s1.idle| >= o.maxIdle then s1.(live := Sat(s1.live, 1))
    else s1.(idle := s1.idle + [Entry(client, now, now)])
  }

  function RetireOne(s: State): State { s.(live := Sat(s.live, 1), inFlight := Sat(s.inFlight, 1)) }

  function ReturnEntry(s: State, o: Options, e: Entry, now: nat): State {
    var s1 := s.(inFlight := Sat(s.inFlight, 1));
    if (s1.status.Open? || s1.status.Paused?) && |s1.idle| < o.maxIdle && !Expired(e, now, o)
    then s1.(idle := s1.idle + [e.(idleSince := now)])
    else s1.(live := Sat(s1.live, 1))
  }

  function DropIdle(s: State): State { s.(idle := [], live := Sat(s.live, |s.idle|)) }

  function Close(s: State): State { DropIdle(s.(status := Closed)) }

  function Pause(s: State, reason: string): State {
    if s.status.Open? || s.status.Paused? then s.(status := Paused(reason)) else s
  }

  function Resume(s: State): (State, bool) {
    if s.status.Paused? then (s.(status := Open), true) else (s, false)
  }

  // ----------------------------------------------------------------- cancellations

  predicate IsDue(policy: Policy, started: nat, now: nat) {
    policy.CancelOnDrain? && (policy.grace.None? || started + policy.grace.value <= now)
  }

  function TakeDue(s: State, now: nat): (State, set<nat>) {
    if s.drainStarted.None? then (s, {})
    else
      var started := s.drainStarted.value;
      (s.(cancellations := map id | id in s.cancellations && !IsDue(s.cancellations[id].policy, started, now)
          :: s.cancellations[id]),
       set id | id in s.cancellations && IsDue(s.cancellations[id].policy, started, now) :: s.cancellations[id].token)
  }

  datatype Registration = Registration(id: Option<nat>, cancelNow: bool)

  function Register(s: State, policy: Policy, token: nat, now: nat): (State, Registration) {
    if policy.Preserve? then (s, Registration(None, false))
    else
      var s1 := s.(nextActiveId := s.nextActiveId + 1);
      if s.drainStarted.Some? && IsDue(policy, s.drainStarted.value, now) then (s1, Registration(None, true))
      else (s1.(cancellations := s.cancellations[s.nextActiveId := Active(policy, token)]),
            Registration(Some(s.nextActiveId), false))
  }

  function Unregister(s: State, registration: Option<nat>): State {
    if registration.None? then s else s.(cancellations := s.cancellations - {registration.value})
  }

  function BeginDrain(s: State, now: nat): (State, set<nat>) {
    var started := if s.drainStarted.Some? then s.drainStarted.value else now;
    var s1 := s.(status := if s.status.Closed? then Closed else Draining, drainStarted := Some(started));
    TakeDue(DropIdle(s1), started)
  }

  /** None when nothing is live any more, and the drain returns. */
  function PollDrain(s: State, now: nat): (State, Option<set<nat>>) {
    if s.live == 0 then (s.(status := Closed), None)
    else var (s1, due) := TakeDue(s, now); (s1, Some(due))
  }

  // ----------------------------------------------------------------------- futures

  /** What one future or lease still owes the pool. */
  datatype Phase =
    | Admitting(entered: bool, policy: Policy)
    | Opening(entered: bool)
    | Leaving
    | Recycling(entry: Entry, policy: Policy)
    | Creating(policy: Policy)
    | Warming
    | Registering(entry: Entry, policy: Policy, created: bool)
    | Finishing(entry: Entry, policy: Policy, registration: Option<nat>)
    | Leased(entry: Entry, policy: Policy, registration: Option<nat>)
    | Settling(entry: Entry, discard: bool)
    | Cancelling(due: set<nat>)
    | Drained
    | Done

  type Tasks = map<nat, Phase>

  datatype System = System(pool: State, tasks: Tasks, cancelled: set<nat>)

  datatype Counter = Live | InFlight | CreatingNow | Waiting

  /** Does a future in this phase hold one unit of the counter? */
  predicate Owns(p: Phase, c: Counter) {
    match c
    case Live => p.Recycling? || p.Creating? || p.Warming? || p.Registering? || p.Finishing? || p.Leased? || p.Settling?
    case InFlight => p.Recycling? || p.Creating? || p.Registering? || p.Finishing? || p.Leased? || p.Settling?
    case CreatingNow => p.Creating? || p.Warming? || (p.Registering? && p.created) || p.Finishing?
    case Waiting => p.Leaving? || ((p.Admitting? || p.Opening?) && p.entered)
  }

  datatype Step =
    | StartAcquire(t: nat, policy: Policy)
    | TryAdmit(t: nat, now: nat)
    | StartOpening(t: nat)
    | TryOpen(t: nat)
    | Abandon(t: nat)
    | StartDirect(t: nat, policy: Policy, now: nat)
    | StartIdle(t: nat, policy: Policy, index: nat, now: nat)
    | StartWarm(t: nat)
    | OperationFails(t: nat)
    | OperationSucceeds(t: nat, client: nat, now: nat)
    | RunRegister(t: nat, now: nat)
    | RunFinish(t: nat)
    | DropLease(t: nat, discard: bool)
    | Settle(t: nat, now: nat)
    | DiscardOne(index: nat)
    | PruneNow(now: nat)
    | CloseNow
    | PauseNow(reason: string)
    | ResumeNow
    | StartDrain(t: nat, now: nat)
    | CancelOne(t: nat, token: nat)
    | RunDrain(t: nat, now: nat)

  predicate Enabled(sys: System, step: Step) {
    match step
    case StartAcquire(t, _) => t !in sys.tasks
    case TryAdmit(t, _) => t in sys.tasks && sys.tasks[t].Admitting?
    case StartOpening(t) => t !in sys.tasks
    case TryOpen(t) => t in sys.tasks && sys.tasks[t].Opening?
    case Abandon(t) =>
      t in sys.tasks && (sys.tasks[t].Admitting? || sys.tasks[t].Opening?
        || sys.tasks[t].Leaving? || sys.tasks[t] == Cancelling({}))
    case StartDirect(t, _, _) => t !in sys.tasks
    case StartIdle(t, _, _, _) => t !in sys.tasks
    case StartWarm(t) => t !in sys.tasks
    case OperationFails(t) =>
      t in sys.tasks && (sys.tasks[t].Recycling? || sys.tasks[t].Creating? || sys.tasks[t].Warming?)
    case OperationSucceeds(t, _, _) =>
      t in sys.tasks && (sys.tasks[t].Recycling? || sys.tasks[t].Creating? || sys.tasks[t].Warming?)
    case RunRegister(t, _) => t in sys.tasks && sys.tasks[t].Registering?
    case RunFinish(t) => t in sys.tasks && sys.tasks[t].Finishing?
    case DropLease(t, _) => t in sys.tasks && sys.tasks[t].Leased?
    case Settle(t, _) => t in sys.tasks && sys.tasks[t].Settling?
    case StartDrain(t, _) => t !in sys.tasks
    case CancelOne(t, token) => t in sys.tasks && sys.tasks[t].Cancelling? && token in sys.tasks[t].due
    case RunDrain(t, _) => t in sys.tasks && sys.tasks[t] == Cancelling({})
    case _ => true
  }

  function Goto(sys: System, pool: State, t: nat, p: Phase): System {
    System(pool, sys.tasks[t := p], sys.cancelled)
  }

  function AfterAdmit(entered: bool, action: Action, policy: Policy): Phase {
    match action
    case Wait => Admitting(entered, policy)
    case Reuse(e) => Recycling(e, policy)
    case Create => Creating(policy)
    case RefuseClosed => if entered then Leaving else Done
    case RefuseFull => Done
  }

  /** One turn of the wait for a paused pool to open. */
  function AwaitOpen(s: State, o: Options, entered: bool): (State, Phase) {
    match s.status
    case Open => (Leave(s, entered), Done)
    case Paused(_) =>
      var (s', nowEntered, action) := Enter(s, o, entered);
      (s', if action.Wait? then Opening(nowEntered) else Done)
    case _ => (s, if entered then Leaving else Done)
  }

  /** A future dropped, or its manager call failed or interrupted. */
  function Failed(s: State, p: Phase): State
    requires p.Recycling? || p.Creating? || p.Warming?
  {
    if p.Recycling? then RetireOne(s) else FinishCreate(s, false, p.Creating?)
  }

  function Succeeded(s: State, o: Options, p: Phase, client: nat, now: nat): (State, Phase)
    requires p.Recycling? || p.Creating? || p.Warming?
  {
    match p
    case Recycling(e, policy) => (s, Registering(e, policy, false))
    case Creating(policy) => (s, Registering(Entry(client, now, now), policy, true))
    case Warming => (FinishWarm(s, o, client, now), Done)
  }

  function Apply(sys: System, o: Options, step: Step): System
    requires Enabled(sys, step)
  {
    var s := sys.pool;
    match step
    case StartAcquire(t, policy) => Goto(sys, s, t, Admitting(false, policy))
    case TryAdmit(t, now) =>
      var (s', entered, action) := Admit(s, o, sys.tasks[t].entered, now);
      Goto(sys, s', t, AfterAdmit(entered, action, sys.tasks[t].policy))
    case StartOpening(t) => Goto(sys, s, t, Opening(false))
    case TryOpen(t) =>
      var (s', p) := AwaitOpen(s, o, sys.tasks[t].entered);
      Goto(sys, s', t, p)
    case Abandon(t) =>
      var p := sys.tasks[t];
      Goto(sys, Leave(s, Owns(p, Waiting)), t, Done)
    case StartDirect(t, policy, now) =>
      var (s', r) := CreateDirectly(s, o, now);
      Goto(sys, s', t, if r.Admitted? then Creating(policy) else Done)
    case StartIdle(t, policy, index, now) =>
      var (s', e) := AcquireIdle(s, o, index, now);
      Goto(sys, s', t, if e.Some? then Recycling(e.value, policy) else Done)
    case StartWarm(t) =>
      var (s', ok) := ReserveWarm(s, o);
      Goto(sys, s', t, if ok then Warming else Done)
    case OperationFails(t) => Goto(sys, Failed(s, sys.tasks[t]), t, Done)
    case OperationSucceeds(t, client, now) =>
      var (s', p) := Succeeded(s, o, sys.tasks[t], client, now);
      Goto(sys, s', t, p)
    case RunRegister(t, now) =>
      var p := sys.tasks[t];
      var (s', r) := Register(s, p.policy, t, now);
      var p' := if p.created then Finishing(p.entry, p.policy, r.id) else Leased(p.entry, p.policy, r.id);
      Goto(sys, s', t, p').(cancelled := if r.cancelNow then sys.cancelled + {t} else sys.cancelled)
    case RunFinish(t) =>
      var p := sys.tasks[t];
      Goto(sys, FinishCreate(s, true, true), t, Leased(p.entry, p.policy, p.registration))
    case DropLease(t, discard) =>
      var p := sys.tasks[t];
      Goto(sys, Unregister(s, p.registration), t, Settling(p.entry, discard))
    case Settle(t, now) =>
      var p := sys.tasks[t];
      Goto(sys, if p.discard then RetireOne(s) else ReturnEntry(s, o, p.entry, now), t, Done)
    case DiscardOne(index) => sys.(pool := DiscardIdle(s, index))
    case PruneNow(now) => sys.(pool := Prune(s, now, o))
    case CloseNow => sys.(pool := Close(s))
    case PauseNow(reason) => sys.(pool := Pause(s, reason))
    case ResumeNow => sys.(pool := Resume(s).0)
    case StartDrain(t, now) =>
      var (s', due) := BeginDrain(s, now);
      Goto(sys, s', t, Cancelling(due))
    case CancelOne(t, token) =>
      Goto(sys, s, t, Cancelling(sys.tasks[t].due - {token})).(cancelled := sys.cancelled + {token})
    case RunDrain(t, now) =>
      var (s', due) := PollDrain(s, now);
      Goto(sys, s', t, if due.Some? then Cancelling(due.value) else Drained)
  }

  // --------------------------------------------------------------------- accounts

  ghost function Owners(tasks: Tasks, c: Counter): set<nat> { set t | t in tasks && Owns(tasks[t], c) }

  /** Every counter is exactly what the idle queue and the futures hold. */
  ghost predicate Accounts(s: State, tasks: Tasks) {
    && s.live == |s.idle| + |Owners(tasks, Live)|
    && s.inFlight == |Owners(tasks, InFlight)|
    && s.creating == |Owners(tasks, CreatingNow)|
    && s.waiting == |Owners(tasks, Waiting)|
  }

  predicate WithinLimits(s: State, o: Options) {
    s.live <= o.maxLive && s.inFlight <= o.maxConcurrency && s.waiting <= o.maxWaiting && |s.idle| <= o.maxIdle
  }

  function Unit(b: bool): nat { if b then 1 else 0 }

  lemma OwnersAfter(tasks: Tasks, t: nat, p: Phase, c: Counter)
    ensures |Owners(tasks[t := p], c)| ==
      |Owners(tasks, c)| + Unit(Owns(p, c)) - Unit(t in tasks && Owns(tasks[t], c))
  {
    var before, after := Owners(tasks, c), Owners(tasks[t := p], c);
    assert after == if Owns(p, c) then before + {t} else before - {t};
  }

  /** The books after one future changes phase, in terms of what it owned and owns. */
  lemma BooksAfter(s: State, tasks: Tasks, s': State, t: nat, p: Phase)
    requires Accounts(s, tasks)
    requires forall c :: Unit(t in tasks && Owns(tasks[t], c)) <= |Owners(tasks, c)|
    requires s'.live - |s'.idle| == s.live - |s.idle| + Unit(Owns(p, Live)) - Unit(t in tasks && Owns(tasks[t], Live))
    requires s'.inFlight == s.inFlight + Unit(Owns(p, InFlight)) - Unit(t in tasks && Owns(tasks[t], InFlight))
    requires s'.creating == s.creating + Unit(Owns(p, CreatingNow)) - Unit(t in tasks && Owns(tasks[t], CreatingNow))
    requires s'.waiting == s.waiting + Unit(Owns(p, Waiting)) - Unit(t in tasks && Owns(tasks[t], Waiting))
    ensures Accounts(s', tasks[t := p])
  {
    forall c ensures |Owners(tasks[t := p], c)| ==
      |Owners(tasks, c)| + Unit(Owns(p, c)) - Unit(t in tasks && Owns(tasks[t], c))
    {
      OwnersAfter(tasks, t, p, c);
    }
  }

  /** What a future owns is in the books, so returning it never saturates a counter. */
  lemma OwnerIsCounted(s: State, tasks: Tasks, t: nat, c: Counter)
    requires Accounts(s, tasks) && t in tasks && Owns(tasks[t], c)
    ensures |Owners(tasks, c)| >= 1
    ensures c.Live? ==> s.live >= |s.idle| + 1
    ensures c.InFlight? ==> s.inFlight >= 1
    ensures c.CreatingNow? ==> s.creating >= 1
    ensures c.Waiting? ==> s.waiting >= 1
  {
    assert t in Owners(tasks, c);
  }

  lemma OwnerIsCountedInAll(s: State, tasks: Tasks, t: nat)
    requires Accounts(s, tasks) && t in tasks
    ensures forall c :: Unit(t in tasks && Owns(tasks[t], c)) <= |Owners(tasks, c)|
    ensures Owns(tasks[t], Live) ==> s.live >= |s.idle| + 1
    ensures Owns(tasks[t], InFlight) ==> s.inFlight >= 1
    ensures Owns(tasks[t], CreatingNow) ==> s.creating >= 1
    ensures Owns(tasks[t], Waiting) ==> s.waiting >= 1
  {
    forall c ensures Unit(t in tasks && Owns(tasks[t], c)) <= |Owners(tasks, c)| {
      if Owns(tasks[t], c) {
        OwnerIsCounted(s, tasks, t, c);
      }
    }
    forall c | Owns(tasks[t], c)
      ensures c.Live? ==> s.live >= |s.idle| + 1
      ensures c.InFlight? ==> s.inFlight >= 1
      ensures c.CreatingNow? ==> s.creating >= 1
      ensures c.Waiting? ==> s.waiting >= 1
    {
      OwnerIsCounted(s, tasks, t, c);
    }
  }

  ghost predicate Conserved(sys: System, o: Options) { Accounts(sys.pool, sys.tasks) && WithinLimits(sys.pool, o) }

  lemma PruneKeeps(s: State, tasks: Tasks, now: nat, o: Options)
    requires Accounts(s, tasks) && WithinLimits(s, o)
    ensures Accounts(Prune(s, now, o), tasks) && WithinLimits(Prune(s, now, o), o)
    ensures Prune(s, now, o).live == s.live - (|s.idle| - |Prune(s, now, o).idle|)
  {
  }

  /** What one admission does to the counters, as the phase it leads to requires. */
  lemma AdmitBalances(s: State, o: Options, entered: bool, now: nat, policy: Policy)
    requires s.live >= |s.idle| && (entered ==> s.waiting >= 1)
    requires WithinLimits(s, o)
    ensures
      var (s', entered', action) := Admit(s, o, entered, now);
      var p := AfterAdmit(entered', action, policy);
      && s'.live - |s'.idle| == s.live - |s.idle| + Unit(Owns(p, Live))
      && s'.inFlight == s.inFlight + Unit(Owns(p, InFlight))
      && s'.creating == s.creating + Unit(Owns(p, CreatingNow))
      && s'.waiting == s.waiting + Unit(Owns(p, Waiting)) - Unit(entered)
      && WithinLimits(s', o)
  {
  }

  lemma TryAdmitKeeps(sys: System, o: Options, t: nat, now: nat)
    requires Conserved(sys, o) && Enabled(sys, TryAdmit(t, now))
    ensures Conserved(Apply(sys, o, TryAdmit(t, now)), o)
  {
    OwnerIsCountedInAll(sys.pool, sys.tasks, t);
    AdmitBalances(sys.pool, o, sys.tasks[t].entered, now, sys.tasks[t].policy);
    var sys' := Apply(sys, o, TryAdmit(t, now));
    BooksAfter(sys.pool, sys.tasks, sys'.pool, t, sys'.tasks[t]);
  }

  lemma StartKeeps(sys: System, o: Options, step: Step)
    requires Conserved(sys, o) && Enabled(sys, step)
    requires step.StartAcquire? || step.StartOpening? || step.StartDirect? || step.StartIdle? || step.StartWarm?
    ensures Conserved(Apply(sys, o, step), o)
  {
    var now := if step.StartDirect? || step.StartIdle? then step.now else 0;
    var s := if step.StartDirect? || step.StartIdle? then Prune(sys.pool, now, o) else sys.pool;
    PruneKeeps(sys.pool, sys.tasks, now, o);
    var sys' := Apply(sys, o, step);
    BooksAfter(s, sys.tasks, sys'.pool, step.t, sys'.tasks[step.t]);
  }

  lemma OperationKeeps(sys: System, o: Options, step: Step)
    requires Conserved(sys, o) && Enabled(sys, step) && (step.OperationFails? || step.OperationSucceeds?)
    ensures Conserved(Apply(sys, o, step), o)
  {
    OwnerIsCountedInAll(sys.pool, sys.tasks, step.t);
    var sys' := Apply(sys, o, step);
    BooksAfter(sys.pool, sys.tasks, sys'.pool, step.t, sys'.tasks[step.t]);
  }

  lemma QueueKeeps(sys: System, o: Options, step: Step)
    requires Conserved(sys, o) && Enabled(sys, step) && (step.TryOpen? || step.Abandon? || step.CancelOne?)
    ensures Conserved(Apply(sys, o, step), o)
  {
    OwnerIsCountedInAll(sys.pool, sys.tasks, step.t);
    var sys' := Apply(sys, o, step);
    BooksAfter(sys.pool, sys.tasks, sys'.pool, step.t, sys'.tasks[step.t]);
  }

  lemma LeaseKeeps(sys: System, o: Options, step: Step)
    requires Conserved(sys, o) && Enabled(sys, step)
    requires step.RunRegister? || step.RunFinish? || step.DropLease? || step.Settle?
    ensures Conserved(Apply(sys, o, step), o)
  {
    OwnerIsCountedInAll(sys.pool, sys.tasks, step.t);
    var sys' := Apply(sys, o, step);
    BooksAfter(sys.pool, sys.tasks, sys'.pool, step.t, sys'.tasks[step.t]);
  }

  lemma DrainKeeps(sys: System, o: Options, step: Step)
    requires Conserved(sys, o) && Enabled(sys, step) && (step.StartDrain? || step.RunDrain?)
    ensures Conserved(Apply(sys, o, step), o)
  {
    var sys' := Apply(sys, o, step);
    BooksAfter(sys.pool, sys.tasks, sys'.pool, step.t, sys'.tasks[step.t]);
  }

  lemma StepConserves(sys: System, o: Options, step: Step)
    requires Conserved(sys, o) && Enabled(sys, step)
    ensures Conserved(Apply(sys, o, step), o)
  {
    match step
    case TryAdmit(t, now) => TryAdmitKeeps(sys, o, t, now);
    case StartAcquire(_, _) => StartKeeps(sys, o, step);
    case StartOpening(_) => StartKeeps(sys, o, step);
    case StartDirect(_, _, _) => StartKeeps(sys, o, step);
    case StartIdle(_, _, _, _) => StartKeeps(sys, o, step);
    case StartWarm(_) => StartKeeps(sys, o, step);
    case StartDrain(_, _) => DrainKeeps(sys, o, step);
    case RunDrain(_, _) => DrainKeeps(sys, o, step);
    case PruneNow(now) => PruneKeeps(sys.pool, sys.tasks, now, o);
    case DiscardOne(_) =>
    case CloseNow =>
    case PauseNow(_) =>
    case ResumeNow =>
    case OperationFails(_) => OperationKeeps(sys, o, step);
    case OperationSucceeds(_, _, _) => OperationKeeps(sys, o, step);
    case TryOpen(_) => QueueKeeps(sys, o, step);
    case Abandon(_) => QueueKeeps(sys, o, step);
    case CancelOne(_, _) => QueueKeeps(sys, o, step);
    case _ => LeaseKeeps(sys, o, step);
  }

  /** Would one of the step's saturating subtractions stop short at zero? */
  predicate Saturates(sys: System, o: Options, step: Step)
    requires Enabled(sys, step)
  {
    var s := sys.pool;
    match step
    case TryAdmit(t, now) => PruneSaturates(s, o, now) || (sys.tasks[t].entered && s.waiting == 0)
    case StartDirect(_, _, now) => PruneSaturates(s, o, now)
    case StartIdle(_, _, _, now) => PruneSaturates(s, o, now)
    case PruneNow(now) => PruneSaturates(s, o, now)
    case Abandon(t) => Owns(sys.tasks[t], Waiting) && s.waiting == 0
    case TryOpen(t) => sys.tasks[t].entered && s.waiting == 0
    case OperationFails(t) =>
      || s.live == 0
      || (Owns(sys.tasks[t], InFlight) && s.inFlight == 0)
      || (Owns(sys.tasks[t], CreatingNow) && s.creating == 0)
    case OperationSucceeds(t, _, _) => sys.tasks[t].Warming? && (s.creating == 0 || s.live == 0)
    case RunFinish(_) => s.creating == 0
    case Settle(_, _) => s.inFlight == 0 || s.live == 0
    case DiscardOne(index) => index < |s.idle| && s.live == 0
    case CloseNow => s.live < |s.idle|
    case StartDrain(_, _) => s.live < |s.idle|
    case _ => false
  }

  predicate PruneSaturates(s: State, o: Options, now: nat) { s.live < |s.idle| - |Retain(s.idle, now, o)| }

  lemma NothingSaturates(sys: System, o: Options, step: Step)
    requires Conserved(sys, o) && Enabled(sys, step)
    ensures !Saturates(sys, o, step)
  {
    if step.TryAdmit? || step.TryOpen? || step.Abandon? || step.OperationFails?
       || step.OperationSucceeds? || step.RunFinish? || step.Settle? {
      OwnerIsCountedInAll(sys.pool, sys.tasks, step.t);
    }
  }

  // ----------------------------------------------------------------- cancellations

  ghost predicate Due(tasks: Tasks, token: nat) {
    exists d :: d in tasks && tasks[d].Cancelling? && token in tasks[d].due
  }

  /** The lease has been cancelled, or a drain has taken its token to cancel it next. */
  ghost predicate CancelledOrDue(sys: System, token: nat) { token in sys.cancelled || Due(sys.tasks, token) }

  predicate Reserved(p: Phase) { p.Finishing? || p.Leased? }

  /** The lease's registration is on the books, or its cancellation has been issued. */
  ghost predicate LeaseTracked(sys: System, t: nat)
    requires t in sys.tasks && Reserved(sys.tasks[t])
  {
    var p := sys.tasks[t];
    && (p.registration.Some? ==>
          && p.registration.value < sys.pool.nextActiveId
          && (p.registration.value in sys.pool.cancellations ==>
                sys.pool.cancellations[p.registration.value] == Active(p.policy, t)))
    && (!p.policy.Preserve? ==>
          (p.registration.Some? && p.registration.value in sys.pool.cancellations) || CancelledOrDue(sys, t))
  }

  /** Only a lease that asked for it is ever signalled. */
  predicate MayBeSignalled(tasks: Tasks, token: nat) {
    token in tasks &&
    (tasks[token].Settling? || tasks[token].Done? || (Reserved(tasks[token]) && !tasks[token].policy.Preserve?))
  }

  ghost predicate CancellationInvariant(sys: System) {
    var s := sys.pool;
    && (forall t :: t in sys.tasks && Reserved(sys.tasks[t]) ==> LeaseTracked(sys, t))
    && (forall id :: id in s.cancellations ==>
          id < s.nextActiveId && MayBeSignalled(sys.tasks, s.cancellations[id].token)
          && s.cancellations[id].policy.CancelOnDrain?
          && (s.drainStarted.Some? ==> s.cancellations[id].policy.grace.Some?))
    && (forall x :: CancelledOrDue(sys, x) ==> MayBeSignalled(sys.tasks, x))
    && (forall d :: d in sys.tasks && sys.tasks[d].Cancelling? ==> s.drainStarted.Some?)
    && (s.drainStarted.None? ==> forall x :: !CancelledOrDue(sys, x))
  }

  lemma StillDue(tasks: Tasks, t: nat, p: Phase, x: nat)
    requires t in tasks && tasks[t].Cancelling? && x in tasks[t].due ==> p.Cancelling? && x in p.due
    ensures Due(tasks, x) ==> Due(tasks[t := p], x)
  {
    if Due(tasks, x) {
      var d :| d in tasks && tasks[d].Cancelling? && x in tasks[d].due;
      assert d in tasks[t := p] && tasks[t := p][d].Cancelling? && x in tasks[t := p][d].due;
    }
  }

  lemma NotNewlyDue(tasks: Tasks, t: nat, p: Phase, x: nat)
    requires !(p.Cancelling? && x in p.due)
    ensures Due(tasks[t := p], x) ==> Due(tasks, x)
  {
  }

  /** A future that neither holds a lease nor cancels leaves the registrations alone. */
  lemma QuietStepKeeps(sys: System, pool: State, t: nat, p: Phase)
    requires CancellationInvariant(sys)
    requires pool.cancellations == sys.pool.cancellations
    requires pool.nextActiveId == sys.pool.nextActiveId && pool.drainStarted == sys.pool.drainStarted
    requires !Reserved(p) && !p.Cancelling?
    requires t in sys.tasks ==>
      && !Reserved(sys.tasks[t]) && (sys.tasks[t].Cancelling? ==> sys.tasks[t].due == {})
      && (sys.tasks[t].Settling? || sys.tasks[t].Done? ==> p.Settling? || p.Done?)
    ensures CancellationInvariant(Goto(sys, pool, t, p))
  {
    var sys' := Goto(sys, pool, t, p);
    forall x ensures CancelledOrDue(sys', x) <==> CancelledOrDue(sys, x) {
      StillDue(sys.tasks, t, p, x);
      NotNewlyDue(sys.tasks, t, p, x);
    }
    forall u | u in sys'.tasks && Reserved(sys'.tasks[u]) ensures LeaseTracked(sys', u) {
      assert LeaseTracked(sys, u);
    }
  }

  lemma PoolStepKeeps(sys: System, pool: State)
    requires CancellationInvariant(sys)
    requires pool.cancellations == sys.pool.cancellations
    requires pool.nextActiveId == sys.pool.nextActiveId && pool.drainStarted == sys.pool.drainStarted
    ensures CancellationInvariant(sys.(pool := pool))
  {
    var sys' := sys.(pool := pool);
    forall u | u in sys'.tasks && Reserved(sys'.tasks[u]) ensures LeaseTracked(sys', u) {
      assert LeaseTracked(sys, u);
    }
    forall x ensures CancelledOrDue(sys', x) <==> CancelledOrDue(sys, x) {
    }
  }

  lemma RegisterKeeps(sys: System, o: Options, t: nat, now: nat)
    requires CancellationInvariant(sys) && Enabled(sys, RunRegister(t, now))
    ensures CancellationInvariant(Apply(sys, o, RunRegister(t, now)))
  {
    var sys' := Apply(sys, o, RunRegister(t, now));
    var p := sys'.tasks[t];
    var cancelNow := Register(sys.pool, sys.tasks[t].policy, t, now).1.cancelNow;
    forall x ensures CancelledOrDue(sys', x) <==> CancelledOrDue(sys, x) || (x == t && cancelNow) {
      StillDue(sys.tasks, t, p, x);
      NotNewlyDue(sys.tasks, t, p, x);
    }
    assert !CancelledOrDue(sys, t);
    forall u | u in sys'.tasks && Reserved(sys'.tasks[u]) ensures LeaseTracked(sys', u) {
      assert u != t ==> LeaseTracked(sys, u);
    }
  }

  lemma FinishKeeps(sys: System, o: Options, t: nat)
    requires CancellationInvariant(sys) && Enabled(sys, RunFinish(t))
    ensures CancellationInvariant(Apply(sys, o, RunFinish(t)))
  {
    var sys' := Apply(sys, o, RunFinish(t));
    forall x ensures CancelledOrDue(sys', x) <==> CancelledOrDue(sys, x) {
      StillDue(sys.tasks, t, sys'.tasks[t], x);
      NotNewlyDue(sys.tasks, t, sys'.tasks[t], x);
    }
    forall u | u in sys'.tasks && Reserved(sys'.tasks[u]) ensures LeaseTracked(sys', u) {
      assert LeaseTracked(sys, u);
    }
  }

  lemma DropLeaseKeeps(sys: System, o: Options, t: nat, discard: bool)
    requires CancellationInvariant(sys) && Enabled(sys, DropLease(t, discard))
    ensures CancellationInvariant(Apply(sys, o, DropLease(t, discard)))
  {
    var sys' := Apply(sys, o, DropLease(t, discard));
    assert LeaseTracked(sys, t);
    forall x ensures CancelledOrDue(sys', x) <==> CancelledOrDue(sys, x) {
      StillDue(sys.tasks, t, sys'.tasks[t], x);
      NotNewlyDue(sys.tasks, t, sys'.tasks[t], x);
    }
    forall u | u in sys'.tasks && Reserved(sys'.tasks[u]) ensures LeaseTracked(sys', u) {
      assert LeaseTracked(sys, u);
    }
  }

  lemma CancelOneKeeps(sys: System, o: Options, t: nat, token: nat)
    requires CancellationInvariant(sys) && Enabled(sys, CancelOne(t, token))
    ensures CancellationInvariant(Apply(sys, o, CancelOne(t, token)))
  {
    var sys' := Apply(sys, o, CancelOne(t, token));
    assert CancelledOrDue(sys, token);
    forall x ensures CancelledOrDue(sys', x) <==> CancelledOrDue(sys, x) {
      if x != token {
        StillDue(sys.tasks, t, sys'.tasks[t], x);
        if x !in sys'.tasks[t].due {
          NotNewlyDue(sys.tasks, t, sys'.tasks[t], x);
        } else {
          assert Due(sys.tasks, x);
        }
      }
    }
    forall u | u in sys'.tasks && Reserved(sys'.tasks[u]) ensures LeaseTracked(sys', u) {
      assert LeaseTracked(sys, u);
    }
  }

  /** Taking due tokens moves each from the books into the drain's hands. */
  lemma DrainTakes(sys: System, s: State, now: nat, t: nat)
    requires CancellationInvariant(sys) && sys.pool.cancellations == s.cancellations
    requires s.nextActiveId == sys.pool.nextActiveId && s.drainStarted.Some?
    requires t in sys.tasks ==> sys.tasks[t] == Cancelling({})
    ensures
      var (s', due) := TakeDue(s, now);
      CancellationInvariant(Goto(sys, s', t, Cancelling(due)))
  {
    var (s', due) := TakeDue(s, now);
    var sys' := Goto(sys, s', t, Cancelling(due));
    forall x ensures CancelledOrDue(sys', x) <==> CancelledOrDue(sys, x) || x in due
             ensures x in due ==> MayBeSignalled(sys.tasks, x)
    {
      StillDue(sys.tasks, t, Cancelling(due), x);
      assert x in due ==> t in sys'.tasks && sys'.tasks[t].Cancelling? && x in sys'.tasks[t].due;
      if x !in due {
        NotNewlyDue(sys.tasks, t, Cancelling(due), x);
      }
    }
    forall u | u in sys'.tasks && Reserved(sys'.tasks[u]) ensures LeaseTracked(sys', u) {
      assert LeaseTracked(sys, u);
      var r := sys.tasks[u].registration;
      if r.Some? && r.value in s.cancellations && r.value !in s'.cancellations {
        assert s.cancellations[r.value].token == u;
      }
    }
  }

  lemma StepKeepsCancellations(sys: System, o: Options, step: Step)
    requires CancellationInvariant(sys) && Enabled(sys, step)
    ensures CancellationInvariant(Apply(sys, o, step))
  {
    match step
    case RunRegister(t, now) => RegisterKeeps(sys, o, t, now);
    case RunFinish(t) => FinishKeeps(sys, o, t);
    case DropLease(t, discard) => DropLeaseKeeps(sys, o, t, discard);
    case CancelOne(t, token) => CancelOneKeeps(sys, o, t, token);
    case StartDrain(t, now) => StartDrainKeeps(sys, o, t, now);
    case RunDrain(t, now) => RunDrainKeeps(sys, o, t, now);
    case DiscardOne(_) => PoolStepKeeps(sys, Apply(sys, o, step).pool);
    case PruneNow(_) => PoolStepKeeps(sys, Apply(sys, o, step).pool);
    case CloseNow => PoolStepKeeps(sys, Apply(sys, o, step).pool);
    case PauseNow(_) => PoolStepKeeps(sys, Apply(sys, o, step).pool);
    case ResumeNow => PoolStepKeeps(sys, Apply(sys, o, step).pool);
    case _ => OtherStepKeeps(sys, o, step);
  }

  lemma OtherStepKeeps(sys: System, o: Options, step: Step)
    requires CancellationInvariant(sys) && Enabled(sys, step)
    requires step.StartAcquire? || step.TryAdmit? || step.StartOpening? || step.TryOpen?
        || step.Abandon? || step.StartDirect? || step.StartIdle? || step.StartWarm?
          || step.OperationFails? || step.OperationSucceeds? || step.Settle?
    ensures CancellationInvariant(Apply(sys, o, step))
  {
    QuietStepKeeps(sys, Apply(sys, o, step).pool, step.t, Apply(sys, o, step).tasks[step.t]);
  }

  lemma StartDrainKeeps(sys: System, o: Options, t: nat, now: nat)
    requires CancellationInvariant(sys) && Enabled(sys, StartDrain(t, now))
    ensures CancellationInvariant(Apply(sys, o, StartDrain(t, now)))
  {
    var s := sys.pool;
    var started := if s.drainStarted.Some? then s.drainStarted.value else now;
    var s1 := DropIdle(s.(status := if s.status.Closed? then Closed else Draining, drainStarted := Some(started)));
    DrainTakes(sys, s1, started, t);
  }

  lemma RunDrainKeeps(sys: System, o: Options, t: nat, now: nat)
    requires CancellationInvariant(sys) && Enabled(sys, RunDrain(t, now))
    ensures CancellationInvariant(Apply(sys, o, RunDrain(t, now)))
  {
    if sys.pool.live == 0 {
      QuietStepKeeps(sys, sys.pool.(status := Closed), t, Drained);
    } else {
      DrainTakes(sys, sys.pool, now, t);
    }
  }

  // --------------------------------------------------------------- the whole invariant

  ghost predicate Invariant(sys: System, o: Options) { Conserved(sys, o) && CancellationInvariant(sys) }

  /** Every critical section keeps the books and the registrations, and subtracts only what
      is there. */
  lemma StepKeepsInvariant(sys: System, o: Options, step: Step)
    requires Invariant(sys, o) && Enabled(sys, step)
    ensures Invariant(Apply(sys, o, step), o) && !Saturates(sys, o, step)
  {
    StepConserves(sys, o, step);
    StepKeepsCancellations(sys, o, step);
    NothingSaturates(sys, o, step);
  }

  lemma EmptyIsInvariant(o: Options)
    requires ValidOptions(o)
    ensures Invariant(System(Empty, map[], {}), o)
  {
    forall c ensures Owners(map[], c) == {} {
    }
  }

  predicate NothingLive(s: State) {
    s.status.Closed? && s.live == 0 && s.idle == [] && s.creating == 0 && s.inFlight == 0
  }

  lemma NothingLiveIsEnough(sys: System, o: Options)
    requires Conserved(sys, o) && sys.pool.live == 0
    ensures sys.pool.idle == [] && sys.pool.creating == 0 && sys.pool.inFlight == 0
    ensures forall t :: t in sys.tasks ==> !Owns(sys.tasks[t], Live)
  {
    assert Owners(sys.tasks, Live) == {};
    forall t | t in sys.tasks ensures !Owns(sys.tasks[t], Live) {
      assert t !in Owners(sys.tasks, Live);
    }
    assert Owners(sys.tasks, CreatingNow) == {} == Owners(sys.tasks, InFlight);
  }

  // --------------------------------------------------------------------- admission

  /** Expiry is by whichever limit is reached first. */
  lemma ExpiredIff(e: Entry, now: nat, o: Options)
    ensures Expired(e, now, o) <==>
      || (o.idleTimeout.Some? && e.idleSince + o.idleTimeout.value <= now)
      || (o.maxLifetime.Some? && e.createdAt + o.maxLifetime.value <= now)
  {
  }

  /** `k` is the first idle client that has not expired. */
  predicate FirstFresh(idle: seq<Entry>, now: nat, o: Options, k: nat) {
    k < |idle| && !Expired(idle[k], now, o) && forall j :: 0 <= j < k ==> Expired(idle[j], now, o)
  }

  lemma {:induction false} RetainFindsFirstFresh(idle: seq<Entry>, now: nat, o: Options) returns (k: nat)
    ensures Retain(idle, now, o) == [] ==> forall j: nat :: !FirstFresh(idle, now, o, j)
    ensures Retain(idle, now, o) != [] ==> FirstFresh(idle, now, o, k) && Retain(idle, now, o)[0] == idle[k]
  {
    k := 0;
    if idle != [] && Expired(idle[0], now, o) {
      var rest := RetainFindsFirstFresh(idle[1..], now, o);
      assert forall j :: 0 < j < |idle| ==> idle[j] == idle[1..][j - 1];
      if Retain(idle, now, o) == [] {
        forall j: nat ensures !FirstFresh(idle, now, o, j) {
          assert j > 0 ==> !FirstFresh(idle[1..], now, o, j - 1);
        }
      }
      k := rest + 1;
    }
  }

  lemma FirstFreshIsUnique(idle: seq<Entry>, now: nat, o: Options, j: nat, k: nat)
    requires FirstFresh(idle, now, o, j) && FirstFresh(idle, now, o, k)
    ensures j == k
  {
  }

  /** What an open, paused or closed pool answers, and when: an expired client is never
      handed out, a client is created only when no fresh one is idle, and a request is
      refused for the queue only when it would have to wait. */
  lemma AdmitDecides(s: State, o: Options, entered: bool, now: nat)
    ensures
      var action := Admit(s, o, entered, now).2;
      var reusable := exists k: nat :: FirstFresh(s.idle, now, o, k);
      var free := s.status.Open? && s.inFlight < o.maxConcurrency;
      var room := Sat(s.live, |s.idle|) < o.maxLive;
      && (action.RefuseClosed? <==> s.status.Draining? || s.status.Closed?)
      && (action.Reuse? <==> free && reusable)
      && (action.Reuse? ==> forall k: nat :: FirstFresh(s.idle, now, o, k) ==> action.entry == s.idle[k])
      && (action.Create? <==> free && !reusable && room)
      && (action.Wait? || action.RefuseFull? <==> s.status.Paused? || (s.status.Open? && !(free && (reusable || room))))
      && (action.RefuseFull? ==> !entered && s.waiting >= o.maxWaiting)
  {
    var first := RetainFindsFirstFresh(s.idle, now, o);
    forall k: nat ensures FirstFresh(s.idle, now, o, k) ==> k == first {
      if FirstFresh(s.idle, now, o, k) {
        FirstFreshIsUnique(s.idle, now, o, k, first);
      }
    }
  }
}
