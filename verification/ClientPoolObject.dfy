/** The client pool's shared state as the object its methods change under the mutex
    (`client-pool/src/pool.rs`).  Each method is one critical section, run on behalf of the
    future that owns what it gives back: it is the step of that future in `ClientPool`, it
    keeps the invariant of whole executions, and it subtracts only what is there. */
module ClientPoolObject {

  import opened Wrappers
  import opened P = ClientPool

  /** Where the caller's predicate first matches, or past the end. */
  function FirstMatch(idle: seq<Entry>, wanted: nat -> bool): (i: nat)
    ensures i <= |idle|
    ensures i < |idle| ==> wanted(idle[i].client)
    ensures forall j :: 0 <= j < i ==> !wanted(idle[j].client)
  {
    if idle == [] || wanted(idle[0].client) then 0 else 1 + FirstMatch(idle[1..], wanted)
  }

  lemma {:induction false} RetainStep(idle: seq<Entry>, i: nat, now: nat, o: Options)
    requires i < |idle|
    ensures Retain(idle[..i + 1], now, o) ==
      Retain(idle[..i], now, o) + if Expired(idle[i], now, o) then [] else [idle[i]]
  {
    if i > 0 {
      RetainStep(idle[1..], i - 1, now, o);
      assert idle[1..][..i] == idle[..i + 1][1..] && idle[1..][..i - 1] == idle[..i][1..];
    } else {
      assert idle[..1] == [idle[0]] && idle[..1][1..] == [];
    }
  }

  lemma {:induction false} RetainedIsFresh(idle: seq<Entry>, now: nat, o: Options)
    ensures forall e :: e in Retain(idle, now, o) <==> e in idle && !Expired(e, now, o)
  {
    if idle != [] {
      RetainedIsFresh(idle[1..], now, o);
      assert forall e :: e in idle <==> e == idle[0] || e in idle[1..];
    }
  }

  /** A lease about to be registered has no cancellation on its way. */
  lemma TokenIsNew(sys: System, t: nat)
    requires CancellationInvariant(sys) && t in sys.tasks && sys.tasks[t].Registering?
    ensures t !in sys.cancelled && sys.pool.nextActiveId !in sys.pool.cancellations
  {
    assert !CancelledOrDue(sys, t);
  }

  /** A lease's own registration carries its own token. */
  lemma OnlyItsOwn(sys: System, t: nat)
    requires CancellationInvariant(sys) && t in sys.tasks && sys.tasks[t].Leased?
    ensures
      var r := sys.tasks[t].registration;
      r.Some? && r.value in sys.pool.cancellations ==> sys.pool.cancellations[r.value].token == t
  {
    assert LeaseTracked(sys, t);
  }

  /** No operation hands out, creates or reserves a client in this state. */
  ghost predicate AdmitsNobody(s: State, o: Options) {
    && (forall entered, now: nat :: var action := Admit(s, o, entered, now).2; !action.Reuse? && !action.Create?)
    && (forall now: nat :: CreateDirectly(s, o, now).1.NotOpen?)
    && (forall index: nat, now: nat :: AcquireIdle(s, o, index, now).1.None?)
    && !ReserveWarm(s, o).1
  }

  lemma ShutAdmitsNobody(s: State, o: Options)
    requires !s.status.Open?
    ensures AdmitsNobody(s, o)
  {
  }

  class Pool {
    const o: Options
    var idle: seq<Entry>
    var live: nat
    var creating: nat
    var waiting: nat
    var inFlight: nat
    var status: PoolState
    var nextActiveId: nat
    var drainStarted: Option<nat>
    var cancellations: map<nat, Active>
    /** The futures around the pool, and the leases whose cancellation was issued. */
    ghost var tasks: Tasks
    ghost var cancelled: set<nat>

    function Snapshot(): State
      reads this
    {
      State(idle, live, creating, waiting, inFlight, status, nextActiveId, drainStarted, cancellations)
    }

    ghost function Sys(): System
      reads this
    {
      System(Snapshot(), tasks, cancelled)
    }

    ghost predicate Valid()
      reads this
    {
      Invariant(Sys(), o)
    }

    constructor (options: Options)
      requires ValidOptions(options)
      ensures Valid() && o == options && Sys() == System(Empty, map[], {})
    {
      o := options;
      idle, live, creating, waiting, inFlight := [], 0, 0, 0, 0;
      status, nextActiveId, drainStarted, cancellations := Open, 0, None, map[];
      tasks, cancelled := map[], {};
      EmptyIsInvariant(options);
    }

    /** Move the futures on by one step of theirs. */
    ghost method Account(step: Step)
      requires Valid() && Enabled(Sys(), step)
      modifies `tasks, `cancelled
      ensures System(Snapshot(), tasks, cancelled) == P.Apply(old(Sys()), o, step).(pool := Snapshot())
      ensures Invariant(P.Apply(old(Sys()), o, step), o)
    {
      StepKeepsInvariant(Sys(), o, step);
      var next := P.Apply(Sys(), o, step);
      tasks, cancelled := next.tasks, next.cancelled;
    }

    method Take(n: nat)
      modifies `live
      ensures live == Sat(old(live), n)
    {
      live := if live >= n then live - n else 0;
    }

    /** The loop of every pruning, and of `retain`. */
    method PruneExpired(now: nat)
      modifies `idle, `live
      ensures Snapshot() == Prune(old(Snapshot()), now, o)
    {
      var kept: seq<Entry> := [];
      for i := 0 to |idle|
        invariant idle == old(idle) && live == old(live) && kept == Retain(idle[..i], now, o)
      {
        RetainStep(idle, i, now, o);
        if !Expired(idle[i], now, o) {
          kept := kept + [idle[i]];
        }
      }
      assert idle[..|idle|] == idle;
      var removed := |idle| - |kept|;
      idle := kept;
      Take(removed);
    }

    method EnterQueue(entered: bool) returns (nowEntered: bool, action: Action)
      modifies `waiting
      ensures (Snapshot(), nowEntered, action) == Enter(old(Snapshot()), o, entered)
    {
      if entered {
        return true, Wait;
      }
      if waiting >= o.maxWaiting {
        return false, RefuseFull;
      }
      waiting := waiting + 1;
      return true, Wait;
    }

    method LeaveQueue(entered: bool)
      modifies `waiting
      ensures Snapshot() == P.Leave(old(Snapshot()), entered)
    {
      if entered {
        waiting := Sat(waiting, 1);
      }
    }

    method Position(wanted: nat -> bool) returns (i: nat)
      ensures i == FirstMatch(idle, wanted)
    {
      i := 0;
      while i < |idle| && !wanted(idle[i].client)
        invariant i <= |idle| && forall j :: 0 <= j < i ==> !wanted(idle[j].client)
      {
        i := i + 1;
      }
    }

    method DropAllIdle()
      modifies `idle, `live
      ensures Snapshot() == DropIdle(old(Snapshot()))
    {
      var count := |idle|;
      idle := [];
      Take(count);
    }

    method TakeDueCancellations(now: nat) returns (due: set<nat>)
      modifies `cancellations
      ensures (Snapshot(), due) == TakeDue(old(Snapshot()), now)
    {
      due := {};
      if drainStarted.None? {
        return;
      }
      var started := drainStarted.value;
      ghost var before := cancellations;
      var ids := cancellations.Keys;
      while ids != {}
        invariant ids <= before.Keys
        invariant forall id :: id in cancellations <==>
          id in before && (id in ids || !IsDue(before[id].policy, started, now))
        invariant forall id :: id in cancellations ==> cancellations[id] == before[id]
        invariant due ==
          set id | id in before && id !in ids && IsDue(before[id].policy, started, now) :: before[id].token
        decreases |ids|
      {
        var id :| id in ids;
        ids := ids - {id};
        if IsDue(cancellations[id].policy, started, now) {
          due := due + {cancellations[id].token};
          cancellations := cancellations - {id};
        }
      }
      assert cancellations == TakeDue(old(Snapshot()), now).0.cancellations;
      assert due == TakeDue(old(Snapshot()), now).1;
    }

    // ------------------------------------------------------------------ admission

    /** The body of the acquire loop that runs under the mutex. */
    method AdmitLocked(entered: bool, now: nat) returns (nowEntered: bool, action: Action)
      modifies `idle, `live, `creating, `waiting, `inFlight
      ensures (Snapshot(), nowEntered, action) == Admit(old(Snapshot()), o, entered, now)
    {
      PruneExpired(now);
      match status
      case Draining => return entered, RefuseClosed;
      case Closed => return entered, RefuseClosed;
      case Paused(_) => nowEntered, action := EnterQueue(entered);
      case Open =>
        if inFlight >= o.maxConcurrency {
          nowEntered, action := EnterQueue(entered);
        } else if idle != [] {
          var entry := idle[0];
          idle := idle[1..];
          inFlight := inFlight + 1;
          LeaveQueue(entered);
          return false, Reuse(entry);
        } else if live < o.maxLive {
          live, creating, inFlight := live + 1, creating + 1, inFlight + 1;
          LeaveQueue(entered);
          return false, Create;
        } else {
          nowEntered, action := EnterQueue(entered);
        }
    }

    /** One turn of the acquire loop, and what the future owes after it. */
    method TryAdmit(ghost t: nat, entered: bool, now: nat) returns (nowEntered: bool, action: Action)
      requires Valid() && t in tasks && tasks[t].Admitting? && tasks[t].entered == entered
      modifies this
      ensures Valid() && Sys() == P.Apply(old(Sys()), o, Step.TryAdmit(t, now))
      ensures tasks[t] == AfterAdmit(nowEntered, action, old(tasks)[t].policy)
      ensures action == Admit(old(Snapshot()), o, entered, now).2
    {
      Account(Step.TryAdmit(t, now));
      nowEntered, action := AdmitLocked(entered, now);
    }

    /** The body of the wait for a paused pool to open, and whether to wait again. */
    method TryOpen(ghost t: nat, entered: bool) returns (wait: bool)
      requires Valid() && t in tasks && tasks[t] == Opening(entered)
      modifies this
      ensures Valid() && Sys() == P.Apply(old(Sys()), o, Step.TryOpen(t))
      ensures wait <==> tasks[t].Opening?
      ensures wait <==> status.Paused? && (entered || old(waiting) < o.maxWaiting)
      ensures waiting == old(waiting) + Unit(wait && !entered) - Unit(status.Open? && entered)
    {
      NothingSaturates(Sys(), o, Step.TryOpen(t));
      Account(Step.TryOpen(t));
      match status
      case Open =>
        LeaveQueue(entered);
        wait := false;
      case Paused(_) =>
        var _, action := EnterQueue(entered);
        wait := action.Wait?;
      case _ => wait := false;
    }

    /** A queued future dropped at any await, or leaving with an error. */
    method DropWaiter(ghost t: nat, entered: bool)
      requires Valid() && Enabled(Sys(), Abandon(t)) && entered == Owns(tasks[t], Waiting)
      modifies this
      ensures Valid() && Sys() == P.Apply(old(Sys()), o, Abandon(t))
      ensures waiting == old(waiting) - Unit(entered)
    {
      NothingSaturates(Sys(), o, Abandon(t));
      Account(Abandon(t));
      LeaveQueue(entered);
    }

    method CreateLocked(now: nat) returns (r: Direct)
      modifies `idle, `live, `creating, `inFlight
      ensures (Snapshot(), r) == CreateDirectly(old(Snapshot()), o, now)
    {
      PruneExpired(now);
      if !status.Open? {
        return NotOpen;
      }
      if live >= o.maxLive || inFlight >= o.maxConcurrency {
        return AtCapacity;
      }
      live, creating, inFlight := live + 1, creating + 1, inFlight + 1;
      return Admitted;
    }

    method CreateNow(ghost t: nat, ghost policy: Policy, now: nat) returns (r: Direct)
      requires Valid() && t !in tasks
      modifies this
      ensures Valid() && Sys() == P.Apply(old(Sys()), o, StartDirect(t, policy, now))
      ensures r == CreateDirectly(old(Snapshot()), o, now).1
      ensures tasks[t] == if r.Admitted? then Creating(policy) else Phase.Done
    {
      Account(StartDirect(t, policy, now));
      r := CreateLocked(now);
    }

    method TakeFirst(wanted: nat -> bool) returns (r: Option<Entry>)
      modifies `idle, `inFlight
      ensures (Snapshot(), r) == TakeIdle(old(Snapshot()), o, FirstMatch(old(idle), wanted))
    {
      if !status.Open? || inFlight >= o.maxConcurrency {
        return None;
      }
      var i := Position(wanted);
      if i == |idle| {
        return None;
      }
      r := Some(idle[i]);
      inFlight := inFlight + 1;
      idle := idle[..i] + idle[i + 1..];
    }

    method AcquireIdleLocked(wanted: nat -> bool, now: nat) returns (r: Option<Entry>)
      modifies `idle, `live, `inFlight
      ensures (Snapshot(), r) == AcquireIdle(old(Snapshot()), o, FirstMatch(Retain(old(idle), now, o), wanted), now)
    {
      PruneExpired(now);
      r := TakeFirst(wanted);
    }

    method AcquireIdleWhere(ghost t: nat, ghost policy: Policy, wanted: nat -> bool, now: nat)
      returns (r: Option<Entry>)
      requires Valid() && t !in tasks
      modifies this
      ensures
        var i := FirstMatch(Retain(old(idle), now, o), wanted);
        && Sys() == P.Apply(old(Sys()), o, StartIdle(t, policy, i, now))
        && r == AcquireIdle(old(Snapshot()), o, i, now).1
      ensures Valid() && tasks[t] == if r.Some? then Recycling(r.value, policy) else Phase.Done
      ensures r.Some? ==> wanted(r.value.client) && !Expired(r.value, now, o)
    {
      RetainedIsFresh(idle, now, o);
      Account(StartIdle(t, policy, FirstMatch(Retain(idle, now, o), wanted), now));
      r := AcquireIdleLocked(wanted, now);
    }

    method DiscardIdleWhere(wanted: nat -> bool) returns (discarded: bool)
      requires Valid()
      modifies this
      ensures Valid() && Sys() == P.Apply(old(Sys()), o, DiscardOne(FirstMatch(old(idle), wanted)))
      ensures discarded <==> exists i :: 0 <= i < |old(idle)| && wanted(old(idle)[i].client)
      ensures live == old(live) - Unit(discarded) && |idle| == |old(idle)| - Unit(discarded)
    {
      NothingSaturates(Sys(), o, DiscardOne(FirstMatch(idle, wanted)));
      Account(DiscardOne(FirstMatch(idle, wanted)));
      var i := Position(wanted);
      if i == |idle| {
        return false;
      }
      idle := idle[..i] + idle[i + 1..];
      Take(1);
      return true;
    }

    /** `prune_now`: expired idle clients leave, and live falls by exactly as many. */
    method PruneNow(now: nat)
      requires Valid()
      modifies this
      ensures Valid() && Sys() == P.Apply(old(Sys()), o, Step.PruneNow(now))
      ensures live == old(live) - (|old(idle)| - |idle|)
      ensures forall e :: e in idle <==> e in old(idle) && !Expired(e, now, o)
    {
      RetainedIsFresh(idle, now, o);
      NothingSaturates(Sys(), o, Step.PruneNow(now));
      Account(Step.PruneNow(now));
      PruneExpired(now);
    }

    // --------------------------------------------------- creations, leases, returns

    method ReserveWarmCreate(ghost t: nat) returns (reserved: bool)
      requires Valid() && t !in tasks
      modifies this
      ensures Valid() && Sys() == P.Apply(old(Sys()), o, StartWarm(t))
      ensures reserved <==> tasks[t].Warming?
      ensures reserved ==> |idle| + creating <= o.minIdle && live <= o.maxLive && inFlight == old(inFlight)
      ensures live == old(live) + Unit(reserved) && creating == old(creating) + Unit(reserved)
      ensures !reserved ==> !status.Open? || live == o.maxLive || |idle| + creating >= o.minIdle
    {
      Account(StartWarm(t));
      if !status.Open? || |idle| + creating >= o.minIdle || live >= o.maxLive {
        return false;
      }
      live, creating := live + 1, creating + 1;
      return true;
    }

    /** A creation leased out, failed, interrupted or dropped: it gives back exactly what the
        reservation took, unless the lease keeps it. */
    method FinishCreation(ghost t: nat, succeeded: bool, admitted: bool)
      requires Valid() && t in tasks && (admitted <==> Owns(tasks[t], InFlight))
      requires if succeeded then tasks[t].Finishing? else tasks[t].Creating? || tasks[t].Warming?
      modifies this
      ensures Valid()
      ensures Sys() == P.Apply(old(Sys()), o, if succeeded then RunFinish(t) else OperationFails(t))
      ensures creating == old(creating) - 1 && idle == old(idle) && waiting == old(waiting)
      ensures live == old(live) - Unit(!succeeded)
      ensures inFlight == old(inFlight) - Unit(!succeeded && admitted)
    {
      NothingSaturates(Sys(), o, if succeeded then RunFinish(t) else OperationFails(t));
      Account(if succeeded then RunFinish(t) else OperationFails(t));
      creating := Sat(creating, 1);
      if !succeeded {
        Take(1);
        if admitted {
          inFlight := Sat(inFlight, 1);
        }
      }
    }

    method FinishWarmCreation(ghost t: nat, client: nat, now: nat)
      requires Valid() && t in tasks && tasks[t].Warming?
      modifies this
      ensures Valid() && Sys() == P.Apply(old(Sys()), o, OperationSucceeds(t, client, now))
      ensures creating == old(creating) - 1 && inFlight == old(inFlight)
      ensures live - |idle| == old(live) - |old(idle)| - 1
      ensures Entry(client, now, now) in idle || live == old(live) - 1
      ensures live == old(live) - 1 <==> status.Draining? || status.Closed? || |old(idle)| == o.maxIdle
    {
      NothingSaturates(Sys(), o, OperationSucceeds(t, client, now));
      Account(OperationSucceeds(t, client, now));
      creating := Sat(creating, 1);
      if status.Draining? || status.Closed? || |idle| >= o.maxIdle {
        Take(1);
      } else {
        idle := idle + [Entry(client, now, now)];
      }
    }

    /** The client of a failed recycling, or of a lease given up, is gone. */
    method Retire(ghost t: nat)
      requires Valid() && t in tasks && (tasks[t].Recycling? || (tasks[t].Settling? && tasks[t].discard))
      modifies this
      ensures Valid()
      ensures Sys() == P.Apply(old(Sys()), o, if old(tasks)[t].Recycling? then OperationFails(t) else Settle(t, 0))
      ensures live == old(live) - 1 && inFlight == old(inFlight) - 1
      ensures idle == old(idle) && creating == old(creating) && waiting == old(waiting)
    {
      NothingSaturates(Sys(), o, if tasks[t].Recycling? then OperationFails(t) else Settle(t, 0));
      Account(if tasks[t].Recycling? then OperationFails(t) else Settle(t, 0));
      Take(1);
      inFlight := Sat(inFlight, 1);
    }

    /** The client of a dropped lease goes back to the queue, or is gone; the concurrency
        slot is free either way. */
    method Return(ghost t: nat, entry: Entry, now: nat)
      requires Valid() && t in tasks && tasks[t] == Settling(entry, false)
      modifies this
      ensures Valid() && Sys() == P.Apply(old(Sys()), o, Settle(t, now))
      ensures inFlight == old(inFlight) - 1 && live - |idle| == old(live) - |old(idle)| - 1
      ensures
        var kept := (status.Open? || status.Paused?) && |old(idle)| < o.maxIdle && !Expired(entry, now, o);
        && live == old(live) - Unit(!kept)
        && idle == old(idle) + if kept then [Entry(entry.client, entry.createdAt, now)] else []
    {
      NothingSaturates(Sys(), o, Settle(t, now));
      Account(Settle(t, now));
      inFlight := Sat(inFlight, 1);
      if (status.Open? || status.Paused?) && |idle| < o.maxIdle && !Expired(entry, now, o) {
        idle := idle + [entry.(idleSince := now)];
      } else {
        Take(1);
      }
    }

    // -------------------------------------------------------------------- status

    method CloseAdmission()
      requires Valid()
      modifies this
      ensures Valid() && Sys() == P.Apply(old(Sys()), o, CloseNow)
      ensures AdmitsNobody(Snapshot(), o) && status.Closed?
      ensures idle == [] && live == old(live) - |old(idle)| && live == |Owners(tasks, Live)|
    {
      NothingSaturates(Sys(), o, CloseNow);
      Account(CloseNow);
      status := Closed;
      DropAllIdle();
    }

    method PauseAdmission(reason: string)
      requires Valid()
      modifies this
      ensures Valid() && Sys() == P.Apply(old(Sys()), o, PauseNow(reason))
      ensures AdmitsNobody(Snapshot(), o)
      ensures Snapshot() == old(Snapshot()).(status := status)
      ensures status == Paused(reason) || (status == old(status) && (status.Draining? || status.Closed?))
    {
      Account(PauseNow(reason));
      if status.Open? || status.Paused? {
        status := Paused(reason);
      }
    }

    method ResumeAdmission() returns (resumed: bool)
      requires Valid()
      modifies this
      ensures Valid() && Sys() == P.Apply(old(Sys()), o, ResumeNow)
      ensures resumed <==> old(status).Paused?
      ensures Snapshot() == old(Snapshot()).(status := if resumed then Open else old(status))
    {
      Account(ResumeNow);
      if !status.Paused? {
        return false;
      }
      status := Open;
      return true;
    }

    // --------------------------------------------------------------- cancellations

    method RegisterLocked(policy: Policy, token: nat, now: nat) returns (r: Registration)
      modifies `nextActiveId, `cancellations
      ensures (Snapshot(), r) == P.Register(old(Snapshot()), policy, token, now)
    {
      if policy.Preserve? {
        return Registration(None, false);
      }
      var id := nextActiveId;
      nextActiveId := nextActiveId + 1;
      if drainStarted.Some? && IsDue(policy, drainStarted.value, now) {
        return Registration(None, true);
      }
      cancellations := cancellations[id := Active(policy, token)];
      return Registration(Some(id), false);
    }

    /** A lease that may be cancelled is on the books under an id of its own, or its
        cancellation is issued at once. */
    method RegisterActive(ghost t: nat, policy: Policy, token: nat, now: nat) returns (r: Registration)
      requires Valid() && t in tasks && tasks[t].Registering? && tasks[t].policy == policy && token == t
      modifies this
      ensures Valid() && Sys() == P.Apply(old(Sys()), o, RunRegister(t, now))
      ensures Reserved(tasks[t]) && tasks[t].registration == r.id && LeaseTracked(Sys(), t)
      ensures r.id.Some? ==> r.id.value !in old(cancellations)
      ensures t in cancelled <==> r.cancelNow
      ensures r.cancelNow ==> drainStarted.Some? && IsDue(policy, drainStarted.value, now)
    {
      TokenIsNew(Sys(), t);
      Account(RunRegister(t, now));
      r := RegisterLocked(policy, token, now);
    }

    /** Every other lease keeps its registration. */
    method UnregisterActive(ghost t: nat, ghost discard: bool, registration: Option<nat>)
      requires Valid() && t in tasks && tasks[t].Leased? && tasks[t].registration == registration
      modifies this
      ensures Valid() && Sys() == P.Apply(old(Sys()), o, DropLease(t, discard))
      ensures cancellations.Keys == old(cancellations).Keys - if registration.Some? then {registration.value} else {}
      ensures forall id :: id in old(cancellations) && old(cancellations)[id].token != t ==> id in cancellations
    {
      OnlyItsOwn(Sys(), t);
      Account(DropLease(t, discard));
      if registration.Some? {
        cancellations := cancellations - {registration.value};
      }
    }

    method DrainLocked(now: nat) returns (due: set<nat>)
      modifies `idle, `live, `status, `drainStarted, `cancellations
      ensures (Snapshot(), due) == BeginDrain(old(Snapshot()), now)
    {
      if !status.Closed? {
        status := Draining;
      }
      if drainStarted.None? {
        drainStarted := Some(now);
      }
      var started := drainStarted.value;
      DropAllIdle();
      due := TakeDueCancellations(started);
    }

    method StartDrain(ghost t: nat, now: nat) returns (due: set<nat>)
      requires Valid() && t !in tasks
      modifies this
      ensures Valid() && Sys() == P.Apply(old(Sys()), o, Step.StartDrain(t, now))
      ensures tasks[t] == Cancelling(due) && AdmitsNobody(Snapshot(), o)
      ensures idle == [] && live == old(live) - |old(idle)|
      ensures drainStarted == Some(if old(drainStarted).Some? then old(drainStarted).value else now)
    {
      NothingSaturates(Sys(), o, Step.StartDrain(t, now));
      Account(Step.StartDrain(t, now));
      due := DrainLocked(now);
      ShutAdmitsNobody(Snapshot(), o);
    }

    method LookAtDrain(ghost t: nat, now: nat) returns (due: Option<set<nat>>)
      requires Valid() && t in tasks && tasks[t] == Cancelling({})
      modifies this
      ensures Valid() && Sys() == P.Apply(old(Sys()), o, RunDrain(t, now))
      ensures due.None? <==> old(live) == 0
      ensures due.None? ==> NothingLive(Snapshot()) && tasks[t].Drained?
      ensures due.Some? ==> tasks[t] == Cancelling(due.value)
    {
      if live == 0 {
        NothingLiveIsEnough(Sys(), o);
      }
      Account(RunDrain(t, now));
      if live == 0 {
        status := Closed;
        return None;
      }
      var taken := TakeDueCancellations(now);
      return Some(taken);
    }
  }
}
