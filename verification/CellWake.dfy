/** Waiting on a cell (`cell/src/wake.rs`, `cell/src/lib.rs`): a registered waiter parks on
    a saturating sequence word, separate from the value version that writers advance.
    One atomic operation is one step; any number of threads interleave freely. */
module CellWake {

  import opened Wrappers

  const U32_MAX: nat := 0xFFFF_FFFF

  /** How a wait ended. */
  datatype Answer = Changed | Interrupted | Stale | WakeExhausted

  /** Where a thread stands; the operation named is the one it performs next. */
  datatype Pc =
    // `wait_changed` (no flag) and `wait_changed_until` (a flag)
    | CheckInterrupt
    | CheckSlot
    | LoadVersion
    | Register
    | LoadSequence
    | RecheckVersion(observed: nat)
    | RecheckInterrupt(observed: nat)
    | Park(observed: nat)
    | Parked(observed: nat)
    | Deregister(pending: Option<Answer>)
    | Answered(answer: Answer)
    // a write, a release, and `interrupt.store` followed by `wake_waiters`
    | Retire
    | Bump
    | LoadWaiters
    | SetFlag(raised: nat)
    | CheckAlive
    | Notify
    | Wake
    | Finished

  /** `since` and `flag` are the arguments of a wait, `ahead` says that it began before the
      cell had reached that version; other threads ignore them. */
  datatype Thread = Thread(pc: Pc, since: nat, flag: Option<nat>, ahead: bool)

  datatype State = State(
    version: nat,
    sequence: nat,
    waiters: nat,
    retired: bool,
    flags: set<nat>,
    threads: map<nat, Thread>)

  const Initial := State(0, 0, 0, false, {}, map[])

  predicate Registered(pc: Pc) {
    pc.LoadSequence? || pc.RecheckVersion? || pc.RecheckInterrupt? || pc.Park? || pc.Parked? || pc.Deregister?
  }

  /** `try_update(checked_add(1))` whose failure is ignored: saturating, never wrapping. */
  function Saturate(sequence: nat): nat { if sequence < U32_MAX then sequence + 1 else sequence }

  function At(s: State, t: nat, pc: Pc): State
    requires t in s.threads
  {
    s.(threads := s.threads[t := s.threads[t].(pc := pc)])
  }

  /** The kernel wakes every thread parked on the word. */
  function WakeAll(threads: map<nat, Thread>): map<nat, Thread> {
    map t | t in threads :: if threads[t].pc.Parked? then threads[t].(pc := Deregister(None)) else threads[t]
  }

  predicate Runnable(s: State, t: nat) {
    t in s.threads && !s.threads[t].pc.Parked? && !s.threads[t].pc.Answered? && !s.threads[t].pc.Finished?
  }

  predicate FlagRaised(s: State, t: nat)
    requires t in s.threads
  {
    s.threads[t].flag.Some? && s.threads[t].flag.value in s.flags
  }

  /** One atomic step of thread `t`. */
  function Advance(s: State, t: nat): State
    requires Runnable(s, t)
  {
    var th := s.threads[t];
    match th.pc
    case CheckInterrupt => At(s, t, if FlagRaised(s, t) then Answered(Interrupted) else CheckSlot)
    case CheckSlot => At(s, t, if s.retired then Answered(Stale) else LoadVersion)
    case LoadVersion => At(s, t, if s.version != th.since then Answered(Changed) else Register)
    case Register => At(s.(waiters := s.waiters + 1), t, LoadSequence)
    case LoadSequence => At(s, t, RecheckVersion(s.sequence))
    case RecheckVersion(o) => At(s, t, if s.version != th.since then Deregister(None) else RecheckInterrupt(o))
    case RecheckInterrupt(o) =>
      At(s, t, if FlagRaised(s, t) then Deregister(None)
               else if o == U32_MAX then Deregister(Some(WakeExhausted))
               else Park(o))
    case Park(o) => At(s, t, if s.sequence == o then Parked(o) else Deregister(None))
    case Deregister(answer) =>
      At(s.(waiters := if s.waiters == 0 then U32_MAX else s.waiters - 1), t,
         match answer case None => CheckInterrupt case Some(a) => Answered(a))
    case Retire => At(s.(retired := true), t, Bump)
    case Bump => At(s.(version := s.version + 1), t, LoadWaiters)
    case LoadWaiters => At(s, t, if s.waiters != 0 then Notify else Finished)
    case SetFlag(i) => At(s.(flags := s.flags + {i}), t, CheckAlive)
    case CheckAlive => At(s, t, if s.retired then Finished else Notify)
    case Notify => At(s.(sequence := Saturate(s.sequence)), t, Wake)
    case Wake => At(s.(threads := WakeAll(s.threads)), t, Finished)
  }

  datatype Step =
    | StartWait(t: nat, since: nat, flag: Option<nat>)
    | StartWrite(t: nat)
    | StartRelease(t: nat)
    | StartInterrupt(t: nat, raised: nat)
    | Run(t: nat)
    | SpuriousWake(t: nat)

  predicate Enabled(s: State, step: Step) {
    match step
    case Run(t) => Runnable(s, t)
    case SpuriousWake(t) => t in s.threads && s.threads[t].pc.Parked?
    case _ => step.t !in s.threads
  }

  function Apply(s: State, step: Step): State
    requires Enabled(s, step)
  {
    match step
    case StartWait(t, since, flag) =>
      s.(threads := s.threads[t := Thread(CheckInterrupt, since, flag, since > s.version)])
    case StartWrite(t) => s.(threads := s.threads[t := Thread(Bump, 0, None, false)])
    case StartRelease(t) => s.(threads := s.threads[t := Thread(Retire, 0, None, false)])
    case StartInterrupt(t, flag) => s.(threads := s.threads[t := Thread(SetFlag(flag), 0, None, false)])
    case Run(t) => Advance(s, t)
    case SpuriousWake(t) => At(s, t, Deregister(None))
  }

  // --------------------------------------------------------------------- invariant

  ghost function RegisteredThreads(threads: map<nat, Thread>): set<nat> {
    set t | t in threads && Registered(threads[t].pc)
  }

  ghost predicate SomeAt(threads: map<nat, Thread>, p: Pc) { exists t :: t in threads && threads[t].pc == p }

  /** The thread has decided, or is about to decide, to sleep on `observed`. */
  predicate Committed(pc: Pc) { pc.RecheckInterrupt? || pc.Park? || pc.Parked? }

  /** The wait has found its handle alive and has not yet gone back to ask again. */
  predicate PastSlot(pc: Pc) {
    pc.LoadVersion? || pc.Register? || pc.LoadSequence? || pc.RecheckVersion? || Committed(pc)
  }

  ghost predicate ThreadInvariant(s: State, t: nat)
    requires t in s.threads
  {
    var pc := s.threads[t].pc;
    && (pc.RecheckVersion? || Committed(pc) ==> pc.observed <= s.sequence)
    && (pc.Park? || pc.Parked? ==> pc.observed < U32_MAX)
    // the word a sleeper compares has moved only if its waker has yet to wake
    && (pc.Parked? && s.sequence != pc.observed ==> SomeAt(s.threads, Wake))
    // a version moved behind the recheck has a writer that must still notify
    && (Committed(pc) && pc.observed < U32_MAX && s.version != s.threads[t].since ==>
          s.sequence != pc.observed || SomeAt(s.threads, LoadWaiters) || SomeAt(s.threads, Notify))
    // a flag raised behind its recheck has a canceller that must still notify, or one that
    // found the handle stale
    && ((pc.Park? || pc.Parked?) && FlagRaised(s, t) ==>
          s.sequence != pc.observed || SomeAt(s.threads, Notify) || SomeAt(s.threads, CheckAlive) || s.retired)
    // a handle that went stale behind a waiter moves the version, or is about to
    && (!s.threads[t].ahead ==> s.threads[t].since <= s.version)
    && (PastSlot(pc) && s.retired && !s.threads[t].ahead ==>
          SomeAt(s.threads, Bump) || s.version > s.threads[t].since)
  }

  ghost predicate Invariant(s: State) {
    && s.sequence <= U32_MAX
    && s.waiters == |RegisteredThreads(s.threads)|
    && forall t :: t in s.threads ==> ThreadInvariant(s, t)
  }

  lemma RegisteredUpdate(threads: map<nat, Thread>, t: nat, th: Thread)
    ensures RegisteredThreads(threads[t := th])
         == if Registered(th.pc) then RegisteredThreads(threads) + {t} else RegisteredThreads(threads) - {t}
  {
  }

  lemma RegisteredAfter(s: State, t: nat, th: Thread)
    requires s.waiters == |RegisteredThreads(s.threads)|
    ensures
      var before := t in s.threads && Registered(s.threads[t].pc);
      var after := Registered(th.pc);
      && |RegisteredThreads(s.threads[t := th])|
           == s.waiters + (if after then 1 else 0) - (if before then 1 else 0)
      && (before ==> s.waiters >= 1)
  {
    RegisteredUpdate(s.threads, t, th);
    var was := RegisteredThreads(s.threads);
    assert t in was ==> |was - {t}| == |was| - 1;
    assert t !in was ==> was - {t} == was;
    assert t in was ==> was + {t} == was;
  }

  /** What others rely on is still there. */
  ghost predicate EvidenceKept(s: State, s': State) {
    && (SomeAt(s.threads, Wake) ==> SomeAt(s'.threads, Wake))
    && (SomeAt(s.threads, Notify) ==> SomeAt(s'.threads, Notify))
    && (SomeAt(s.threads, LoadWaiters) ==> SomeAt(s'.threads, LoadWaiters) || SomeAt(s'.threads, Notify))
    && (SomeAt(s.threads, CheckAlive) ==> SomeAt(s'.threads, CheckAlive) || SomeAt(s'.threads, Notify) || s'.retired)
    && (SomeAt(s.threads, Bump) ==> SomeAt(s'.threads, Bump))
  }

  lemma StillAt(threads: map<nat, Thread>, t: nat, th: Thread, p: Pc)
    requires SomeAt(threads, p) && (t in threads && threads[t].pc == p ==> th.pc == p)
    ensures SomeAt(threads[t := th], p)
  {
    var x :| x in threads && threads[x].pc == p;
    assert threads[t := th][x].pc == p;
  }

  /** A step that moves `t` alone and disturbs nobody's evidence keeps everyone else. */
  ghost predicate Undisturbed(s: State, s': State, t: nat) {
    && s.version == s'.version && s.sequence == s'.sequence && s.flags == s'.flags && s.retired == s'.retired
    && t in s'.threads && s'.threads == s.threads[t := s'.threads[t]]
    && (t in s.threads ==>
          var pc, pc' := s.threads[t].pc, s'.threads[t].pc;
          && (pc.LoadWaiters? ==> pc'.LoadWaiters? || pc'.Notify?)
          && (pc.CheckAlive? ==> pc'.CheckAlive? || pc'.Notify? || s.retired)
          && (pc.Notify? || pc.Wake? || pc.Bump? ==> pc' == pc))
  }

  lemma EvidenceStays(s: State, s': State, t: nat)
    requires Undisturbed(s, s', t)
    ensures EvidenceKept(s, s')
  {
    var th := s'.threads[t];
    if SomeAt(s.threads, Notify) { StillAt(s.threads, t, th, Notify); }
    if SomeAt(s.threads, Wake) { StillAt(s.threads, t, th, Wake); }
    if SomeAt(s.threads, Bump) { StillAt(s.threads, t, th, Bump); }
    if t in s.threads && (s.threads[t].pc.LoadWaiters? || s.threads[t].pc.CheckAlive?) && th.pc.Notify? {
      assert SomeAt(s'.threads, Notify);
    } else {
      if SomeAt(s.threads, LoadWaiters) { StillAt(s.threads, t, th, LoadWaiters); }
      if SomeAt(s.threads, CheckAlive) && !s.retired { StillAt(s.threads, t, th, CheckAlive); }
    }
  }

  lemma ThreadKeeps(s: State, s': State, x: nat)
    requires x in s.threads && ThreadInvariant(s, x) && x in s'.threads && s'.threads[x] == s.threads[x]
    requires s.version == s'.version && s.sequence == s'.sequence && s.flags == s'.flags && s.retired == s'.retired
    requires EvidenceKept(s, s')
    ensures ThreadInvariant(s', x)
  {
  }

  lemma OthersKeep(s: State, s': State, t: nat)
    requires (forall x :: x in s.threads ==> ThreadInvariant(s, x)) && Undisturbed(s, s', t)
    ensures forall x :: x in s'.threads && x != t ==> ThreadInvariant(s', x)
    ensures EvidenceKept(s, s')
  {
    EvidenceStays(s, s', t);
    forall x | x in s'.threads && x != t ensures ThreadInvariant(s', x) {
      ThreadKeeps(s, s', x);
    }
  }

  lemma StartKeeps(s: State, step: Step)
    requires Invariant(s) && Enabled(s, step) && !step.Run? && !step.SpuriousWake?
    ensures Invariant(Apply(s, step))
  {
    var s' := Apply(s, step);
    RegisteredAfter(s, step.t, s'.threads[step.t]);
    OthersKeep(s, s', step.t);
  }

  lemma SpuriousKeeps(s: State, t: nat)
    requires Invariant(s) && t in s.threads && s.threads[t].pc.Parked?
    ensures Invariant(At(s, t, Deregister(None)))
  {
    var s' := At(s, t, Deregister(None));
    RegisteredAfter(s, t, s'.threads[t]);
    OthersKeep(s, s', t);
  }

  /** The questions a wait asks before it registers, and a canceller's question whether its
      handle is still alive. */
  lemma AskingKeeps(s: State, t: nat)
    requires Invariant(s) && Runnable(s, t)
    requires
      var pc := s.threads[t].pc;
      pc.CheckInterrupt? || pc.CheckSlot? || pc.LoadVersion? || pc.CheckAlive?
    ensures Invariant(Advance(s, t))
  {
    var s' := Advance(s, t);
    assert ThreadInvariant(s, t);
    RegisteredAfter(s, t, s'.threads[t]);
    OthersKeep(s, s', t);
  }

  /** Registration, the snapshot of the sequence word, and deregistration. */
  lemma RegisteringKeeps(s: State, t: nat)
    requires Invariant(s) && Runnable(s, t)
    requires s.threads[t].pc.Register? || s.threads[t].pc.LoadSequence? || s.threads[t].pc.Deregister?
    ensures Invariant(Advance(s, t))
  {
    var s' := Advance(s, t);
    assert ThreadInvariant(s, t);
    RegisteredAfter(s, t, s'.threads[t]);
    OthersKeep(s, s', t);
    assert ThreadInvariant(s', t);
  }

  /** Its rechecks, and the kernel's comparison. */
  lemma CommitKeeps(s: State, t: nat)
    requires Invariant(s) && Runnable(s, t)
    requires s.threads[t].pc.RecheckVersion? || s.threads[t].pc.RecheckInterrupt? || s.threads[t].pc.Park?
    ensures Invariant(Advance(s, t))
  {
    var s' := Advance(s, t);
    assert ThreadInvariant(s, t);
    RegisteredAfter(s, t, s'.threads[t]);
    OthersKeep(s, s', t);
    assert ThreadInvariant(s', t);
  }

  lemma VersionMoves(s: State, s': State, x: nat)
    requires x in s.threads && ThreadInvariant(s, x) && x in s'.threads && s'.threads[x] == s.threads[x]
    requires s'.version == s.version + 1 && s.sequence == s'.sequence && s.flags == s'.flags && s.retired == s'.retired
    requires SomeAt(s'.threads, LoadWaiters)
    requires SomeAt(s.threads, Notify) ==> SomeAt(s'.threads, Notify)
    requires SomeAt(s.threads, Wake) ==> SomeAt(s'.threads, Wake)
    requires SomeAt(s.threads, CheckAlive) ==> SomeAt(s'.threads, CheckAlive)
    ensures ThreadInvariant(s', x)
  {
  }

  lemma SequenceMoves(s: State, s': State, x: nat)
    requires x in s.threads && ThreadInvariant(s, x) && x in s'.threads && s'.threads[x] == s.threads[x]
    requires s.version == s'.version && s'.sequence == Saturate(s.sequence) &&
        s.flags == s'.flags && s.retired == s'.retired
    requires s.sequence <= U32_MAX && SomeAt(s'.threads, Wake)
    requires SomeAt(s.threads, Bump) ==> SomeAt(s'.threads, Bump)
    ensures ThreadInvariant(s', x)
  {
  }

  lemma BumpEvidence(threads: map<nat, Thread>, t: nat, th: Thread)
    requires t in threads && threads[t].pc.Bump? && th.pc.LoadWaiters?
    ensures SomeAt(threads[t := th], LoadWaiters)
    ensures SomeAt(threads, Notify) ==> SomeAt(threads[t := th], Notify)
    ensures SomeAt(threads, Wake) ==> SomeAt(threads[t := th], Wake)
    ensures SomeAt(threads, CheckAlive) ==> SomeAt(threads[t := th], CheckAlive)
  {
    assert threads[t := th][t].pc == LoadWaiters;
    if SomeAt(threads, Notify) { StillAt(threads, t, th, Notify); }
    if SomeAt(threads, Wake) { StillAt(threads, t, th, Wake); }
    if SomeAt(threads, CheckAlive) { StillAt(threads, t, th, CheckAlive); }
  }

  /** A writer moves the version and from then on owes a notification. */
  lemma BumpKeeps(s: State, t: nat)
    requires Invariant(s) && Runnable(s, t) && s.threads[t].pc.Bump?
    ensures Invariant(Advance(s, t))
  {
    var s' := Advance(s, t);
    RegisteredAfter(s, t, s'.threads[t]);
    BumpEvidence(s.threads, t, s'.threads[t]);
    forall x | x in s'.threads && x != t ensures ThreadInvariant(s', x) {
      VersionMoves(s, s', x);
    }
    assert ThreadInvariant(s', t) by { assert ThreadInvariant(s, t); }
  }

  /** A release owes the version a bump as soon as it has retired the handle. */
  lemma RetireKeeps(s: State, t: nat)
    requires Invariant(s) && Runnable(s, t) && s.threads[t].pc.Retire?
    ensures Invariant(Advance(s, t))
  {
    var s' := Advance(s, t);
    RegisteredAfter(s, t, s'.threads[t]);
    assert s'.threads[t].pc == Bump;
    assert SomeAt(s'.threads, Bump);
    var mid := At(s, t, Bump);
    OthersKeep(s, mid, t);
    forall x | x in s'.threads && x != t ensures ThreadInvariant(s', x) {
      assert ThreadInvariant(mid, x);
    }
    assert ThreadInvariant(s, t);
  }

  /** A writer that finds no waiter may stop: nobody committed to sleeping relies on it. */
  lemma LoadWaitersKeeps(s: State, t: nat)
    requires Invariant(s) && Runnable(s, t) && s.threads[t].pc.LoadWaiters?
    ensures Invariant(Advance(s, t))
  {
    var s' := Advance(s, t);
    RegisteredAfter(s, t, s'.threads[t]);
    if s.waiters != 0 {
      OthersKeep(s, s', t);
    } else {
      assert RegisteredThreads(s.threads) == {};
      if SomeAt(s.threads, Bump) { StillAt(s.threads, t, s'.threads[t], Bump); }
      forall x | x in s'.threads && x != t ensures ThreadInvariant(s', x) {
        assert x !in RegisteredThreads(s.threads);
      }
    }
  }

  lemma SetFlagKeeps(s: State, t: nat)
    requires Invariant(s) && Runnable(s, t) && s.threads[t].pc.SetFlag?
    ensures Invariant(Advance(s, t))
  {
    var s' := Advance(s, t);
    RegisteredAfter(s, t, s'.threads[t]);
    var mid := At(s, t, CheckAlive);
    OthersKeep(s, mid, t);
    assert s'.threads[t].pc == CheckAlive;
    assert SomeAt(s'.threads, CheckAlive);
    forall x | x in s'.threads && x != t ensures ThreadInvariant(s', x) {
      assert ThreadInvariant(mid, x);
    }
  }

  /** The sequence moves past every committed waiter's word, or it already has. */
  lemma NotifyKeeps(s: State, t: nat)
    requires Invariant(s) && Runnable(s, t) && s.threads[t].pc.Notify?
    ensures Invariant(Advance(s, t))
  {
    var s' := Advance(s, t);
    RegisteredAfter(s, t, s'.threads[t]);
    assert s'.threads[t].pc == Wake;
    assert SomeAt(s'.threads, Wake);
    if SomeAt(s.threads, Bump) { StillAt(s.threads, t, s'.threads[t], Bump); }
    forall x | x in s'.threads && x != t ensures ThreadInvariant(s', x) {
      SequenceMoves(s, s', x);
    }
    assert ThreadInvariant(s, t);
  }

  lemma WakeAllRegistered(threads: map<nat, Thread>)
    ensures RegisteredThreads(WakeAll(threads)) == RegisteredThreads(threads)
  {
  }

  lemma StillAtAfterWake(threads: map<nat, Thread>, t: nat, th: Thread, p: Pc)
    requires SomeAt(threads, p) && !p.Parked? && t in threads && threads[t].pc != p
    ensures SomeAt(WakeAll(threads)[t := th], p)
  {
    var x :| x in threads && threads[x].pc == p;
    assert WakeAll(threads)[t := th][x].pc == p;
  }

  lemma WokenKeeps(s: State, s': State, x: nat)
    requires x in s.threads && ThreadInvariant(s, x) && x in s'.threads
    requires s'.threads[x] == if s.threads[x].pc.Parked? then s.threads[x].(pc := Deregister(None)) else s.threads[x]
    requires s.version == s'.version && s.sequence == s'.sequence && s.flags == s'.flags && s.retired == s'.retired
    requires forall p: Pc :: p.Notify? || p.LoadWaiters? || p.CheckAlive? || p.Bump? ==>
      SomeAt(s.threads, p) ==> SomeAt(s'.threads, p)
    ensures ThreadInvariant(s', x)
  {
    assert SomeAt(s.threads, Notify) ==> SomeAt(s'.threads, Notify);
    assert SomeAt(s.threads, Bump) ==> SomeAt(s'.threads, Bump);
  }

  lemma WakeKeeps(s: State, t: nat)
    requires Invariant(s) && Runnable(s, t) && s.threads[t].pc.Wake?
    ensures Invariant(Advance(s, t))
    ensures forall x :: x in Advance(s, t).threads ==> !Advance(s, t).threads[x].pc.Parked?
  {
    var s' := Advance(s, t);
    WakeAllRegistered(s.threads);
    assert RegisteredThreads(s'.threads) == RegisteredThreads(WakeAll(s.threads));
    var th := s'.threads[t];
    forall p: Pc | (p.Notify? || p.LoadWaiters? || p.CheckAlive? || p.Bump?) && SomeAt(s.threads, p)
      ensures SomeAt(s'.threads, p)
    {
      StillAtAfterWake(s.threads, t, th, p);
    }
    forall x | x in s'.threads && x != t ensures ThreadInvariant(s', x) {
      WokenKeeps(s, s', x);
    }
    assert ThreadInvariant(s, t);
  }

  lemma StepKeepsInvariant(s: State, step: Step)
    requires Invariant(s) && Enabled(s, step)
    ensures Invariant(Apply(s, step))
  {
    match step
    case Run(t) => {
      match s.threads[t].pc
      case Retire => RetireKeeps(s, t);
      case Bump => BumpKeeps(s, t);
      case LoadWaiters => LoadWaitersKeeps(s, t);
      case SetFlag(_) => SetFlagKeeps(s, t);
      case Notify => NotifyKeeps(s, t);
      case Wake => WakeKeeps(s, t);
      case RecheckVersion(_) => CommitKeeps(s, t);
      case RecheckInterrupt(_) => CommitKeeps(s, t);
      case Park(_) => CommitKeeps(s, t);
      case Register => RegisteringKeeps(s, t);
      case LoadSequence => RegisteringKeeps(s, t);
      case Deregister(_) => RegisteringKeeps(s, t);
      case _ => AskingKeeps(s, t);
    }
    case SpuriousWake(t) => SpuriousKeeps(s, t);
    case _ => StartKeeps(s, step);
  }
}
