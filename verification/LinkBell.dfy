/** The arm, recheck and wait loop of one inbox lane (`link/src/receiver.rs`) against any
    number of writers and directory changes (`link/src/inbox.rs`).  A datagram socket only
    wakes the receiver; frames stay in shared memory.  One atomic operation is one step. */
module LinkBell {

  /** The receiver; the operation named is the one it performs next. */
  datatype ReceiverPc =
    | Idle
    | LoadDirectory
    | LoadSeen
    | Read
    | Disarm
    | Drain
    | Arm
    | RecheckChanges
    | RecheckDirectory
    | DisarmAndRetry
    | Await
    | DrainReadable

  /** `directory` is the generation last reported, `seen` the lane word of this round. */
  datatype Receiver = Receiver(pc: ReceiverPc, directory: nat, seen: nat)

  /** A frame write, a claim or release of some lane, or a nudge; each ends in `wake`. */
  datatype WriterPc = Commit | MoveDirectory | Bump | Swap | Ring | Restore | Done

  datatype State = State(
    changes: nat,
    directory: nat,
    frames: nat,
    armed: bool,
    socket: nat,
    sendFailed: bool,
    receiver: Receiver,
    writers: map<nat, WriterPc>)

  const Initial := State(0, 0, 0, false, 0, false, Receiver(Idle, 0, 0), map[])

  function Go(s: State, pc: ReceiverPc): State { s.(receiver := s.receiver.(pc := pc)) }

  function GoWriter(s: State, t: nat, pc: WriterPc): State { s.(writers := s.writers[t := pc]) }

  predicate ReceiverRunnable(s: State) {
    !s.receiver.pc.Idle? && (s.receiver.pc.Await? ==> s.socket > 0)
  }

  /** One atomic step of `next`; draining takes one datagram at a time. */
  function Receive(s: State): State
    requires ReceiverRunnable(s)
  {
    var r := s.receiver;
    match r.pc
    case LoadDirectory =>
      if s.directory != r.directory then s.(receiver := r.(pc := Idle, directory := s.directory))
      else Go(s, LoadSeen)
    case LoadSeen => s.(receiver := r.(pc := Read, seen := s.changes))
    case Read => if s.frames > 0 then Go(s.(frames := s.frames - 1), Idle) else Go(s, Disarm)
    case Disarm => Go(s.(armed := false), Drain)
    case Drain => if s.socket > 0 then s.(socket := s.socket - 1) else Go(s, Arm)
    case Arm => Go(s.(armed := true), RecheckChanges)
    case RecheckChanges => Go(s, if s.changes != r.seen then DisarmAndRetry else RecheckDirectory)
    case RecheckDirectory => Go(s, if s.directory != r.directory then DisarmAndRetry else Await)
    case DisarmAndRetry => Go(s.(armed := false), LoadDirectory)
    case Await => Go(s, DrainReadable)
    case DrainReadable => if s.socket > 0 then s.(socket := s.socket - 1) else Go(s, LoadDirectory)
  }

  predicate WriterRunnable(s: State, t: nat) { t in s.writers && !s.writers[t].Done? }

  /** One atomic step of a writer; `sent` says whether the datagram went out. */
  function Write(s: State, t: nat, sent: bool): State
    requires WriterRunnable(s, t)
  {
    match s.writers[t]
    case Commit => GoWriter(s.(frames := s.frames + 1), t, Bump)
    case MoveDirectory => GoWriter(s.(directory := s.directory + 1), t, Bump)
    case Bump => GoWriter(s.(changes := s.changes + 1), t, Swap)
    case Swap => GoWriter(s.(armed := false), t, if s.armed then Ring else Done)
    case Ring =>
      if sent then GoWriter(s.(socket := s.socket + 1), t, Done)
      else GoWriter(s.(sendFailed := true), t, Restore)
    case Restore => GoWriter(s.(armed := true), t, Done)
  }

  datatype Step =
    | StartWrite(t: nat)
    | StartDirectoryChange(t: nat)
    | StartNudge(t: nat)
    | RunWriter(t: nat, sent: bool)
    | CallNext
    | RunReceiver
    | CancelNext

  predicate Enabled(s: State, step: Step) {
    match step
    case RunWriter(t, _) => WriterRunnable(s, t)
    case CallNext => s.receiver.pc.Idle?
    case RunReceiver => ReceiverRunnable(s)
    case CancelNext => s.receiver.pc.Await?
    case _ => step.t !in s.writers
  }

  function Apply(s: State, step: Step): State
    requires Enabled(s, step)
  {
    match step
    case StartWrite(t) => GoWriter(s, t, Commit)
    case StartDirectoryChange(t) => GoWriter(s, t, MoveDirectory)
    case StartNudge(t) => GoWriter(s, t, Bump)
    case RunWriter(t, sent) => Write(s, t, sent)
    case CallNext => Go(s, LoadDirectory)
    case RunReceiver => Receive(s)
    case CancelNext => Go(s, Idle)
  }

  // --------------------------------------------------------------------- invariant

  ghost predicate SomeAt(writers: map<nat, WriterPc>, pc: WriterPc) { exists t :: t in writers && writers[t] == pc }

  /** The round has read the lane as empty. */
  predicate FoundEmpty(pc: ReceiverPc) {
    pc.Disarm? || pc.Drain? || pc.Arm? || pc.RecheckChanges? || pc.RecheckDirectory? || pc.Await?
  }

  ghost predicate BellCannotBeMissed(s: State) {
    s.armed || s.socket > 0 || SomeAt(s.writers, Ring) || s.sendFailed
  }

  ghost predicate BellIsComing(s: State) {
    s.socket > 0 || SomeAt(s.writers, Ring) || (s.armed && SomeAt(s.writers, Swap)) || s.sendFailed
  }

  ghost predicate Invariant(s: State) {
    var r := s.receiver;
    && (r.pc.Read? || FoundEmpty(r.pc) ==> r.seen <= s.changes)
    && (FoundEmpty(r.pc) && s.frames > 0 ==> s.changes != r.seen || SomeAt(s.writers, Bump))
    && (r.pc.RecheckChanges? || r.pc.RecheckDirectory? || r.pc.Await? ==> BellCannotBeMissed(s))
    && (r.pc.Await? && s.directory != r.directory ==> s.changes != r.seen || SomeAt(s.writers, Bump))
    && ((r.pc.RecheckDirectory? || r.pc.Await?) && s.changes != r.seen ==> BellIsComing(s))
  }

  lemma SomeAtAfter(s: State, t: nat, pc: WriterPc, p: WriterPc)
    ensures pc == p ==> SomeAt(GoWriter(s, t, pc).writers, p)
    ensures SomeAt(s.writers, p) && !(t in s.writers && s.writers[t] == p) ==> SomeAt(GoWriter(s, t, pc).writers, p)
  {
    var s' := GoWriter(s, t, pc);
    if pc == p {
      assert s'.writers[t] == p;
    }
    if SomeAt(s.writers, p) && !(t in s.writers && s.writers[t] == p) {
      var x :| x in s.writers && s.writers[x] == p;
      assert s'.writers[x] == p;
    }
  }

  lemma WriterKeeps(s: State, t: nat, sent: bool)
    requires Invariant(s) && WriterRunnable(s, t)
    ensures Invariant(Write(s, t, sent))
  {
    var s' := Write(s, t, sent);
    forall p ensures s'.writers[t] == p ==> SomeAt(s'.writers, p)
             ensures SomeAt(s.writers, p) && s.writers[t] != p ==> SomeAt(s'.writers, p)
    {
      SomeAtAfter(s, t, s'.writers[t], p);
    }
  }

  lemma StartKeeps(s: State, t: nat, pc: WriterPc)
    requires Invariant(s) && t !in s.writers
    ensures Invariant(GoWriter(s, t, pc))
  {
    forall p ensures SomeAt(s.writers, p) ==> SomeAt(GoWriter(s, t, pc).writers, p) {
      SomeAtAfter(s, t, pc, p);
    }
  }

  /** The receiver's look at the lane, up to finding it empty. */
  lemma LookingKeeps(s: State)
    requires Invariant(s) && ReceiverRunnable(s)
    requires !FoundEmpty(s.receiver.pc)
    ensures Invariant(Receive(s))
  {
  }

  /** From there to its sleep. */
  lemma SettlingKeeps(s: State)
    requires Invariant(s) && ReceiverRunnable(s)
    requires FoundEmpty(s.receiver.pc)
    ensures Invariant(Receive(s))
  {
  }

  lemma StepKeepsInvariant(s: State, step: Step)
    requires Invariant(s) && Enabled(s, step)
    ensures Invariant(Apply(s, step))
  {
    match step
    case RunWriter(t, sent) => WriterKeeps(s, t, sent);
    case RunReceiver => {
      if FoundEmpty(s.receiver.pc) {
        SettlingKeeps(s);
      } else {
        LookingKeeps(s);
      }
    }
    case StartWrite(t) => StartKeeps(s, t, Commit);
    case StartDirectoryChange(t) => StartKeeps(s, t, MoveDirectory);
    case StartNudge(t) => StartKeeps(s, t, Bump);
    case CallNext =>
    case CancelNext =>
  }

  // --------------------------------------------------------------- whole executions

  ghost predicate IsExecution(ss: seq<State>, steps: seq<Step>) {
    && |ss| == |steps| + 1 && ss[0] == Initial
    && forall i :: 0 <= i < |steps| ==> Enabled(ss[i], steps[i]) && ss[i + 1] == Apply(ss[i], steps[i])
  }

  lemma {:induction false} ExecutionKeepsInvariant(ss: seq<State>, steps: seq<Step>, n: nat)
    requires IsExecution(ss, steps) && n < |ss|
    ensures Invariant(ss[n])
  {
    if n > 0 {
      ExecutionKeepsInvariant(ss, steps, n - 1);
      StepKeepsInvariant(ss[n - 1], steps[n - 1]);
    }
  }

  /** The writer's own remaining steps put a datagram in the socket. */
  ghost predicate WillRing(s: State, t: nat) {
    t in s.writers && (s.writers[t].Ring? || (s.armed && (s.writers[t].Bump? || s.writers[t].Swap?)))
  }

  /** No lost wake.  While every bell send has succeeded, a receiver asleep on its socket
      with a committed frame in its lane, or with the directory past what it reported, has
      a datagram waiting or a writer that has yet to send one.  Any number of writers,
      stale bells and cancelled calls may have come before. */
  lemma NoLostBell(ss: seq<State>, steps: seq<Step>, n: nat)
    requires IsExecution(ss, steps) && n < |ss| && !ss[n].sendFailed
    requires ss[n].receiver.pc.Await?
    requires ss[n].frames > 0 || ss[n].directory != ss[n].receiver.directory
    ensures ss[n].socket > 0 || exists t :: WillRing(ss[n], t)
  {
    var s := ss[n];
    ExecutionKeepsInvariant(ss, steps, n);
    if s.socket == 0 {
      var p := if SomeAt(s.writers, Ring) then Ring else if SomeAt(s.writers, Swap) then Swap else Bump;
      assert SomeAt(s.writers, p);
      var t :| t in s.writers && s.writers[t] == p;
      assert WillRing(s, t);
    }
  }

  function RunWriterFor(s: State, t: nat, steps: nat): State
    decreases steps
  {
    if steps == 0 || !WriterRunnable(s, t) then s else RunWriterFor(Write(s, t, true), t, steps - 1)
  }

  /** What such a writer owes it delivers: three of its own steps wake the receiver. */
  lemma OwedBellArrives(s: State, t: nat)
    requires WillRing(s, t)
    ensures RunWriterFor(s, t, 3).socket > 0
    ensures s.receiver.pc.Await? ==> ReceiverRunnable(RunWriterFor(s, t, 3))
  {
  }

  function RunReceiverFor(s: State, steps: nat): State
    decreases steps
  {
    if steps == 0 || !ReceiverRunnable(s) then s else RunReceiverFor(Receive(s), steps - 1)
  }

  /** A woken receiver answers: after its drain it reports the moved directory or takes
      the frame, never going back to sleep on either. */
  lemma {:induction false} WokenReceiverAnswers(s: State)
    requires (s.receiver.pc.Await? && s.socket > 0) || s.receiver.pc.DrainReadable?
    requires s.frames > 0 || s.directory != s.receiver.directory
    ensures
      var s' := RunReceiverFor(s, s.socket + (if s.receiver.pc.Await? then 5 else 4));
      && s'.receiver.pc.Idle?
      && if s.directory != s.receiver.directory
         then s'.receiver.directory == s.directory && s'.frames == s.frames
         else s'.frames == s.frames - 1
    decreases s.receiver.pc.Await?, s.socket
  {
    if s.receiver.pc.Await? {
      assert Receive(s).receiver.pc.DrainReadable?;
      WokenReceiverAnswers(Receive(s));
    } else if s.socket > 0 {
      WokenReceiverAnswers(Receive(s));
    } else {
      var s1 := Receive(s);
      var s2 := Receive(s1);
      assert RunReceiverFor(s, 4) == RunReceiverFor(s1, 3) == RunReceiverFor(s2, 2);
      if s.directory == s.receiver.directory {
        var s3 := Receive(s2);
        var s4 := Receive(s3);
        assert RunReceiverFor(s2, 2) == RunReceiverFor(s3, 1) == RunReceiverFor(s4, 0) == s4;
      }
    }
  }

  /** Why the send matters: whenever the receiver sleeps armed with nobody writing, one
      write whose bell fails leaves it asleep on a committed frame with no one left to
      ring. */
  lemma FailedSendStrands(s: State, t: nat)
    requires s.receiver.pc.Await? && s.socket == 0 && s.armed
    requires t !in s.writers && forall x :: x in s.writers ==> s.writers[x].Done?
    ensures
      var s' := RunFailing(Apply(s, StartWrite(t)), t, 5);
      && s'.receiver.pc.Await? && s'.frames == s.frames + 1 && s'.socket == 0 && s'.sendFailed
      && forall x :: !WillRing(s', x)
  {
    var s0 := Apply(s, StartWrite(t));
    var s1 := Write(s0, t, false);
    var s2 := Write(s1, t, false);
    var s3 := Write(s2, t, false);
    var s4 := Write(s3, t, false);
    var s5 := Write(s4, t, false);
    assert RunFailing(s0, t, 5) == RunFailing(s1, t, 4) == RunFailing(s2, t, 3);
    assert RunFailing(s2, t, 3) == RunFailing(s3, t, 2) == RunFailing(s4, t, 1);
    assert RunFailing(s4, t, 1) == RunFailing(s5, t, 0) == s5;
    assert s5.writers == s.writers[t := Done];
  }

  function RunFailing(s: State, t: nat, steps: nat): State
    decreases steps
  {
    if steps == 0 || !WriterRunnable(s, t) then s else RunFailing(Write(s, t, false), t, steps - 1)
  }
}
