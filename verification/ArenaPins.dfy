/** The pin protocol of the arena (`arena/src/lib.rs`): lock-free readers pin a slot and
    then look at it again, while the one locked writer retires a slot and then looks at the
    pins, before bytes of the ring or words of the slot are written.  One atomic load, store
    or byte copy is one step, in any interleaving, and the writer may die between any two. */
module ArenaPins {

  import opened Wrappers
  import opened ArenaTypes

  // ------------------------------------------------------------------------- slots

  /** The words in the order the writer stores them: key low and high, body offset and
      length, encoded offset and length, encoding, stamp, extra, generation. */
  const WORDS: nat := 10

  type Words = w: seq<nat> | |w| == 10 witness [0, 0, 0, 0, 0, 0, 0, 0, 0, 0]

  /** A slot as the processes share it; `ArenaIndex` reads the words. */
  datatype RawSlot = RawSlot(state: SlotState, words: Words)

  function WordsOf(key: Option<Key>, r: Record, position: nat, generation: nat): Words {
    [ if key.Some? then key.value.lo else 0,
      if key.Some? then key.value.hi else 0,
      position,
      |r.body|,
      position + |r.body|,
      |EncodedBytes(r)|,
      if r.encoded.Some? then r.encoded.value.tag else 0,
      r.stamp,
      r.extra,
      generation ]
  }

  function Generation(slot: RawSlot): nat { slot.words[9] }

  function SpanStart(slot: RawSlot): nat { slot.words[2] }

  function SpanEnd(slot: RawSlot): nat { slot.words[2] + slot.words[3] + slot.words[5] }

  predicate Meets(slot: RawSlot, start: nat, end: nat) { SpanEnd(slot) > start && SpanStart(slot) < end }

  // ----------------------------------------------------------------------- threads

  /** A lookup, from its pin to the drop of its entry; the step named comes next.  What a
      caller passes to it (slot, generation, key) is unconstrained: a probe may have read
      anything, and an address may be stale or invented. */
  datatype Pc =
    | Pin
    | LoadState
    | LoadGeneration
    | LoadKeyLow
    | LoadKeyHigh
    | LoadEntry(words: seq<nat>)
    | Holding(words: seq<nat>)
    | Unpin
    | Done

  datatype Thread = Thread(row: nat, slot: nat, generation: nat, key: Option<Key>, pc: Pc)

  predicate Pinned(pc: Pc) { !pc.Pin? && !pc.Done? }

  /** The slot has passed the second look at its state, so the thread relies on it. */
  predicate Relies(pc: Pc) { Pinned(pc) && !pc.LoadState? && !pc.Unpin? }

  type Threads = map<nat, Thread>

  function Goto(threads: Threads, t: nat, pc: Pc): Threads
    requires t in threads
  {
    threads[t := threads[t].(pc := pc)]
  }

  // ------------------------------------------------------------------------ writer

  datatype Job = Job(key: Option<Key>, record: Record)

  /** `Check` walks one slot of an allocation attempt: look at its span, scan the pin rows,
      retire it, scan the pin rows again.  `active` says the row's owner flag was seen. */
  datatype Check =
    | Look
    | FirstScan(row: nat, active: bool)
    | Retire
    | SecondScan(row: nat, active: bool)

  datatype Writer =
    | Unlocked
    | Locked
    | Scanning(job: Job, position: nat, slot: nat, check: Check, blocked: bool)
    | Choosing(job: Job, position: nat)
    | Vetting(job: Job, position: nat, slot: nat, row: nat, active: bool)
    | Numbering(job: Job, position: nat, slot: nat)
    | Copying(job: Job, position: nat, slot: nat, generation: nat, next: nat)
    | Storing(job: Job, position: nat, slot: nat, generation: nat, next: nat)

  /** What was published under a generation; a history, never read by the arena. */
  datatype Published = Published(slot: nat, key: Option<Key>, record: Record, position: nat)

  datatype State = State(
    slots: seq<RawSlot>,
    ring: seq<nat>,
    counter: nat,
    active: seq<bool>,
    pins: seq<seq<nat>>,
    alive: seq<bool>,
    threads: Threads,
    writer: Writer,
    published: map<nat, Published>)

  /** A segment just created: every slot empty, no owner, no thread, nothing published. */
  ghost predicate IsInitial(s: State) {
    && (forall j :: 0 <= j < |s.slots| ==> s.slots[j].state.Empty?)
    && s.counter == 0
    && |s.active| == |s.alive| == |s.pins|
    && (forall row :: 0 <= row < |s.pins| ==> !s.active[row] && !s.alive[row] && |s.pins[row]| == |s.slots|)
    && s.threads == map[] && s.writer.Unlocked? && s.published == map[]
  }

  ghost predicate Shaped(s: State) {
    && |s.active| == |s.pins| == |s.alive|
    && (forall row :: 0 <= row < |s.pins| ==> |s.pins[row]| == |s.slots|)
    && (forall t :: t in s.threads && !s.threads[t].pc.Done? ==>
        s.threads[t].slot < |s.slots| && s.threads[t].row < |s.pins|)
    && WriterShaped(s)
  }

  ghost predicate WriterShaped(s: State) {
    match s.writer
    case Unlocked => true
    case Locked => true
    case Scanning(job, position, i, check, _) =>
      && position + |Content(job.record)| <= |s.ring| && i <= |s.slots|
      && (check.Look? || i < |s.slots|)
      && (check.FirstScan? || check.SecondScan? ==> check.row <= |s.pins| && (check.active ==> check.row < |s.pins|))
    case Choosing(job, position) => position + |Content(job.record)| <= |s.ring|
    case Vetting(job, position, i, row, active) =>
      position + |Content(job.record)| <= |s.ring| && i < |s.slots| && row <= |s.pins| && (active ==> row < |s.pins|)
    case Numbering(job, position, i) => position + |Content(job.record)| <= |s.ring| && i < |s.slots|
    case Copying(job, position, i, _, next) =>
      position + |Content(job.record)| <= |s.ring| && i < |s.slots| && next <= |Content(job.record)|
    case Storing(job, position, i, _, next) =>
      position + |Content(job.record)| <= |s.ring| && i < |s.slots| && next <= WORDS
  }

  // ------------------------------------------------------------------------- steps

  datatype Step =
    | Claim(row: nat)
    | Die(row: nat)
    | ClearPin(row: nat, slot: nat)
    | Deactivate(row: nat)
    | StartLookup(t: nat, row: nat, slot: nat, generation: nat, key: Option<Key>)
    | RunReader(t: nat)
    | DropEntry(t: nat)
    | Lock
    | Unlock
    | Evict(slot: nat)
    | StartWrite(job: Job, position: nat)
    | Retry(position: nat)
    | Choose(slot: nat)
    | GiveUp
    | RunWriter
    | CrashWriter

  ghost predicate Enabled(s: State, step: Step)
    requires Shaped(s)
  {
    match step
    case Claim(row) =>
      row < |s.alive| && !s.alive[row] && forall i :: 0 <= i < |s.slots| ==> s.pins[row][i] == 0
    case Die(row) => row < |s.alive|
    case ClearPin(row, i) => row < |s.alive| && !s.alive[row] && i < |s.slots|
    case Deactivate(row) => row < |s.alive| && !s.alive[row]
    case StartLookup(t, row, _, _, _) => t !in s.threads && row < |s.alive| && s.alive[row]
    case RunReader(t) => t in s.threads && !s.threads[t].pc.Done? && !s.threads[t].pc.Holding?
    case DropEntry(t) => t in s.threads && s.threads[t].pc.Holding?
    case Lock => s.writer.Unlocked?
    case Unlock => s.writer.Locked?
    case Evict(i) => s.writer.Locked? && i < |s.slots|
    case StartWrite(job, position) => s.writer.Locked? && position + |Content(job.record)| <= |s.ring|
    case Retry(position) =>
      && s.writer.Scanning? && s.writer.slot == |s.slots| && s.writer.blocked
      && position + |Content(s.writer.job.record)| <= |s.ring|
    case Choose(i) => s.writer.Choosing? && i < |s.slots|
    case GiveUp => s.writer.Scanning? || s.writer.Choosing? || s.writer.Vetting?
    case RunWriter =>
      match s.writer {
        case Scanning(_, _, i, _, blocked) => i < |s.slots| || !blocked
        case Vetting(_, _, _, _, _) => true
        case Numbering(_, _, _) => true
        case Copying(_, _, _, _, _) => true
        case Storing(_, _, _, _, _) => true
        case _ => false
      }
    case CrashWriter => !s.writer.Unlocked?
  }

  function WithPin(s: State, row: nat, slot: nat, count: nat): State
    requires row < |s.pins| && slot < |s.pins[row]|
  {
    var cells: seq<nat> := s.pins[row][slot := count];
    s.(pins := s.pins[row := cells])
  }

  function Dropped(count: nat): nat { if count == 0 then U32_MAX else count - 1 }

  function Read(s: State, t: nat): State
    requires Shaped(s)
    requires t in s.threads && !s.threads[t].pc.Done? && !s.threads[t].pc.Holding?
  {
    var th := s.threads[t];
    var slot := s.slots[th.slot];
    var count := s.pins[th.row][th.slot];
    match th.pc
    case Pin =>
      if count >= U32_MAX then s.(threads := Goto(s.threads, t, Done))
      else WithPin(s, th.row, th.slot, count + 1).(threads := Goto(s.threads, t, LoadState))
    case LoadState =>
      var wanted := if th.key.Some? then Live else Addressed;
      s.(threads := Goto(s.threads, t, if slot.state == wanted then LoadGeneration else Unpin))
    case LoadGeneration =>
      var after := if th.key.Some? then LoadKeyLow else LoadEntry([]);
      s.(threads := Goto(s.threads, t, if slot.words[9] == th.generation then after else Unpin))
    case LoadKeyLow =>
      s.(threads := Goto(s.threads, t, if th.key.Some? && slot.words[0] == th.key.value.lo then LoadKeyHigh else Unpin))
    case LoadKeyHigh =>
      s.(threads := Goto(s.threads, t,
        if th.key.Some? && slot.words[1] == th.key.value.hi then LoadEntry([]) else Unpin))
    case LoadEntry(words) =>
      s.(threads := Goto(s.threads, t,
           if |words| < 7 then LoadEntry(words + [slot.words[2 + |words|]]) else Holding(words)))
    case Unpin =>
      WithPin(s, th.row, th.slot, Dropped(count)).(threads := Goto(s.threads, t, Done))
  }

  function RetireSlot(s: State, i: nat): State
    requires i < |s.slots|
  {
    if s.slots[i].state.Empty? then s else s.(slots := s.slots[i := s.slots[i].(state := Retired)])
  }

  function StepScan(s: State): State
    requires Shaped(s) && s.writer.Scanning?
    requires s.writer.slot < |s.slots| || !s.writer.blocked
  {
    var w := s.writer;
    var i := w.slot;
    var nextSlot := w.(slot := i + 1, check := Look);
    var end := w.position + |Content(w.job.record)|;
    if i == |s.slots| then s.(writer := Choosing(w.job, w.position))
    else
      match w.check
      case Look =>
        if s.slots[i].state.Empty? || !Meets(s.slots[i], w.position, end) then s.(writer := nextSlot)
        else s.(writer := w.(check := FirstScan(0, false)))
      case FirstScan(row, active) =>
        if row == |s.pins| then s.(writer := w.(check := Retire))
        else if !active then
          s.(writer := w.(check := if s.active[row] then FirstScan(row, true) else FirstScan(row + 1, false)))
        else if s.pins[row][i] != 0 then s.(writer := nextSlot.(blocked := true))
        else s.(writer := w.(check := FirstScan(row + 1, false)))
      case Retire => RetireSlot(s, i).(writer := w.(check := SecondScan(0, false)))
      case SecondScan(row, active) =>
        if row == |s.pins| then s.(writer := nextSlot)
        else if !active then
          s.(writer := w.(check := if s.active[row] then SecondScan(row, true) else SecondScan(row + 1, false)))
        else if s.pins[row][i] != 0 then s.(writer := nextSlot.(blocked := true))
        else s.(writer := w.(check := SecondScan(row + 1, false)))
  }

  function StepVet(s: State): State
    requires Shaped(s) && s.writer.Vetting?
  {
    var w := s.writer;
    if w.row == |s.pins| then s.(writer := Numbering(w.job, w.position, w.slot))
    else if !w.active then
      s.(writer := if s.active[w.row] then w.(active := true) else w.(row := w.row + 1))
    else if s.pins[w.row][w.slot] != 0 then s.(writer := Choosing(w.job, w.position))
    else s.(writer := w.(row := w.row + 1, active := false))
  }

  function StepNumber(s: State): State
    requires s.writer.Numbering?
  {
    var w := s.writer;
    if s.counter >= U64_MAX then s.(writer := Locked)
    else s.(counter := s.counter + 1, writer := Copying(w.job, w.position, w.slot, s.counter + 1, 0))
  }

  function StepCopy(s: State): State
    requires Shaped(s) && s.writer.Copying?
  {
    var w := s.writer;
    var content := Content(w.job.record);
    if w.next < |content| then
      s.(ring := s.ring[w.position + w.next := content[w.next]],
         writer := Copying(w.job, w.position, w.slot, w.generation, w.next + 1))
    else s.(writer := Storing(w.job, w.position, w.slot, w.generation, 0))
  }

  function Target(w: Writer): Words
    requires w.Storing?
  {
    WordsOf(w.job.key, w.job.record, w.position, w.generation)
  }

  function StepStore(s: State): State
    requires Shaped(s) && s.writer.Storing?
  {
    var w := s.writer;
    var slot := s.slots[w.slot];
    if w.next < WORDS then
      s.(slots := s.slots[w.slot := slot.(words := slot.words[w.next := Target(w)[w.next]])],
         writer := Storing(w.job, w.position, w.slot, w.generation, w.next + 1))
    else
      s.(slots := s.slots[w.slot := slot.(state := if w.job.key.Some? then Live else Addressed)],
         published := s.published[w.generation := Published(w.slot, w.job.key, w.job.record, w.position)],
         writer := Locked)
  }

  function Ended(threads: Threads, row: nat): Threads {
    map t | t in threads :: if threads[t].row == row then threads[t].(pc := Done) else threads[t]
  }

  ghost function Apply(s: State, step: Step): State
    requires Shaped(s) && Enabled(s, step)
  {
    match step
    case Claim(row) => s.(alive := s.alive[row := true], active := s.active[row := true])
    case Die(row) => s.(alive := s.alive[row := false], threads := Ended(s.threads, row))
    case ClearPin(row, i) => WithPin(s, row, i, 0)
    case Deactivate(row) => s.(active := s.active[row := false])
    case StartLookup(t, row, i, generation, key) =>
      s.(threads := s.threads[t := Thread(row, i, generation, key, if i < |s.slots| then Pin else Done)])
    case RunReader(t) => Read(s, t)
    case DropEntry(t) =>
      var th := s.threads[t];
      WithPin(s, th.row, th.slot, Dropped(s.pins[th.row][th.slot])).(threads := Goto(s.threads, t, Done))
    case Lock => s.(writer := Locked)
    case Unlock => s.(writer := Unlocked)
    case Evict(i) => RetireSlot(s, i)
    case StartWrite(job, position) => s.(writer := Scanning(job, position, 0, Look, false))
    case Retry(position) => s.(writer := Scanning(s.writer.job, position, 0, Look, false))
    case Choose(i) =>
      if s.slots[i].state.Empty? then s.(writer := Numbering(s.writer.job, s.writer.position, i))
      else RetireSlot(s, i).(writer := Vetting(s.writer.job, s.writer.position, i, 0, false))
    case GiveUp => s.(writer := Locked)
    case RunWriter =>
      match s.writer {
        case Scanning(_, _, _, _, _) => StepScan(s)
        case Vetting(_, _, _, _, _) => StepVet(s)
        case Numbering(_, _, _) => StepNumber(s)
        case Copying(_, _, _, _, _) => StepCopy(s)
        case Storing(_, _, _, _, _) => StepStore(s)
      }
    case CrashWriter => s.(writer := Unlocked)
  }

  // --------------------------------------------------------------------- invariant

  /** The slot's words and its span of the ring are exactly one published record. */
  ghost predicate Intact(slots: seq<RawSlot>, ring: seq<nat>, published: map<nat, Published>, j: nat)
    requires j < |slots|
  {
    var generation := Generation(slots[j]);
    && generation in published
    && var p := published[generation];
    && p.slot == j
    && slots[j].words == WordsOf(p.key, p.record, p.position, generation)
    && p.position + |Content(p.record)| <= |ring|
    && ring[p.position..p.position + |Content(p.record)|] == Content(p.record)
  }

  ghost predicate NoneRelies(threads: Threads, j: nat) {
    forall t :: t in threads && threads[t].slot == j ==> !Relies(threads[t].pc)
  }

  ghost predicate NoneReliesBelow(threads: Threads, j: nat, row: nat) {
    forall t :: t in threads && threads[t].slot == j && threads[t].row < row ==> !Relies(threads[t].pc)
  }

  /** Nobody can be reading the slot, and nobody can start to. */
  ghost predicate Clear(slots: seq<RawSlot>, threads: Threads, j: nat)
    requires j < |slots|
  {
    (slots[j].state.Empty? || slots[j].state.Retired?) && NoneRelies(threads, j)
  }

  ghost predicate ClearIfMet(slots: seq<RawSlot>, threads: Threads, start: nat, end: nat, j: nat)
    requires j < |slots|
  {
    Meets(slots[j], start, end) ==> Clear(slots, threads, j)
  }

  ghost predicate WindowClear(slots: seq<RawSlot>, threads: Threads, start: nat, end: nat, upTo: nat) {
    forall j :: 0 <= j < upTo && j < |slots| ==> ClearIfMet(slots, threads, start, end, j)
  }

  ghost function Pinners(threads: Threads, row: nat, i: nat): set<nat> {
    set t | t in threads && threads[t].row == row && threads[t].slot == i && Pinned(threads[t].pc)
  }

  ghost predicate RowCounts(threads: Threads, pins: seq<seq<nat>>, row: nat)
    requires row < |pins|
  {
    forall i :: 0 <= i < |pins[row]| ==> pins[row][i] == |Pinners(threads, row, i)| <= U32_MAX
  }

  ghost predicate RowsInvariant(s: State)
    requires Shaped(s)
  {
    && (forall row :: 0 <= row < |s.alive| && s.alive[row] ==> s.active[row] && RowCounts(s.threads, s.pins, row))
    && (forall t :: t in s.threads && !s.threads[t].pc.Done? ==> s.alive[s.threads[t].row])
  }

  ghost predicate SlotInvariant(slots: seq<RawSlot>, ring: seq<nat>, published: map<nat, Published>, j: nat)
    requires j < |slots|
  {
    && (slots[j].state.Live? ==> Intact(slots, ring, published, j) && published[Generation(slots[j])].key.Some?)
    && (slots[j].state.Addressed? ==> Intact(slots, ring, published, j) && published[Generation(slots[j])].key.None?)
  }

  ghost predicate ThreadInvariant(slots: seq<RawSlot>, ring: seq<nat>, published: map<nat, Published>, th: Thread) {
    Relies(th.pc) ==>
      && th.slot < |slots|
      && !slots[th.slot].state.Empty?
      && Intact(slots, ring, published, th.slot)
      && var words := slots[th.slot].words;
      && (th.key.Some? <==> published[words[9]].key.Some?)
      && (!th.pc.LoadGeneration? ==> words[9] == th.generation)
      && (th.pc.LoadKeyLow? || th.pc.LoadKeyHigh? ==> th.key.Some?)
      && (th.pc.LoadKeyHigh? ==> words[0] == th.key.value.lo)
      && (th.pc.LoadEntry? || th.pc.Holding? ==> published[words[9]].key == th.key)
      && (th.pc.LoadEntry? ==> |th.pc.words| <= 7 && th.pc.words == words[2..2 + |th.pc.words|])
      && (th.pc.Holding? ==> th.pc.words == words[2..9])
  }

  ghost predicate WriterInvariant(s: State)
    requires Shaped(s)
  {
    match s.writer
    case Unlocked => true
    case Locked => true
    case Scanning(job, position, i, check, blocked) =>
      && (!blocked ==> WindowClear(s.slots, s.threads, position, position + |Content(job.record)|, i))
      && (check.SecondScan? ==>
          !s.slots[i].state.Live? && !s.slots[i].state.Addressed? && NoneReliesBelow(s.threads, i, check.row))
    case Choosing(job, position) =>
      WindowClear(s.slots, s.threads, position, position + |Content(job.record)|, |s.slots|)
    case Vetting(job, position, i, row, _) =>
      && WindowClear(s.slots, s.threads, position, position + |Content(job.record)|, |s.slots|)
      && s.slots[i].state.Retired? && NoneReliesBelow(s.threads, i, row)
    case Numbering(job, position, i) =>
      && WindowClear(s.slots, s.threads, position, position + |Content(job.record)|, |s.slots|)
      && Clear(s.slots, s.threads, i)
    case Copying(job, position, i, generation, next) =>
      && WindowClear(s.slots, s.threads, position, position + |Content(job.record)|, |s.slots|)
      && Clear(s.slots, s.threads, i)
      && generation == s.counter && generation !in s.published
      && s.ring[position..position + next] == Content(job.record)[..next]
    case Storing(job, position, i, generation, next) =>
      && Clear(s.slots, s.threads, i)
      && generation == s.counter && generation !in s.published
      && s.ring[position..position + |Content(job.record)|] == Content(job.record)
      && s.slots[i].words[..next] == Target(s.writer)[..next]
  }

  ghost predicate Invariant(s: State) {
    && Shaped(s)
    && s.counter <= U64_MAX
    && (forall g :: g in s.published ==> g <= s.counter && s.published[g].slot < |s.slots|)
    && RowsInvariant(s)
    && (forall j :: 0 <= j < |s.slots| ==> SlotInvariant(s.slots, s.ring, s.published, j))
    && (forall t :: t in s.threads ==> ThreadInvariant(s.slots, s.ring, s.published, s.threads[t]))
    && WriterInvariant(s)
  }

  // ----------------------------------------------------------- counting the pinners

  lemma PinnersAfter(threads: Threads, t: nat, th: Thread, row: nat, i: nat)
    requires t in threads ==> th.row == threads[t].row && th.slot == threads[t].slot
    ensures
      var before := Pinners(threads, row, i);
      Pinners(threads[t := th], row, i) ==
        if th.row == row && th.slot == i && Pinned(th.pc) then before + {t} else before - {t}
  {
  }

  lemma CountAfter(threads: Threads, t: nat, pc: Pc, row: nat, i: nat)
    requires t in threads
    ensures
      var here := threads[t].row == row && threads[t].slot == i;
      var before := |Pinners(threads, row, i)|;
      |Pinners(Goto(threads, t, pc), row, i)| ==
        if here && Pinned(pc) && !Pinned(threads[t].pc) then before + 1
        else if here && !Pinned(pc) && Pinned(threads[t].pc) then before - 1
        else before
  {
    var th := threads[t].(pc := pc);
    PinnersAfter(threads, t, th, row, i);
    var before := Pinners(threads, row, i);
    if threads[t].row == row && threads[t].slot == i {
      if Pinned(pc) == Pinned(threads[t].pc) {
        assert Pinners(Goto(threads, t, pc), row, i) == before;
      }
    } else {
      assert t !in before;
      assert before - {t} == before;
    }
  }

  lemma PinnersPositive(s: State, t: nat)
    requires Shaped(s) && RowsInvariant(s) && t in s.threads && Pinned(s.threads[t].pc)
    ensures s.pins[s.threads[t].row][s.threads[t].slot] > 0
  {
    assert t in Pinners(s.threads, s.threads[t].row, s.threads[t].slot);
  }

  // ------------------------------------------------------------------ reader steps

  ghost function Moved(s: State, t: nat, pc: Pc): State
    requires Shaped(s) && t in s.threads && !s.threads[t].pc.Done?
  {
    var th := s.threads[t];
    var count := s.pins[th.row][th.slot];
    var count' :=
      if Pinned(pc) && !Pinned(th.pc) then count + 1
      else if !Pinned(pc) && Pinned(th.pc) then Dropped(count)
      else count;
    WithPin(s, th.row, th.slot, count').(threads := Goto(s.threads, t, pc))
  }

  /** A thread moves on: the pin it takes or gives back keeps every row exact. */
  lemma ThreadMoveKeepsRows(s: State, t: nat, pc: Pc)
    requires Shaped(s) && RowsInvariant(s)
    requires t in s.threads && !s.threads[t].pc.Done?
    requires Pinned(pc) && !Pinned(s.threads[t].pc) ==> s.pins[s.threads[t].row][s.threads[t].slot] < U32_MAX
    ensures Shaped(Moved(s, t, pc)) && RowsInvariant(Moved(s, t, pc))
  {
    var th := s.threads[t];
    var s' := Moved(s, t, pc);
    if Pinned(th.pc) {
      PinnersPositive(s, t);
    }
    forall row | 0 <= row < |s.alive| && s.alive[row] ensures s'.active[row] && RowCounts(s'.threads, s'.pins, row) {
      assert RowCounts(s.threads, s.pins, row);
      forall i | 0 <= i < |s'.pins[row]| ensures s'.pins[row][i] == |Pinners(s'.threads, row, i)| <= U32_MAX {
        CountAfter(s.threads, t, pc, row, i);
      }
    }
  }

  /** A thread that comes to rely on a slot saw it live or addressed. */
  ghost predicate RelianceIsFresh(s: State, t: nat, pc: Pc)
    requires t in s.threads && s.threads[t].slot < |s.slots|
  {
    Relies(pc) && !Relies(s.threads[t].pc) ==>
      s.slots[s.threads[t].slot].state.Live? || s.slots[s.threads[t].slot].state.Addressed?
  }

  lemma ThreadMoveKeepsWriter(s: State, t: nat, pc: Pc, pins: seq<seq<nat>>)
    requires Invariant(s) && t in s.threads && s.threads[t].slot < |s.slots|
    requires RelianceIsFresh(s, t, pc)
    requires Shaped(s.(threads := Goto(s.threads, t, pc), pins := pins))
    ensures WriterInvariant(s.(threads := Goto(s.threads, t, pc), pins := pins))
  {
    var threads := Goto(s.threads, t, pc);
    forall j | 0 <= j < |s.slots|
      ensures Clear(s.slots, s.threads, j) ==> Clear(s.slots, threads, j)
      ensures forall start, end :: ClearIfMet(s.slots, s.threads, start, end, j) ==>
        ClearIfMet(s.slots, threads, start, end, j)
    {
    }
  }

  lemma ThreadMoveKeeps(s: State, t: nat, pc: Pc)
    requires Invariant(s) && t in s.threads && !s.threads[t].pc.Done?
    requires RelianceIsFresh(s, t, pc)
    requires Pinned(pc) && !Pinned(s.threads[t].pc) ==> s.pins[s.threads[t].row][s.threads[t].slot] < U32_MAX
    requires ThreadInvariant(s.slots, s.ring, s.published, s.threads[t].(pc := pc))
    ensures Invariant(Moved(s, t, pc))
  {
    var s' := Moved(s, t, pc);
    ThreadMoveKeepsRows(s, t, pc);
    ThreadMoveKeepsWriter(s, t, pc, s'.pins);
  }

  lemma ReadMoves(s: State, t: nat)
    requires Shaped(s) && Enabled(s, RunReader(t))
    ensures Read(s, t) == Moved(s, t, Read(s, t).threads[t].pc)
    ensures Pinned(Read(s, t).threads[t].pc) && !Pinned(s.threads[t].pc) ==>
      s.pins[s.threads[t].row][s.threads[t].slot] < U32_MAX
  {
    var th := s.threads[t];
    var count := s.pins[th.row][th.slot];
    assert s.pins[th.row][th.slot := count] == s.pins[th.row];
    assert s.pins[th.row := s.pins[th.row]] == s.pins;
  }

  lemma ReaderAdvanceIsSound(s: State, t: nat)
    requires Invariant(s) && Enabled(s, RunReader(t))
    ensures
      var pc := Read(s, t).threads[t].pc;
      && RelianceIsFresh(s, t, pc)
      && ThreadInvariant(s.slots, s.ring, s.published, s.threads[t].(pc := pc))
  {
    var th := s.threads[t];
    assert ThreadInvariant(s.slots, s.ring, s.published, th);
    assert SlotInvariant(s.slots, s.ring, s.published, th.slot);
    if th.pc.LoadEntry? && |th.pc.words| < 7 {
      var words := s.slots[th.slot].words;
      assert words[2..3 + |th.pc.words|] == words[2..2 + |th.pc.words|] + [words[2 + |th.pc.words|]];
    }
  }

  lemma ReaderKeeps(s: State, t: nat)
    requires Invariant(s) && Enabled(s, RunReader(t))
    ensures Invariant(Read(s, t))
  {
    var pc := Read(s, t).threads[t].pc;
    ReadMoves(s, t);
    ReaderAdvanceIsSound(s, t);
    ThreadMoveKeeps(s, t, pc);
  }

  lemma LookupStartKeeps(s: State, t: nat, th: Thread)
    requires Invariant(s) && t !in s.threads && (th.pc.Pin? || th.pc.Done?)
    requires th.pc.Pin? ==> th.slot < |s.slots| && th.row < |s.alive| && s.alive[th.row]
    ensures Invariant(s.(threads := s.threads[t := th]))
  {
    var threads := s.threads[t := th];
    forall row, i ensures Pinners(threads, row, i) == Pinners(s.threads, row, i) {
    }
    forall j | 0 <= j < |s.slots|
      ensures Clear(s.slots, s.threads, j) ==> Clear(s.slots, threads, j)
      ensures forall start, end :: ClearIfMet(s.slots, s.threads, start, end, j) ==>
        ClearIfMet(s.slots, threads, start, end, j)
    {
    }
  }

  // --------------------------------------------------------------------- row steps

  lemma ClaimKeeps(s: State, row: nat)
    requires Invariant(s) && Enabled(s, Claim(row))
    ensures Invariant(Apply(s, Claim(row)))
  {
    forall i ensures Pinners(s.threads, row, i) == {} {
    }
  }

  lemma DieKeepsWriter(s: State, row: nat)
    requires Invariant(s) && Enabled(s, Die(row))
    ensures Shaped(Apply(s, Die(row))) && WriterInvariant(Apply(s, Die(row)))
  {
    var threads := Ended(s.threads, row);
    forall j | 0 <= j < |s.slots|
      ensures Clear(s.slots, s.threads, j) ==> Clear(s.slots, threads, j)
      ensures forall start, end :: ClearIfMet(s.slots, s.threads, start, end, j) ==>
        ClearIfMet(s.slots, threads, start, end, j)
    {
    }
  }

  lemma DieKeeps(s: State, row: nat)
    requires Invariant(s) && Enabled(s, Die(row))
    ensures Invariant(Apply(s, Die(row)))
  {
    var threads := Ended(s.threads, row);
    DieKeepsWriter(s, row);
    forall other, i | other != row ensures Pinners(threads, other, i) == Pinners(s.threads, other, i) {
    }
  }

  /** Clearing counters or the flag of a row nobody owns releases no one's pin. */
  lemma DeadRowKeeps(s: State, row: nat, s': State)
    requires Invariant(s) && row < |s.alive| && !s.alive[row] && Shaped(s')
    requires s' == s.(pins := s'.pins, active := s'.active)
    requires forall r :: 0 <= r < |s.alive| && r != row ==> s'.pins[r] == s.pins[r] && s'.active[r] == s.active[r]
    ensures Invariant(s')
  {
  }

  // ------------------------------------------------------------------ writer steps

  lemma WriterMoves(s: State, w: Writer)
    requires Invariant(s) && Shaped(s.(writer := w)) && WriterInvariant(s.(writer := w))
    ensures Invariant(s.(writer := w))
  {
  }

  lemma RetireKeepsSlot(s: State, i: nat, j: nat)
    requires Invariant(s) && i < |s.slots| && j < |s.slots|
    ensures Intact(s.slots, s.ring, s.published, j) ==> Intact(RetireSlot(s, i).slots, s.ring, s.published, j)
    ensures SlotInvariant(RetireSlot(s, i).slots, s.ring, s.published, j)
  {
    assert SlotInvariant(s.slots, s.ring, s.published, j);
  }

  lemma RetireKeepsWriter(s: State, i: nat)
    requires Invariant(s) && i < |s.slots|
    ensures Shaped(RetireSlot(s, i)) && WriterInvariant(RetireSlot(s, i))
  {
    var slots := RetireSlot(s, i).slots;
    forall j | 0 <= j < |s.slots|
      ensures Clear(s.slots, s.threads, j) ==> Clear(slots, s.threads, j)
      ensures forall start, end :: ClearIfMet(s.slots, s.threads, start, end, j) ==>
        ClearIfMet(slots, s.threads, start, end, j)
    {
    }
  }

  lemma RetireKeeps(s: State, i: nat)
    requires Invariant(s) && i < |s.slots|
    ensures Invariant(RetireSlot(s, i))
  {
    var s' := RetireSlot(s, i);
    RetireKeepsWriter(s, i);
    forall j | 0 <= j < |s.slots|
      ensures Intact(s.slots, s.ring, s.published, j) ==> Intact(s'.slots, s.ring, s.published, j)
      ensures SlotInvariant(s'.slots, s.ring, s.published, j)
    {
      RetireKeepsSlot(s, i, j);
    }
    forall t | t in s.threads ensures ThreadInvariant(s'.slots, s.ring, s.published, s.threads[t]) {
      assert ThreadInvariant(s.slots, s.ring, s.published, s.threads[t]);
    }
  }

  /** One row of a pin scan read as clean really has nobody relying on the slot. */
  lemma CleanRow(s: State, i: nat, row: nat)
    requires Invariant(s) && i < |s.slots| && row < |s.pins|
    requires !s.active[row] || s.pins[row][i] == 0
    requires NoneReliesBelow(s.threads, i, row)
    ensures NoneReliesBelow(s.threads, i, row + 1)
  {
    forall t | t in s.threads && s.threads[t].slot == i && s.threads[t].row == row ensures !Relies(s.threads[t].pc) {
      if Relies(s.threads[t].pc) {
        PinnersPositive(s, t);
      }
    }
  }

  lemma AllRowsClean(s: State, i: nat)
    requires Invariant(s) && i < |s.slots| && NoneReliesBelow(s.threads, i, |s.pins|)
    ensures NoneRelies(s.threads, i)
  {
  }

  lemma SecondScanKeeps(s: State)
    requires Invariant(s) && s.writer.Scanning? && s.writer.slot < |s.slots| && s.writer.check.SecondScan?
    ensures Invariant(StepScan(s))
  {
    var w := s.writer;
    var row := w.check.row;
    if row == |s.pins| {
      AllRowsClean(s, w.slot);
      assert ClearIfMet(s.slots, s.threads, w.position, w.position + |Content(w.job.record)|, w.slot);
    } else if !w.check.active {
      if !s.active[row] {
        CleanRow(s, w.slot, row);
      }
    } else if s.pins[row][w.slot] == 0 {
      CleanRow(s, w.slot, row);
    }
    WriterMoves(s, StepScan(s).writer);
  }

  lemma EmptyIsClear(s: State, i: nat)
    requires Invariant(s) && i < |s.slots| && s.slots[i].state.Empty?
    ensures Clear(s.slots, s.threads, i)
  {
  }

  lemma LookKeeps(s: State)
    requires Invariant(s) && s.writer.Scanning? && s.writer.slot < |s.slots| && s.writer.check.Look?
    ensures Invariant(StepScan(s))
  {
    var w := s.writer;
    var end := w.position + |Content(w.job.record)|;
    if s.slots[w.slot].state.Empty? {
      EmptyIsClear(s, w.slot);
    }
    if StepScan(s).writer.check.Look? {
      assert ClearIfMet(s.slots, s.threads, w.position, end, w.slot);
    }
    WriterMoves(s, StepScan(s).writer);
  }

  lemma ScanEndKeeps(s: State)
    requires Invariant(s) && s.writer.Scanning? && s.writer.slot == |s.slots| && !s.writer.blocked
    ensures Invariant(StepScan(s))
  {
  }

  lemma FirstScanKeeps(s: State)
    requires Invariant(s) && s.writer.Scanning? && s.writer.slot < |s.slots| && s.writer.check.FirstScan?
    ensures Invariant(StepScan(s))
  {
    WriterMoves(s, StepScan(s).writer);
  }

  lemma RetireStageKeeps(s: State)
    requires Invariant(s) && s.writer.Scanning? && s.writer.slot < |s.slots| && s.writer.check.Retire?
    ensures Invariant(StepScan(s))
  {
    RetireKeeps(s, s.writer.slot);
    WriterMoves(RetireSlot(s, s.writer.slot), StepScan(s).writer);
  }

  lemma ScanKeeps(s: State)
    requires Invariant(s) && s.writer.Scanning? && Enabled(s, RunWriter)
    ensures Invariant(StepScan(s))
  {
    if s.writer.slot == |s.slots| {
      ScanEndKeeps(s);
    } else {
      match s.writer.check
      case Look => LookKeeps(s);
      case FirstScan(_, _) => FirstScanKeeps(s);
      case Retire => RetireStageKeeps(s);
      case SecondScan(_, _) => SecondScanKeeps(s);
    }
  }

  lemma ChooseKeeps(s: State, i: nat)
    requires Invariant(s) && Enabled(s, Choose(i))
    ensures Invariant(Apply(s, Choose(i)))
  {
    if s.slots[i].state.Empty? {
      EmptyIsClear(s, i);
      WriterMoves(s, Apply(s, Choose(i)).writer);
    } else {
      RetireKeeps(s, i);
      WriterMoves(RetireSlot(s, i), Apply(s, Choose(i)).writer);
    }
  }

  lemma VetKeeps(s: State)
    requires Invariant(s) && s.writer.Vetting?
    ensures Invariant(StepVet(s))
  {
    var w := s.writer;
    if w.row == |s.pins| {
      AllRowsClean(s, w.slot);
    } else if (!w.active && !s.active[w.row]) || (w.active && s.pins[w.row][w.slot] == 0) {
      CleanRow(s, w.slot, w.row);
    }
    WriterMoves(s, StepVet(s).writer);
  }

  lemma NumberKeeps(s: State)
    requires Invariant(s) && s.writer.Numbering?
    ensures Invariant(StepNumber(s))
  {
  }

  /** A byte written inside a cleared window leaves alone every slot that is not clear. */
  lemma CopyLeavesIntact(s: State, j: nat)
    requires Invariant(s) && s.writer.Copying? && s.writer.next < |Content(s.writer.job.record)|
    requires j < |s.slots| && !Clear(s.slots, s.threads, j) && Intact(s.slots, s.ring, s.published, j)
    ensures Intact(s.slots, StepCopy(s).ring, s.published, j)
  {
    var w := s.writer;
    assert ClearIfMet(s.slots, s.threads, w.position, w.position + |Content(w.job.record)|, j);
    var p := s.published[Generation(s.slots[j])];
    var end := p.position + |Content(p.record)|;
    assert SpanStart(s.slots[j]) == p.position && SpanEnd(s.slots[j]) == end;
    assert StepCopy(s).ring[p.position..end] == s.ring[p.position..end];
  }

  lemma CopyLeavesThreads(s: State)
    requires Invariant(s) && s.writer.Copying? && s.writer.next < |Content(s.writer.job.record)|
    ensures forall t :: t in s.threads ==> ThreadInvariant(s.slots, StepCopy(s).ring, s.published, s.threads[t])
    ensures forall j :: 0 <= j < |s.slots| ==> SlotInvariant(s.slots, StepCopy(s).ring, s.published, j)
  {
    forall t | t in s.threads ensures ThreadInvariant(s.slots, StepCopy(s).ring, s.published, s.threads[t]) {
      assert ThreadInvariant(s.slots, s.ring, s.published, s.threads[t]);
      if Relies(s.threads[t].pc) {
        CopyLeavesIntact(s, s.threads[t].slot);
      }
    }
    forall j | 0 <= j < |s.slots| ensures SlotInvariant(s.slots, StepCopy(s).ring, s.published, j) {
      assert SlotInvariant(s.slots, s.ring, s.published, j);
      if s.slots[j].state.Live? || s.slots[j].state.Addressed? {
        CopyLeavesIntact(s, j);
      }
    }
  }

  lemma CopyAdvances(s: State)
    requires Invariant(s) && s.writer.Copying? && s.writer.next < |Content(s.writer.job.record)|
    ensures WriterInvariant(StepCopy(s))
  {
  }

  lemma CopyKeeps(s: State)
    requires Invariant(s) && s.writer.Copying?
    ensures Invariant(StepCopy(s))
  {
    var w := s.writer;
    var content := Content(w.job.record);
    if w.next < |content| {
      CopyLeavesThreads(s);
      CopyAdvances(s);
    } else {
      assert content[..w.next] == content;
      WriterMoves(s, StepCopy(s).writer);
    }
  }

  /** Words and state of a clear slot are written under nobody's eyes. */
  lemma StoreLeavesOthers(s: State)
    requires Invariant(s) && s.writer.Storing?
    ensures
      var s' := StepStore(s);
      && (forall j :: 0 <= j < |s.slots| && j != s.writer.slot ==> SlotInvariant(s'.slots, s'.ring, s'.published, j))
      && (forall t :: t in s.threads ==> ThreadInvariant(s'.slots, s'.ring, s'.published, s.threads[t]))
  {
    var s' := StepStore(s);
    forall j | 0 <= j < |s.slots| && j != s.writer.slot
      ensures Intact(s.slots, s.ring, s.published, j) ==> Intact(s'.slots, s'.ring, s'.published, j)
      ensures SlotInvariant(s'.slots, s'.ring, s'.published, j)
    {
      assert SlotInvariant(s.slots, s.ring, s.published, j);
    }
    forall t | t in s.threads ensures ThreadInvariant(s'.slots, s'.ring, s'.published, s.threads[t]) {
      assert ThreadInvariant(s.slots, s.ring, s.published, s.threads[t]);
    }
  }

  lemma StoreAdvances(s: State)
    requires Invariant(s) && s.writer.Storing?
    ensures Shaped(StepStore(s)) && WriterInvariant(StepStore(s))
    ensures SlotInvariant(StepStore(s).slots, StepStore(s).ring, StepStore(s).published, s.writer.slot)
  {
    var w := s.writer;
    var s' := StepStore(s);
    var target := Target(w);
    if w.next < WORDS {
      var words := s'.slots[w.slot].words;
      assert words[..w.next + 1] == words[..w.next] + [words[w.next]];
      assert words[..w.next] == s.slots[w.slot].words[..w.next];
      assert target[..w.next + 1] == target[..w.next] + [target[w.next]];
    } else {
      assert s.slots[w.slot].words[..w.next] == s.slots[w.slot].words;
      assert target[..w.next] == target;
      assert Intact(s'.slots, s'.ring, s'.published, w.slot);
    }
  }

  lemma StoreKeeps(s: State)
    requires Invariant(s) && s.writer.Storing?
    ensures Invariant(StepStore(s))
  {
    StoreAdvances(s);
    StoreLeavesOthers(s);
  }

  lemma StepKeepsInvariant(s: State, step: Step)
    requires Invariant(s) && Enabled(s, step)
    ensures Invariant(Apply(s, step))
  {
    match step
    case Claim(row) => ClaimKeeps(s, row);
    case Die(row) => DieKeeps(s, row);
    case ClearPin(row, i) => ClearPinKeeps(s, row, i);
    case Deactivate(row) => DeactivateKeeps(s, row);
    case StartLookup(_, _, _, _, _) => StartLookupKeeps(s, step);
    case RunReader(t) => ReaderKeeps(s, t);
    case DropEntry(t) => DropKeeps(s, t);
    case Evict(i) => RetireKeeps(s, i);
    case Choose(i) => ChooseKeeps(s, i);
    case RunWriter => WriterStepKeeps(s);
    case _ => LockStepKeeps(s, step);
  }

  lemma ClearPinKeeps(s: State, row: nat, i: nat)
    requires Invariant(s) && Enabled(s, ClearPin(row, i))
    ensures Invariant(WithPin(s, row, i, 0))
  {
    DeadRowKeeps(s, row, WithPin(s, row, i, 0));
  }

  lemma DeactivateKeeps(s: State, row: nat)
    requires Invariant(s) && Enabled(s, Deactivate(row))
    ensures Invariant(s.(active := s.active[row := false]))
  {
  }

  lemma StartLookupKeeps(s: State, step: Step)
    requires Invariant(s) && step.StartLookup? && Enabled(s, step)
    ensures Invariant(Apply(s, step))
  {
    LookupStartKeeps(s, step.t, Apply(s, step).threads[step.t]);
  }

  lemma DropKeeps(s: State, t: nat)
    requires Invariant(s) && Enabled(s, DropEntry(t))
    ensures Invariant(Apply(s, DropEntry(t)))
  {
    ThreadMoveKeeps(s, t, Done);
  }

  lemma LockStepKeeps(s: State, step: Step)
    requires Invariant(s) && Enabled(s, step)
    requires step.Lock? || step.Unlock? || step.StartWrite? || step.Retry? || step.GiveUp? || step.CrashWriter?
    ensures Invariant(Apply(s, step))
  {
    WriterMoves(s, Apply(s, step).writer);
  }

  lemma WriterStepKeeps(s: State)
    requires Invariant(s) && Enabled(s, RunWriter)
    ensures Invariant(Apply(s, RunWriter))
  {
    match s.writer
    case Scanning(_, _, _, _, _) => ScanKeeps(s);
    case Vetting(_, _, _, _, _) => VetKeeps(s);
    case Numbering(_, _, _) => NumberKeeps(s);
    case Copying(_, _, _, _, _) => CopyKeeps(s);
    case Storing(_, _, _, _, _) => StoreKeeps(s);
  }
}
