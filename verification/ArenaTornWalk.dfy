/** The one way that `ArenaWalk` leaves for a `get` to miss a key that is live throughout: an
    execution in which it happens. */
module ArenaTornWalk {

  import opened Wrappers
  import opened ArenaTypes
  import opened ArenaPins
  import opened ArenaPinsRuns
  import opened ArenaPlan
  import opened ArenaPlanRuns
  import opened ArenaWalk
  import opened ArenaWalkSteps
  import Index = ArenaIndex

  /** An execution so far. */
  datatype Trace = Trace(ss: seq<State>, steps: seq<Step>) {
    ghost predicate Valid() { IsPlannedExecution(ss, steps) }

    function Last(): State
      requires ss != []
    {
      ss[|ss| - 1]
    }

    ghost predicate Continues(e: Trace) { e.ss <= ss && e.steps <= steps }
  }

  lemma Extend(e: Trace, step: Step) returns (e': Trace)
    requires e.Valid() && Shaped(e.Last()) && Enabled(e.Last(), step) && Chosen(e.Last(), step)
    ensures e'.Valid() && e'.Continues(e) && e'.Last() == Apply(e.Last(), step)
    ensures |e'.ss| == |e.ss| + 1 && e'.steps == e.steps + [step]
  {
    e' := Trace(e.ss + [Apply(e.Last(), step)], e.steps + [step]);
    forall i | 0 <= i < |e'.steps|
      ensures Shaped(e'.ss[i]) && Enabled(e'.ss[i], e'.steps[i]) && e'.ss[i + 1] == Apply(e'.ss[i], e'.steps[i])
      ensures Chosen(e'.ss[i], e'.steps[i])
    {
      if i < |e.steps| {
        assert e'.ss[i] == e.ss[i] && e'.ss[i + 1] == e.ss[i + 1] && e'.steps[i] == e.steps[i];
      }
    }
  }

  const NOTHING := Record([], None, 0, 0)
  const ZEROS: Words := [0, 0, 0, 0, 0, 0, 0, 0, 0, 0]

  function SlotOf(key: Key, generation: nat): RawSlot { RawSlot(Live, WordsOf(Some(key), NOTHING, 0, generation)) }

  /** Two slots, no bytes, one living reader process and no lookup yet. */
  ghost predicate Small(s: State) {
    && |s.slots| == 2 && s.ring == [] && s.active == [true] && s.alive == [true] && s.pins == [[0, 0]]
    && s.threads == map[]
  }

  function JobOf(key: Key): Job { Job(Some(key), NOTHING) }

  function Second(s: State): Option<RawSlot> { if |s.slots| == 2 then Some(s.slots[1]) else None }

  /** The last state of an execution is the given one, and the second slot has not moved since
      another execution. */
  ghost predicate Reaches(e: Trace, from: Trace, s: State, still: bool) {
    && e.Valid() && e.Continues(from) && from.ss != [] && e.ss != [] && e.Last() == s
    && (still ==> forall x :: |from.ss| <= x < |e.ss| ==> Second(e.ss[x]) == Second(from.Last()))
  }

  lemma GoOn(e: Trace, from: Trace, s: State, step: Step, s': State, still: bool) returns (e': Trace)
    requires Reaches(e, from, s, still)
    requires Shaped(s) && Enabled(s, step) && Chosen(s, step) && Apply(s, step) == s'
    requires still ==> Second(s') == Second(from.Last())
    ensures Reaches(e', from, s', still)
  {
    e' := Extend(e, step);
  }

  // ------------------------------------------------------------------- single steps

  lemma ScanStep(s: State, key: Key, i: nat)
    requires Small(s) && i < 2 && s.writer == Scanning(JobOf(key), 0, i, Look, false)
    ensures Shaped(s) && Enabled(s, RunWriter)
    ensures Apply(s, RunWriter) == s.(writer := Scanning(JobOf(key), 0, i + 1, Look, false))
  {
  }

  lemma ScanEnds(s: State, key: Key)
    requires Small(s) && s.writer == Scanning(JobOf(key), 0, 2, Look, false)
    ensures Shaped(s) && Enabled(s, RunWriter)
    ensures Apply(s, RunWriter) == s.(writer := Choosing(JobOf(key), 0))
  {
  }

  lemma ChooseEmpty(s: State, key: Key, i: nat)
    requires Small(s) && i < 2 && s.writer == Choosing(JobOf(key), 0) && s.slots[i].state.Empty?
    ensures Shaped(s) && Enabled(s, Choose(i))
    ensures Apply(s, Choose(i)) == s.(writer := Numbering(JobOf(key), 0, i))
  {
  }

  lemma ChooseLive(s: State, key: Key, i: nat)
    requires Small(s) && i < 2 && s.writer == Choosing(JobOf(key), 0) && s.slots[i].state.Live?
    ensures Shaped(s) && Enabled(s, Choose(i))
    ensures Apply(s, Choose(i)) ==
      s.(slots := s.slots[i := s.slots[i].(state := Retired)], writer := Vetting(JobOf(key), 0, i, 0, false))
  {
  }

  lemma VetStep(s: State, key: Key, i: nat, row: nat, active: bool)
    requires Small(s) && i < 2 && s.writer == Vetting(JobOf(key), 0, i, row, active) &&
        row <= 1 && (active ==> row == 0)
    ensures Shaped(s) && Enabled(s, RunWriter)
    ensures Apply(s, RunWriter) == s.(writer :=
      if row == 1 then Numbering(JobOf(key), 0, i)
      else if active then Vetting(JobOf(key), 0, i, 1, false) else Vetting(JobOf(key), 0, i, 0, true))
  {
  }

  lemma NumberStep(s: State, key: Key, i: nat)
    requires Small(s) && i < 2 && s.writer == Numbering(JobOf(key), 0, i) && s.counter < 3
    ensures Shaped(s) && Enabled(s, RunWriter)
    ensures Apply(s, RunWriter) == s.(counter := s.counter + 1, writer := Copying(JobOf(key), 0, i, s.counter + 1, 0))
  {
  }

  lemma CopyStep(s: State, key: Key, i: nat)
    requires Small(s) && i < 2 && s.writer == Copying(JobOf(key), 0, i, s.counter, 0)
    ensures Shaped(s) && Enabled(s, RunWriter)
    ensures Apply(s, RunWriter) == s.(writer := Storing(JobOf(key), 0, i, s.counter, 0))
  {
  }

  /** The slot with the first `k` words of the record to come. */
  function Half(slot: RawSlot, key: Key, generation: nat, k: nat): RawSlot
    requires k <= WORDS
  {
    slot.(words := WordsOf(Some(key), NOTHING, 0, generation)[..k] + slot.words[k..])
  }

  lemma HalfGoesOn(slot: RawSlot, key: Key, generation: nat, k: nat)
    requires k < WORDS
    ensures Half(slot, key, generation, k + 1).words ==
      Half(slot, key, generation, k).words[k := WordsOf(Some(key), NOTHING, 0, generation)[k]]
  {
  }

  lemma StoreWord(s: State, slot: RawSlot, key: Key, i: nat, k: nat)
    requires Small(s) && i < 2 && k < WORDS && s.writer == Storing(JobOf(key), 0, i, s.counter, k)
    requires s.slots[i] == Half(slot, key, s.counter, k)
    ensures Shaped(s) && Enabled(s, RunWriter)
    ensures Apply(s, RunWriter) ==
      s.(slots := s.slots[i := Half(slot, key, s.counter, k + 1)],
        writer := Storing(JobOf(key), 0, i, s.counter, k + 1))
  {
    HalfGoesOn(slot, key, s.counter, k);
  }

  lemma PublishStep(s: State, slot: RawSlot, key: Key, i: nat)
    requires Small(s) && i < 2 && s.writer == Storing(JobOf(key), 0, i, s.counter, WORDS)
    requires s.slots[i] == Half(slot, key, s.counter, WORDS)
    ensures Shaped(s) && Enabled(s, RunWriter)
    ensures Apply(s, RunWriter) ==
      s.(slots := s.slots[i := SlotOf(key, s.counter)], writer := Locked,
         published := s.published[s.counter := Published(i, Some(key), NOTHING, 0)])
  {
    var words := WordsOf(Some(key), NOTHING, 0, s.counter);
    assert words[..WORDS] == words && slot.words[WORDS..] == [];
    assert Half(slot, key, s.counter, WORDS) == slot.(words := words);
    assert Target(s.writer) == words;
  }

  // ------------------------------------------------------------------- whole stages

  /** The search for no bytes meets no slot. */
  lemma ScanPasses(e: Trace, from: Trace, s: State, key: Key, still: bool) returns (e': Trace)
    requires Reaches(e, from, s, still) && Small(s) && s.writer.Locked? && Unnamed(s.slots, Some(key))
    requires still ==> Second(s) == Second(from.Last())
    ensures Reaches(e', from, s.(writer := Choosing(JobOf(key), 0)), still)
  {
    var s0 := s.(writer := Scanning(JobOf(key), 0, 0, Look, false));
    var s1 := s.(writer := Scanning(JobOf(key), 0, 1, Look, false));
    var s2 := s.(writer := Scanning(JobOf(key), 0, 2, Look, false));
    ScanStarts(s, key);
    e' := GoOn(e, from, s, StartWrite(JobOf(key), 0), s0, still);
    ScanStep(s0, key, 0);
    e' := GoOn(e', from, s0, RunWriter, s1, still);
    ScanStep(s1, key, 1);
    e' := GoOn(e', from, s1, RunWriter, s2, still);
    ScanEnds(s2, key);
    e' := GoOn(e', from, s2, RunWriter, s.(writer := Choosing(JobOf(key), 0)), still);
  }

  lemma ScanStarts(s: State, key: Key)
    requires Small(s) && s.writer.Locked?
    ensures Shaped(s) && Enabled(s, StartWrite(JobOf(key), 0))
    ensures Apply(s, StartWrite(JobOf(key), 0)) == s.(writer := Scanning(JobOf(key), 0, 0, Look, false))
  {
  }

  function Writing(s: State, slot: RawSlot, key: Key, i: nat, k: nat): State
    requires i < |s.slots| && k <= WORDS
  {
    s.(slots := s.slots[i := Half(slot, key, s.counter, k)], writer := Storing(JobOf(key), 0, i, s.counter, k))
  }

  lemma WritingGoesOn(s: State, slot: RawSlot, key: Key, i: nat, k: nat)
    requires Small(s) && i < 2 && k < WORDS
    ensures
      var w := Writing(s, slot, key, i, k);
      && Shaped(w) && Enabled(w, RunWriter)
      && Apply(w, RunWriter) == Writing(s, slot, key, i, k + 1)
  {
    StoreWord(Writing(s, slot, key, i, k), slot, key, i, k);
    var half, next := Half(slot, key, s.counter, k), Half(slot, key, s.counter, k + 1);
    assert s.slots[i := half][i := next] == s.slots[i := next];
  }

  /** A chosen slot gets its first `k` words. */
  lemma {:induction false} WordsGo(e: Trace, from: Trace, s: State, slot: RawSlot, key: Key,
      i: nat, k: nat, still: bool)
    returns (e': Trace)
    requires Small(s) && i < 2 && k <= WORDS && Reaches(e, from, Writing(s, slot, key, i, 0), still)
    requires still ==> i == 0 && Second(s) == Second(from.Last())
    ensures Reaches(e', from, Writing(s, slot, key, i, k), still)
  {
    e' := e;
    if k > 0 {
      e' := WordsGo(e, from, s, slot, key, i, k - 1, still);
      WritingGoesOn(s, slot, key, i, k - 1);
      e' := GoOn(e', from, Writing(s, slot, key, i, k - 1), RunWriter, Writing(s, slot, key, i, k), still);
    }
  }

  function Numbered(s: State): State { s.(counter := s.counter + 1) }

  /** A slot that was chosen is about to get its words. */
  lemma Prepared(e: Trace, from: Trace, s: State, key: Key, i: nat, still: bool) returns (e': Trace)
    requires Small(s) && i < 2 && s.counter < 3 && Reaches(e, from, s.(writer := Numbering(JobOf(key), 0, i)), still)
    requires still ==> Second(s) == Second(from.Last())
    ensures Reaches(e', from, Writing(Numbered(s), s.slots[i], key, i, 0), still)
  {
    var s0 := s.(writer := Numbering(JobOf(key), 0, i));
    var s1 := Numbered(s).(writer := Copying(JobOf(key), 0, i, s.counter + 1, 0));
    var s2 := Numbered(s).(writer := Storing(JobOf(key), 0, i, s.counter + 1, 0));
    NumberStep(s0, key, i);
    e' := GoOn(e, from, s0, RunWriter, s1, still);
    CopyStep(s1, key, i);
    e' := GoOn(e', from, s1, RunWriter, s2, still);
    assert Half(s.slots[i], key, s.counter + 1, 0) == s.slots[i];
    assert s.slots[i := s.slots[i]] == s.slots;
  }

  /** The state after an empty record was published. */
  function After(s: State, key: Key, i: nat): State
    requires i < |s.slots|
  {
    s.(slots := s.slots[i := SlotOf(key, s.counter + 1)], counter := s.counter + 1, writer := Locked,
       published := s.published[s.counter + 1 := Published(i, Some(key), NOTHING, 0)])
  }

  lemma WritingEnds(s: State, slot: RawSlot, key: Key, i: nat)
    requires Small(s) && i < 2
    ensures
      var w := Writing(Numbered(s), slot, key, i, WORDS);
      && Shaped(w) && Enabled(w, RunWriter) && Apply(w, RunWriter) == After(s, key, i)
  {
    PublishStep(Writing(Numbered(s), slot, key, i, WORDS), slot, key, i);
    var half := Half(slot, key, s.counter + 1, WORDS);
    assert s.slots[i := half][i := SlotOf(key, s.counter + 1)] == s.slots[i := SlotOf(key, s.counter + 1)];
  }

  /** An empty record goes whole into an EMPTY slot. */
  lemma Filed(e: Trace, from: Trace, s: State, key: Key, i: nat) returns (e': Trace)
    requires Reaches(e, from, s, false) && Small(s) && i < 2 && s.counter < 3
    requires s.writer.Locked? && Unnamed(s.slots, Some(key))
    requires s.slots[i].state.Empty? && OnChain(s.slots, Some(key), i)
    ensures Reaches(e', from, After(s, key, i), false)
  {
    e' := ScanPasses(e, from, s, key, false);
    ChooseEmpty(s.(writer := Choosing(JobOf(key), 0)), key, i);
    e' := GoOn(e', from, s.(writer := Choosing(JobOf(key), 0)),
      Choose(i), s.(writer := Numbering(JobOf(key), 0, i)), false);
    e' := Prepared(e', from, s, key, i, false);
    e' := WordsGo(e', from, Numbered(s), s.slots[i], key, i, WORDS, false);
    WritingEnds(s, s.slots[i], key, i);
    e' := GoOn(e', from, Writing(Numbered(s), s.slots[i], key, i, WORDS), RunWriter, After(s, key, i), false);
  }

  // ------------------------------------------------------------------------ the run

  const OLD := Key(2, 1)
  const KEY := Key(0, 1)
  const NEW := Key(0, 5)

  function Ready(): State {
    State([RawSlot(Empty, ZEROS), RawSlot(Empty, ZEROS)], [], 0, [true], [[0, 0]], [true], map[], Locked, map[])
  }

  /** A process claims its row and takes the writer lock. */
  lemma Begins() returns (e: Trace)
    ensures Reaches(e, e, Ready(), false)
  {
    var s := Ready();
    var s0 := s.(active := [false], alive := [false], writer := Unlocked);
    var s1 := s.(writer := Unlocked);
    e := Trace([s0], []);
    e := GoOn(e, e, s0, Claim(0), s1, false);
    e := GoOn(e, e, s1, Lock, s, false);
  }

  function Both(): State { After(After(Ready(), OLD, 0), KEY, 1) }

  /** Two records are filed: one at the home of the key, and the key's own behind it. */
  lemma BothFiled() returns (e: Trace)
    ensures Reaches(e, e, Both(), false)
  {
    var from := Begins();
    e := Filed(from, from, Ready(), OLD, 0);
    var s := After(Ready(), OLD, 0);
    assert KeyOf(s.slots[0]) == OLD;
    assert OnChain(s.slots, Some(KEY), 1);
    e := Filed(e, from, s, KEY, 1);
  }

  function Rewritten(): State {
    var s := Both();
    Writing(Numbered(s), s.slots[0].(state := Retired), NEW, 0, 1)
  }

  /** Nobody pins the slot. */
  lemma Vetted(e: Trace, from: Trace, s: State, key: Key, i: nat, still: bool) returns (e': Trace)
    requires Small(s) && i < 2 && Reaches(e, from, s.(writer := Vetting(JobOf(key), 0, i, 0, false)), still)
    requires still ==> Second(s) == Second(from.Last())
    ensures Reaches(e', from, s.(writer := Numbering(JobOf(key), 0, i)), still)
  {
    var s0 := s.(writer := Vetting(JobOf(key), 0, i, 0, false));
    var s1 := s.(writer := Vetting(JobOf(key), 0, i, 0, true));
    var s2 := s.(writer := Vetting(JobOf(key), 0, i, 1, false));
    VetStep(s0, key, i, 0, false);
    e' := GoOn(e, from, s0, RunWriter, s1, still);
    VetStep(s1, key, i, 0, true);
    e' := GoOn(e', from, s1, RunWriter, s2, still);
    VetStep(s2, key, i, 1, false);
    e' := GoOn(e', from, s2, RunWriter, s.(writer := Numbering(JobOf(key), 0, i)), still);
  }

  function Taken(): State {
    Both().(slots := Both().slots[0 := Both().slots[0].(state := Retired)])
  }

  lemma FirstSlotTaken(from: Trace) returns (e: Trace)
    requires Reaches(from, from, Both(), true)
    ensures Reaches(e, from, Taken().(writer := Vetting(JobOf(NEW), 0, 0, 0, false)), true)
  {
    var s := Both();
    assert KeyOf(s.slots[0]) == OLD && KeyOf(s.slots[1]) == KEY;
    e := ScanPasses(from, from, s, NEW, true);
    var chosen := s.(writer := Choosing(JobOf(NEW), 0));
    ChooseLive(chosen, NEW, 0);
    e := GoOn(e, from, chosen, Choose(0), Taken().(writer := Vetting(JobOf(NEW), 0, 0, 0, false)), true);
  }

  /** The writer takes the first slot for a third record and stores one of its key words. */
  lemma FirstWordStored(from: Trace) returns (e: Trace)
    requires Reaches(from, from, Both(), true)
    ensures Reaches(e, from, Rewritten(), true)
  {
    var s := Taken();
    e := FirstSlotTaken(from);
    e := Vetted(e, from, s, NEW, 0, true);
    e := Prepared(e, from, s, NEW, 0, true);
    e := WordsGo(e, from, Numbered(s), s.slots[0], NEW, 0, 1, true);
    var half := Half(s.slots[0], NEW, s.counter + 1, 1);
    assert s.slots[0 := half] == Both().slots[0 := half];
  }

  function Calling(pc: Pc, pins: seq<seq<nat>>): State {
    Rewritten().(pins := pins, threads := map[0 := Thread(0, 0, 1, Some(KEY), pc)])
  }

  lemma CallStarts()
    ensures
      var s := Rewritten();
      && Shaped(s) && Enabled(s, StartLookup(0, 0, 0, 1, Some(KEY)))
      && Apply(s, StartLookup(0, 0, 0, 1, Some(KEY))) == Calling(Pin, [[0, 0]])
  {
  }

  lemma CallPins()
    ensures
      var s := Calling(Pin, [[0, 0]]);
      Shaped(s) && Enabled(s, RunReader(0)) && Apply(s, RunReader(0)) == Calling(LoadState, [[1, 0]])
  {
    assert [0, 0][0 := 1] == [1, 0];
  }

  lemma CallLooks()
    ensures
      var s := Calling(LoadState, [[1, 0]]);
      Shaped(s) && Enabled(s, RunReader(0)) && Apply(s, RunReader(0)) == Calling(Unpin, [[1, 0]])
  {
    assert Rewritten().slots[0].state.Retired?;
  }

  lemma CallUnpins()
    ensures
      var s := Calling(Unpin, [[1, 0]]);
      Shaped(s) && Enabled(s, RunReader(0)) && Apply(s, RunReader(0)) == Calling(Done, [[0, 0]])
  {
    assert [1, 0][0 := 0] == [0, 0];
  }

  /** A call of thread zero has not come to an entry. */
  ghost predicate EmptyHanded(s: State) { 0 in s.threads && !s.threads[0].pc.Holding? }

  ghost predicate Leads(s: State, step: Step, s': State) {
    Shaped(s) && Enabled(s, step) && Apply(s, step) == s' && (step.RunReader? || step.StartLookup?)
  }

  /** `e` has gone on from `base` by `k` steps of the call. */
  ghost predicate Called(e: Trace, base: Trace, k: nat) {
    && e.Continues(base) && |e.ss| == |base.ss| + k && |e.steps| == |base.steps| + k
    && forall x :: |base.ss| <= x < |e.ss| ==> EmptyHanded(e.ss[x])
  }

  lemma CallStep(e: Trace, base: Trace, from: Trace, k: nat, s: State, step: Step, s': State) returns (e': Trace)
    requires Reaches(e, from, s, true) && Called(e, base, k) && Leads(s, step, s')
    requires EmptyHanded(s') && Second(s') == Second(from.Last())
    ensures Reaches(e', from, s', true) && Called(e', base, k + 1)
    ensures e'.Continues(e) && e'.steps == e.steps + [step]
  {
    e' := Extend(e, step);
  }

  /** The call that the walk makes there finds the slot retired. */
  lemma CallMisses(e: Trace, from: Trace) returns (e': Trace)
    requires Reaches(e, from, Rewritten(), true) && Second(Rewritten()) == Second(from.Last())
    ensures Reaches(e', from, Calling(Done, [[0, 0]]), true) && e'.Continues(e)
    ensures |e'.ss| == |e.ss| + 4 && |e.steps| + 4 == |e'.steps|
    ensures e'.steps[|e.steps|] == StartLookup(0, 0, 0, 1, Some(KEY))
    ensures forall x :: |e.ss| <= x < |e'.ss| ==> EmptyHanded(e'.ss[x])
  {
    CallStarts();
    CallPins();
    CallLooks();
    CallUnpins();
    var s0, s1, s2 := Rewritten(), Calling(Pin, [[0, 0]]), Calling(LoadState, [[1, 0]]);
    var s3, s4 := Calling(Unpin, [[1, 0]]), Calling(Done, [[0, 0]]);
    e' := CallStep(e, e, from, 0, s0, StartLookup(0, 0, 0, 1, Some(KEY)), s1);
    e' := CallStep(e', e, from, 1, s1, RunReader(0), s2);
    e' := CallStep(e', e, from, 2, s2, RunReader(0), s3);
    e' := CallStep(e', e, from, 3, s3, RunReader(0), s4);
  }

  /** So a `get` can miss a key live throughout: its walk meets one key word of the record
      that leaves the first slot and one of the record that comes, takes them for its key, and
      the call it makes there ends without an entry. */
  lemma TornWalkMisses() returns (ss: seq<State>, steps: seq<Step>, rs: seq<Probe>, first: nat, last: nat, b: nat)
    ensures IsPlannedExecution(ss, steps) && IsWalk(ss, KEY, rs, first, last)
    ensures LiveThroughout(ss, KEY, 1, first, last) && EndsAt(ss, KEY, rs, first, last, 0)
    ensures b < |steps| == last && rs[0].high <= b && steps[b] == StartLookup(0, 0, 0, 1, Some(KEY))
    ensures 0 in ss[last].threads && ss[last].threads[0].pc.Done?
    ensures forall x :: b < x <= last ==> EmptyHanded(ss[x])
  {
    var from := BothFiled();
    var torn := FirstWordStored(from);
    assert Second(Rewritten()) == Second(Both());
    var e := CallMisses(torn, from);
    ss, steps, first, last, b := e.ss, e.steps, |from.ss| - 1, |e.ss| - 1, |torn.steps|;
    var w := |torn.ss| - 1;
    rs := [Probe(first, w, w)];
    assert ss[first] == from.ss[first] == Both();
    assert ss[w] == torn.ss[w] == Rewritten();
    forall x | 0 <= x < |ss| ensures |ss[x].slots| == |ss[0].slots| {
      SlotsStay(ss, steps, 0, x);
    }
    assert ss[first].slots[1] == SlotOf(KEY, 2) && Named(SlotOf(KEY, 2), KEY);
    forall x | first <= x <= last ensures 1 < |ss[x].slots| && Named(ss[x].slots[1], KEY) {
      assert x > first ==> Second(ss[x]) == Second(from.Last());
    }
  }
}
