/** The arena's slot index and byte ring as values (`arena/src/lib.rs`): the open-addressed
    probe chain, the spans records occupy, and the lossy map they implement. */
module ArenaIndex {

  import opened Wrappers
  import opened ArenaTypes

  datatype Address = Address(slot: nat, generation: nat)

  datatype Slot = Slot(
    state: SlotState, key: Key, start: nat, bodyLen: nat, encodedLen: nat,
    tag: nat, stamp: nat, extra: nat, generation: nat)

  const BLANK := Slot(Empty, Key(0, 0), 0, 0, 0, 0, 0, 0, 0)

  function End(s: Slot): nat { s.start + s.bodyLen + s.encodedLen }

  /** The overlap test of the allocator, which a zero-length span inside also meets. */
  predicate Meets(s: Slot, start: nat, end: nat) { !s.state.Empty? && End(s) > start && s.start < end }

  predicate Covers(start: nat, end: nat, x: nat) { start <= x < end }

  ghost predicate SharesByte(s: Slot, start: nat, end: nat) {
    exists x :: Covers(s.start, End(s), x) && Covers(start, end, x)
  }

  /** What the test says: the window and the span share a byte, or one of them has no bytes and
      lies strictly inside the other. */
  lemma MeetsIff(s: Slot, start: nat, end: nat)
    requires !s.state.Empty? && start <= end
    ensures Meets(s, start, end) <==>
      || SharesByte(s, start, end)
      || (End(s) == s.start && start < s.start < end)
      || (start == end && s.start < start < End(s))
  {
    var x := if s.start < start then start else s.start;
    if Meets(s, start, end) && start < end && s.start < End(s) {
      assert Covers(s.start, End(s), x) && Covers(start, end, x);
    }
  }

  predicate Published(s: Slot) { s.state.Live? || s.state.Addressed? }

  predicate Names(s: Slot, key: Key) { s.state.Live? && s.key == key }

  function Evicted(s: Slot): Slot { if s.state.Empty? then s else s.(state := Retired) }

  // ------------------------------------------------------------------- probe chain

  function Home(key: Key, n: nat): (h: nat)
    requires n > 0
    ensures h < n
  {
    key.lo % n
  }

  function ProbeAt(key: Key, n: nat, d: nat): (i: nat)
    requires d < n
    ensures i < n
  {
    if Home(key, n) + d < n then Home(key, n) + d else Home(key, n) + d - n
  }

  function Distance(key: Key, n: nat, i: nat): (d: nat)
    requires i < n
    ensures d < n && ProbeAt(key, n, d) == i
  {
    if i >= Home(key, n) then i - Home(key, n) else i + n - Home(key, n)
  }

  /** No EMPTY slot comes before `i` on the key's probe chain. */
  ghost predicate Reachable(slots: seq<Slot>, key: Key, i: nat)
    requires i < |slots|
  {
    forall d :: 0 <= d < Distance(key, |slots|, i) ==> !slots[ProbeAt(key, |slots|, d)].state.Empty?
  }

  // -------------------------------------------------------------------- invariants

  ghost predicate Chained(slots: seq<Slot>) {
    forall i :: 0 <= i < |slots| && slots[i].state.Live? ==> Reachable(slots, slots[i].key, i)
  }

  ghost predicate OneLivePerKey(slots: seq<Slot>) {
    forall i, j |
      0 <= i < |slots| && 0 <= j < |slots| && slots[i].state.Live? && slots[j].state.Live?
      && slots[i].key == slots[j].key :: i == j
  }

  /** Somebody may read the slot's bytes: it is published, or an entry still pins it. */
  predicate InUse(slots: seq<Slot>, held: set<nat>, i: nat)
    requires i < |slots|
  {
    Published(slots[i]) || (i in held && !slots[i].state.Empty?)
  }

  predicate Apart(a: Slot, b: Slot) { End(a) <= b.start || End(b) <= a.start }

  ghost predicate SpansApart(slots: seq<Slot>, held: set<nat>, bytes: nat) {
    && (forall i :: 0 <= i < |slots| && InUse(slots, held, i) ==> End(slots[i]) <= bytes)
    && (forall i, j |
          0 <= i < |slots| && 0 <= j < |slots| && i != j && InUse(slots, held, i) && InUse(slots, held, j) ::
          Apart(slots[i], slots[j]))
  }

  ghost predicate WellFormed(slots: seq<Slot>, held: set<nat>, bytes: nat, counter: nat) {
    && |slots| > 0
    && Chained(slots) && OneLivePerKey(slots) && SpansApart(slots, held, bytes)
    && forall i :: 0 <= i < |slots| ==> slots[i].generation <= counter
  }

  /** The same slots, some of them retired. */
  ghost predicate OnlyRetired(before: seq<Slot>, after: seq<Slot>) {
    && |after| == |before|
    && forall i :: 0 <= i < |before| ==> after[i] == before[i] || after[i] == Evicted(before[i])
  }

  lemma RetiringKeepsWellFormed(before: seq<Slot>, after: seq<Slot>, held: set<nat>, bytes: nat, counter: nat)
    requires WellFormed(before, held, bytes, counter) && OnlyRetired(before, after)
    ensures WellFormed(after, held, bytes, counter)
  {
  }

  lemma OnlyRetiredIsTransitive(a: seq<Slot>, b: seq<Slot>, c: seq<Slot>)
    requires OnlyRetired(a, b) && OnlyRetired(b, c)
    ensures OnlyRetired(a, c)
  {
  }

  // ------------------------------------------------------------------ the lossy map

  /** What a record is fetched by: its key, or the exact slot and generation. */
  datatype Name = Keyed(key: Key) | At(address: Address)

  function NameOf(slots: seq<Slot>, i: nat): Name
    requires i < |slots|
  {
    if slots[i].state.Live? then Keyed(slots[i].key) else At(Address(i, slots[i].generation))
  }

  function Stored(ring: seq<nat>, s: Slot): Record {
    if End(s) <= |ring| then
      Record(
        ring[s.start..s.start + s.bodyLen],
        if s.encodedLen > 0 then Some(Encoded(ring[s.start + s.bodyLen..End(s)], s.tag)) else None,
        s.stamp, s.extra)
    else Record([], None, 0, 0)
  }

  /** Everything the arena would answer, by name. */
  ghost function View(slots: seq<Slot>, ring: seq<nat>): map<Name, Record>
    requires OneLivePerKey(slots)
  {
    map i | 0 <= i < |slots| && Published(slots[i]) :: NameOf(slots, i) := Stored(ring, slots[i])
  }

  lemma ViewAt(slots: seq<Slot>, ring: seq<nat>, i: nat)
    requires OneLivePerKey(slots) && i < |slots| && Published(slots[i])
    ensures NameOf(slots, i) in View(slots, ring) && View(slots, ring)[NameOf(slots, i)] == Stored(ring, slots[i])
  {
  }

  lemma ViewHas(slots: seq<Slot>, ring: seq<nat>, name: Name) returns (i: nat)
    requires OneLivePerKey(slots) && name in View(slots, ring)
    ensures i < |slots| && Published(slots[i]) && NameOf(slots, i) == name
    ensures View(slots, ring)[name] == Stored(ring, slots[i])
  {
    i :| 0 <= i < |slots| && Published(slots[i]) && NameOf(slots, i) == name;
  }

  /** `small` answers only what `big` answers, and the same. */
  ghost predicate Within(small: map<Name, Record>, big: map<Name, Record>) {
    forall name :: name in small ==> name in big && small[name] == big[name]
  }

  lemma RetiringOnlyForgets(before: seq<Slot>, after: seq<Slot>, ring: seq<nat>)
    requires OneLivePerKey(before) && OneLivePerKey(after) && OnlyRetired(before, after)
    ensures Within(View(after, ring), View(before, ring))
  {
    forall name | name in View(after, ring)
      ensures name in View(before, ring) && View(after, ring)[name] == View(before, ring)[name]
    {
      var i := ViewHas(after, ring, name);
      ViewAt(before, ring, i);
    }
  }

  /** Two indexes that agree on every published slot but `i` answer alike but for its name. */
  lemma ViewsAgreeElsewhere(a: seq<Slot>, ringA: seq<nat>, b: seq<Slot>, ringB: seq<nat>, i: nat)
    requires OneLivePerKey(a) && OneLivePerKey(b) && |a| == |b| && i < |a|
    requires forall j :: 0 <= j < |a| && j != i ==>
      (Published(a[j]) ==> a[j] == b[j] && Stored(ringA, a[j]) == Stored(ringB, b[j]))
    ensures forall name :: name in View(a, ringA) && !(Published(a[i]) && name == NameOf(a, i)) ==>
      name in View(b, ringB) && View(b, ringB)[name] == View(a, ringA)[name]
  {
  }

  lemma EvictedNameIsGone(slots: seq<Slot>, ring: seq<nat>, i: nat)
    requires OneLivePerKey(slots) && i < |slots| && Published(slots[i])
    ensures OneLivePerKey(slots[i := Evicted(slots[i])])
    ensures NameOf(slots, i) !in View(slots[i := Evicted(slots[i])], ring)
  {
  }

  lemma IsWithout(small: map<Name, Record>, big: map<Name, Record>, name: Name)
    requires name !in small && Within(small, big)
    requires forall x :: x in big && x != name ==> x in small && small[x] == big[x]
    ensures small == big - {name}
  {
  }

  /** Retiring exactly one published slot removes exactly its name. */
  lemma EvictingForgetsItsName(slots: seq<Slot>, ring: seq<nat>, i: nat)
    requires OneLivePerKey(slots) && i < |slots| && Published(slots[i])
    ensures OneLivePerKey(slots[i := Evicted(slots[i])])
    ensures View(slots[i := Evicted(slots[i])], ring) == View(slots, ring) - {NameOf(slots, i)}
  {
    var after := slots[i := Evicted(slots[i])];
    EvictedNameIsGone(slots, ring, i);
    ViewsAgreeElsewhere(slots, ring, after, ring, i);
    ViewsAgreeElsewhere(after, ring, slots, ring, i);
    IsWithout(View(after, ring), View(slots, ring), NameOf(slots, i));
  }

  // ------------------------------------------------------------------ installation

  /** No slot anybody reads, other than `i` itself, touches the window. */
  ghost predicate WindowFree(slots: seq<Slot>, held: set<nat>, i: nat, start: nat, end: nat) {
    forall j :: 0 <= j < |slots| && j != i && InUse(slots, held, j) ==> !Meets(slots[j], start, end)
  }

  lemma InstallKeepsWellFormed(slots: seq<Slot>, held: set<nat>, bytes: nat, counter: nat, i: nat, slot: Slot)
    requires WellFormed(slots, held, bytes, counter)
    requires i < |slots| && Published(slot) && slot.generation == counter + 1
    requires slot.state.Live? ==>
      Reachable(slots, slot.key, i) && forall j :: 0 <= j < |slots| ==> !Names(slots[j], slot.key)
    requires End(slot) <= bytes && WindowFree(slots, held, i, slot.start, End(slot))
    ensures WellFormed(slots[i := slot], held, bytes, counter + 1)
  {
  }

  /** Bytes outside the window are the ones that were there. */
  ghost predicate OnlyWindowWritten(before: seq<nat>, after: seq<nat>, start: nat, end: nat) {
    && |after| == |before|
    && forall x :: 0 <= x < |before| && !(start <= x < end) ==> after[x] == before[x]
  }

  lemma UntouchedContent(before: seq<nat>, after: seq<nat>, s: Slot, start: nat, end: nat)
    requires OnlyWindowWritten(before, after, start, end)
    requires !s.state.Empty? && !Meets(s, start, end)
    ensures Stored(after, s) == Stored(before, s)
  {
    if End(s) <= |before| {
      assert after[s.start..s.start + s.bodyLen] == before[s.start..s.start + s.bodyLen];
      assert after[s.start + s.bodyLen..End(s)] == before[s.start + s.bodyLen..End(s)];
    }
  }

  function SlotFor(key: Option<Key>, r: Record, start: nat, generation: nat): Slot {
    Slot(
      if key.Some? then Live else Addressed,
      if key.Some? then key.value else Key(0, 0),
      start, |r.body|, |EncodedBytes(r)|,
      if r.encoded.Some? then r.encoded.value.tag else 0,
      r.stamp, r.extra, generation)
  }

  lemma StoredIsWritten(ring: seq<nat>, key: Option<Key>, r: Record, start: nat, generation: nat)
    requires start + |Content(r)| <= |ring| && ring[start..start + |Content(r)|] == Content(r)
    ensures Stored(ring, SlotFor(key, r, start, generation)) == Normal(r)
  {
    var content := ring[start..start + |Content(r)|];
    assert content[..|r.body|] == r.body;
    assert content[|r.body|..] == EncodedBytes(r);
    assert ring[start..start + |r.body|] == content[..|r.body|];
    assert ring[start + |r.body|..start + |Content(r)|] == content[|r.body|..];
  }

  lemma UntouchedInUse(
      slots: seq<Slot>, before: seq<nat>, after: seq<nat>, held: set<nat>, i: nat, start: nat, end: nat, j: nat)
    requires j < |slots| && j != i && InUse(slots, held, j)
    requires WindowFree(slots, held, i, start, end) && OnlyWindowWritten(before, after, start, end)
    ensures Stored(after, slots[j]) == Stored(before, slots[j])
  {
    UntouchedContent(before, after, slots[j], start, end);
  }

  lemma InstalledNameIsNew(slots: seq<Slot>, i: nat, slot: Slot)
    requires OneLivePerKey(slots) && i < |slots| && !Published(slots[i]) && Published(slot)
    requires slot.state.Live? ==> forall j :: 0 <= j < |slots| ==> !Names(slots[j], slot.key)
    ensures OneLivePerKey(slots[i := slot])
    ensures forall ring :: NameOf(slots[i := slot], i) !in View(slots, ring)
  {
  }

  /** A new record appears under its name; every other name keeps its record or misses. */
  lemma InstallAddsItsName(
      slots: seq<Slot>, before: seq<nat>, after: seq<nat>, held: set<nat>, i: nat, slot: Slot)
    requires |before| == |after| && OneLivePerKey(slots)
    requires i < |slots| && !Published(slots[i]) && Published(slot)
    requires slot.state.Live? ==> forall j :: 0 <= j < |slots| ==> !Names(slots[j], slot.key)
    requires WindowFree(slots, held, i, slot.start, End(slot))
    requires OnlyWindowWritten(before, after, slot.start, End(slot))
    ensures
      var slots' := slots[i := slot];
      && OneLivePerKey(slots')
      && View(slots', after) == View(slots, before)[NameOf(slots', i) := Stored(after, slot)]
  {
    var slots' := slots[i := slot];
    InstalledNameIsNew(slots, i, slot);
    forall j | 0 <= j < |slots| && j != i && Published(slots[j])
      ensures Stored(after, slots[j]) == Stored(before, slots[j])
    {
      UntouchedInUse(slots, before, after, held, i, slot.start, End(slot), j);
    }
    ViewsAgreeElsewhere(slots, before, slots', after, i);
    ViewsAgreeElsewhere(slots', after, slots, before, i);
    ViewAt(slots', after, i);
  }

  /** A slot an entry pins keeps its words and its bytes. */
  ghost predicate EntriesKept(
      before: seq<Slot>, ringBefore: seq<nat>, after: seq<Slot>, ringAfter: seq<nat>, held: set<nat>)
  {
    |after| == |before| && forall i :: 0 <= i < |before| && i in held && !before[i].state.Empty? ==>
      (after[i] == before[i] || after[i] == Evicted(before[i]))
      && Stored(ringAfter, after[i]) == Stored(ringBefore, before[i])
  }

  lemma InstallKeepsEntries(slots: seq<Slot>, before: seq<nat>, after: seq<nat>, held: set<nat>, i: nat, slot: Slot)
    requires i < |slots| && (i in held ==> slots[i].state.Empty?)
    requires WindowFree(slots, held, i, slot.start, End(slot))
    requires OnlyWindowWritten(before, after, slot.start, End(slot))
    ensures EntriesKept(slots, before, slots[i := slot], after, held)
  {
    forall j | 0 <= j < |slots| && j in held && !slots[j].state.Empty?
      ensures Stored(after, slots[j]) == Stored(before, slots[j])
    {
      UntouchedInUse(slots, before, after, held, i, slot.start, End(slot), j);
    }
  }

  /** A writer that dies between a reservation and the publication leaves some bytes of its
      window and some words of its slot behind, in any mixture of old and new: the index
      stays well formed, every answer stays what it was and no entry loses anything. */
  lemma DeathMidPutIsHarmless(
      slots: seq<Slot>, before: seq<nat>, after: seq<nat>, held: set<nat>, bytes: nat, counter: nat,
      i: nat, torn: Slot, start: nat, end: nat)
    requires WellFormed(slots, held, bytes, counter)
    requires i < |slots| && !Published(slots[i]) && (i in held ==> slots[i].state.Empty?)
    requires torn.state == slots[i].state && torn.generation <= counter + 1
    requires WindowFree(slots, held, i, start, end) && OnlyWindowWritten(before, after, start, end)
    ensures WellFormed(slots[i := torn], held, bytes, counter + 1)
    ensures View(slots[i := torn], after) == View(slots, before)
    ensures EntriesKept(slots, before, slots[i := torn], after, held)
  {
    forall j | 0 <= j < |slots| && j != i && InUse(slots, held, j)
      ensures Stored(after, slots[j]) == Stored(before, slots[j])
    {
      UntouchedInUse(slots, before, after, held, i, start, end, j);
    }
    TornKeepsWellFormed(slots, held, bytes, counter, i, torn);
    ViewsAgreeElsewhere(slots, before, slots[i := torn], after, i);
    ViewsAgreeElsewhere(slots[i := torn], after, slots, before, i);
  }

  lemma TornKeepsWellFormed(slots: seq<Slot>, held: set<nat>, bytes: nat, counter: nat, i: nat, torn: Slot)
    requires WellFormed(slots, held, bytes, counter)
    requires i < |slots| && !Published(slots[i]) && (i in held ==> slots[i].state.Empty?)
    requires torn.state == slots[i].state && torn.generation <= counter + 1
    ensures WellFormed(slots[i := torn], held, bytes, counter + 1)
  {
  }

  // ------------------------------------------------------------------ blocked windows

  /** A pinned span meets the window, so nothing may be written there. */
  ghost predicate Blocked(slots: seq<Slot>, held: set<nat>, start: nat, len: nat) {
    exists i :: 0 <= i < |slots| && i in held && Meets(slots[i], start, start + len)
  }

  ghost predicate AllBlocked(slots: seq<Slot>, held: set<nat>, bytes: nat, len: nat) {
    forall x :: 0 <= x < bytes && x + len <= bytes ==> Blocked(slots, held, x, len)
  }

  /** An empty record can never be kept out of the ring, whatever is pinned. */
  lemma EmptyRecordAlwaysFits(slots: seq<Slot>, held: set<nat>, bytes: nat)
    requires bytes > 0
    ensures !AllBlocked(slots, held, bytes, 0)
  {
    assert !Blocked(slots, held, 0, 0);
  }

  /** Every window starting between a blocked one and the end of its blocker is blocked. */
  lemma BlockedUpToEnd(slots: seq<Slot>, held: set<nat>, start: nat, len: nat, w: nat, x: nat)
    requires w < |slots| && w in held && Meets(slots[w], start, start + len)
    requires start <= x < End(slots[w])
    ensures Blocked(slots, held, x, len)
  {
  }

  lemma RetiringKeepsBlocked(before: seq<Slot>, after: seq<Slot>, held: set<nat>, start: nat, len: nat)
    requires OnlyRetired(before, after)
    ensures Blocked(before, held, start, len) <==> Blocked(after, held, start, len)
  {
  }

  lemma FewerPinsBlockLess(slots: seq<Slot>, held: set<nat>, fewer: set<nat>, start: nat, len: nat)
    requires fewer <= held && Blocked(slots, fewer, start, len)
    ensures Blocked(slots, held, start, len)
  {
  }

  // ------------------------------------------------------------------ lookups and pins

  /** A probe that comes to an EMPTY slot has seen every live slot of its key. */
  lemma EmptyEndsChain(slots: seq<Slot>, key: Key, d: nat)
    requires Chained(slots) && d < |slots| && slots[ProbeAt(key, |slots|, d)].state.Empty?
    requires forall e :: 0 <= e < d ==> !Names(slots[ProbeAt(key, |slots|, e)], key)
    ensures forall i :: 0 <= i < |slots| ==> !Names(slots[i], key)
  {
  }

  lemma WholeChainProbed(slots: seq<Slot>, key: Key)
    requires forall e :: 0 <= e < |slots| ==> !Names(slots[ProbeAt(key, |slots|, e)], key)
    ensures forall i :: 0 <= i < |slots| ==> !Names(slots[i], key)
  {
    forall i | 0 <= i < |slots| ensures !Names(slots[i], key) {
      assert ProbeAt(key, |slots|, Distance(key, |slots|, i)) == i;
    }
  }

  lemma UnnamedIsAbsent(slots: seq<Slot>, ring: seq<nat>, key: Key)
    requires OneLivePerKey(slots) && forall i :: 0 <= i < |slots| ==> !Names(slots[i], key)
    ensures Keyed(key) !in View(slots, ring)
  {
  }

  lemma NamedIsPresent(slots: seq<Slot>, ring: seq<nat>, key: Key, i: nat)
    requires OneLivePerKey(slots) && i < |slots| && Names(slots[i], key)
    ensures Keyed(key) in View(slots, ring) && View(slots, ring)[Keyed(key)] == Stored(ring, slots[i])
  {
  }

  predicate IsAt(slots: seq<Slot>, a: Address) {
    a.slot < |slots| && slots[a.slot].state.Addressed? && slots[a.slot].generation == a.generation
  }

  lemma AddressInView(slots: seq<Slot>, ring: seq<nat>, a: Address)
    requires OneLivePerKey(slots)
    ensures At(a) in View(slots, ring) <==> IsAt(slots, a)
    ensures IsAt(slots, a) ==> View(slots, ring)[At(a)] == Stored(ring, slots[a.slot])
  {
  }

  /** Pins on published slots, and the loss of any pin, keep the spans apart. */
  lemma PinsKeepWellFormed(slots: seq<Slot>, held: set<nat>, held': set<nat>, bytes: nat, counter: nat)
    requires WellFormed(slots, held, bytes, counter)
    requires forall i :: i in held' && i !in held && i < |slots| ==> Published(slots[i])
    ensures WellFormed(slots, held', bytes, counter)
  {
  }
}
