/** The arena as the object its one locked writer and its readers call
    (`arena/src/lib.rs`): slots and ring are fixed buffers changed in place.  Each operation
    runs alone here; `ArenaPins` is about what happens between their atomic steps. */
module ArenaObject {

  import opened Wrappers
  import opened ArenaTypes
  import opened ArenaIndex
  import opened ArenaSearch
  import opened ArenaCost
  import opened Arithmetic

  /** One reader process: `alive` while its kernel hold cannot be taken by another. */
  datatype Row = Row(active: bool, alive: bool, pins: seq<nat>)

  predicate PinnedBy(rows: seq<Row>, i: nat) {
    exists r :: 0 <= r < |rows| && rows[r].active && i < |rows[r].pins| && rows[r].pins[i] != 0
  }

  ghost function HeldIn(rows: seq<Row>, n: nat): set<nat> { set i | 0 <= i < n && PinnedBy(rows, i) }

  /** The same, counting only rows whose owner cannot be proven dead. */
  predicate PinnedByLiving(rows: seq<Row>, own: nat, i: nat) {
    exists r :: 0 <= r < |rows| && rows[r].active && (r == own || rows[r].alive)
      && i < |rows[r].pins| && rows[r].pins[i] != 0
  }

  ghost function LivingHeldIn(rows: seq<Row>, own: nat, n: nat): set<nat> {
    set i | 0 <= i < n && PinnedByLiving(rows, own, i)
  }

  ghost predicate IsReclaimed(before: seq<Row>, after: seq<Row>, own: nat) {
    && |after| == |before|
    && forall r :: 0 <= r < |before| ==>
         after[r] == if IsDead(before, own, r) then Cleared(before[r]) else before[r]
  }

  function Zeros(n: nat): (z: seq<nat>)
    ensures |z| == n && forall i :: 0 <= i < n ==> z[i] == 0
  {
    if n == 0 then [] else Zeros(n - 1) + [0]
  }

  function Cleared(row: Row): Row { Row(false, row.alive, Zeros(|row.pins|)) }

  lemma ReclaimTwice(a: seq<Row>, b: seq<Row>, c: seq<Row>, own: nat)
    requires (b == a || IsReclaimed(a, b, own)) && IsReclaimed(b, c, own)
    ensures IsReclaimed(a, c, own)
  {
  }

  lemma ReclaimLeavesLivingPins(before: seq<Row>, after: seq<Row>, own: nat, n: nat)
    requires IsReclaimed(before, after, own)
    ensures HeldIn(after, n) == LivingHeldIn(before, own, n) == LivingHeldIn(after, own, n) <= HeldIn(before, n)
  {
  }

  datatype Failure = TooLarge | Pinned | Exhausted

  /** A pinned record: which slot, and the words loaded from it. */
  datatype Entry = Entry(slot: nat, words: Slot)

  predicate IsDead(rows: seq<Row>, own: nat, r: nat)
    requires r < |rows|
  {
    r != own && rows[r].active && !rows[r].alive
  }

  function Sum(xs: seq<nat>): nat { if xs == [] then 0 else xs[0] + Sum(xs[1..]) }

  function DeadPins(rows: seq<Row>, own: nat, n: nat): nat
    requires n <= |rows|
  {
    if n == 0 then 0 else DeadPins(rows, own, n - 1) + if IsDead(rows, own, n - 1) then Sum(rows[n - 1].pins) else 0
  }

  lemma LivingAreHeld(rows: seq<Row>, own: nat, n: nat)
    ensures LivingHeldIn(rows, own, n) <= HeldIn(rows, n)
  {
  }

  lemma LivingStaysLiving(before: seq<Row>, after: seq<Row>, own: nat, n: nat)
    requires after == before || IsReclaimed(before, after, own)
    ensures LivingHeldIn(after, own, n) == LivingHeldIn(before, own, n)
  {
  }

  /** Records without a key probe from their offset. */
  function ProbeKey(key: Option<Key>, offset: nat): Key { if key.Some? then key.value else Key(offset, 0) }

  /** What a new record will be fetched by. */
  function NameFor(key: Option<Key>, address: Address): Name { if key.Some? then Keyed(key.value) else At(address) }

  function Minus(m: map<Name, Record>, key: Option<Key>): map<Name, Record> {
    if key.Some? then m - {Keyed(key.value)} else m
  }

  function CountPublished(slots: seq<Slot>, n: nat): nat
    requires n <= |slots|
  {
    if n == 0 then 0 else CountPublished(slots, n - 1) + if Published(slots[n - 1]) then 1 else 0
  }

  lemma OnlyOneNamed(slots: seq<Slot>, after: seq<Slot>, key: Key, i: nat)
    requires OneLivePerKey(slots) && i < |slots| && Names(slots[i], key)
    requires after == slots[i := Evicted(slots[i])]
    ensures forall j :: 0 <= j < |after| ==> !Names(after[j], key)
  {
  }

  lemma AllEvicted(before: seq<Slot>, after: seq<Slot>, ring: seq<nat>, held: set<nat>)
    requires |after| == |before| && forall j :: 0 <= j < |before| ==> after[j] == Evicted(before[j])
    ensures OneLivePerKey(after) && View(after, ring) == map[]
    ensures EntriesKept(before, ring, after, ring, held)
  {
  }

  /** The record is under its name, and every other name answers as before or misses. */
  ghost predicate Filed(before: map<Name, Record>, after: map<Name, Record>,
      key: Option<Key>, address: Address, record: Record) {
    var name := NameFor(key, address);
    name in after && after[name] == Normal(record) && Within(after - {name}, before)
  }

  lemma FiledBy(
      before: map<Name, Record>, ready: map<Name, Record>, after: map<Name, Record>,
      key: Option<Key>, address: Address, record: Record)
    requires Within(ready, Minus(before, key))
    requires after == ready[NameFor(key, address) := Normal(record)]
    ensures Filed(before, after, key, address, record)
  {
  }

  /** A record a living reader holds is not even retired by a put under another key. */
  ghost predicate OthersStayPublished(before: seq<Slot>, after: seq<Slot>, held: set<nat>, key: Option<Key>) {
    |after| == |before| && forall i :: 0 <= i < |before| && i in held && Published(before[i]) ==>
      (key.Some? && Names(before[i], key.value)) || after[i] == before[i]
  }

  ghost predicate HeldInUseKept(before: seq<Slot>, after: seq<Slot>, held: set<nat>) {
    |after| == |before| &&
    forall i :: 0 <= i < |before| && i in held && !before[i].state.Empty? ==> after[i] == before[i]
  }

  /** What one installation comes to: bytes in a free window, then the slot's words. */
  lemma InstallFiles(
      before: seq<Slot>, bytes: seq<nat>, after: seq<Slot>, ring: seq<nat>, held: set<nat>, counter: nat,
      key: Option<Key>, record: Record, offset: nat, i: nat)
    requires WellFormed(before, held, |bytes|, counter) && i < |before| && offset + |Content(record)| <= |bytes|
    requires !Published(before[i]) && (i in held ==> before[i].state.Empty?)
    requires key.Some? ==>
      Reachable(before, key.value, i) && forall j :: 0 <= j < |before| ==> !Names(before[j], key.value)
    requires WindowFree(before, held, i, offset, offset + |Content(record)|)
    requires OnlyWindowWritten(bytes, ring, offset, offset + |Content(record)|)
    requires ring[offset..offset + |Content(record)|] == Content(record)
    requires after == before[i := SlotFor(key, record, offset, counter + 1)]
    ensures WellFormed(after, held, |bytes|, counter + 1)
    ensures View(after, ring) == View(before, bytes)[NameFor(key, Address(i, counter + 1)) := Normal(record)]
    ensures EntriesKept(before, bytes, after, ring, held) && HeldInUseKept(before, after, held)
  {
    var slot := SlotFor(key, record, offset, counter + 1);
    StoredIsWritten(ring, key, record, offset, counter + 1);
    InstallKeepsWellFormed(before, held, |bytes|, counter, i, slot);
    InstallAddsItsName(before, bytes, ring, held, i, slot);
    InstallKeepsEntries(before, bytes, ring, held, i, slot);
  }

  lemma OthersStayOnward(before: seq<Slot>, ready: seq<Slot>, after: seq<Slot>,
      living: set<nat>, held: set<nat>, key: Option<Key>)
    requires OthersStayPublished(before, ready, living, key) && HeldInUseKept(ready, after, held) && living <= held
    ensures OthersStayPublished(before, after, living, key)
  {
  }

  lemma OthersStay(before: seq<Slot>, retired: seq<Slot>, ready: seq<Slot>, held: set<nat>, key: Option<Key>)
    requires |retired| == |before| && HeldKept(retired, ready, held)
    requires forall i :: 0 <= i < |before| && !(key.Some? && Names(before[i], key.value)) ==> retired[i] == before[i]
    ensures OthersStayPublished(before, ready, held, key)
  {
  }

  lemma StillUnnamed(before: seq<Slot>, after: seq<Slot>, key: Option<Key>)
    requires OnlyRetired(before, after)
    requires key.Some? ==> forall j :: 0 <= j < |before| ==> !Names(before[j], key.value)
    ensures key.Some? ==> forall j :: 0 <= j < |after| ==> !Names(after[j], key.value)
  {
  }

  lemma ThinnedKeepsEntries(before: seq<Slot>, retired: seq<Slot>, after: seq<Slot>, ring: seq<nat>, held: set<nat>)
    requires OnlyRetired(before, retired) && HeldKept(retired, after, held)
    ensures EntriesKept(before, ring, after, ring, held)
  {
  }

  lemma EntriesKeptOnward(
      before: seq<Slot>, ring0: seq<nat>, ready: seq<Slot>, after: seq<Slot>, ring1: seq<nat>,
      living: set<nat>, held: set<nat>)
    requires EntriesKept(before, ring0, ready, ring0, living) && EntriesKept(ready, ring0, after, ring1, held)
    requires living <= held
    ensures EntriesKept(before, ring0, after, ring1, living)
  {
  }

  function WithPin(rows: seq<Row>, own: nat, i: nat, count: nat): seq<Row>
    requires own < |rows| && i < |rows[own].pins|
  {
    var pins: seq<nat> := rows[own].pins[i := count];
    rows[own := rows[own].(pins := pins)]
  }

  /** One more pin of ours on the slot, and nothing else. */
  ghost predicate Borrowed(before: seq<Row>, after: seq<Row>, own: nat, i: nat) {
    own < |before| && i < |before[own].pins| && after == WithPin(before, own, i, before[own].pins[i] + 1)
  }

  lemma PinAdds(rows: seq<Row>, own: nat, i: nat, count: nat, n: nat)
    requires own < |rows| && i < |rows[own].pins| && i < n
    ensures HeldIn(WithPin(rows, own, i, count), n) <= HeldIn(rows, n) + {i}
  {
  }

  lemma UnpinRemoves(rows: seq<Row>, own: nat, i: nat, count: nat, n: nat)
    requires own < |rows| && i < |rows[own].pins| && i < n && rows[own].pins[i] > count
    ensures HeldIn(WithPin(rows, own, i, count), n) <= HeldIn(rows, n)
  {
  }

  function Unclaimed(readers: nat, n: nat): (rows: seq<Row>)
    ensures |rows| == readers
    ensures forall r :: 0 <= r < readers ==> !rows[r].active && rows[r].pins == Zeros(n)
  {
    if readers == 0 then [] else Unclaimed(readers - 1, n) + [Row(false, false, Zeros(n))]
  }

  class Arena {
    const slots: array<Slot>
    const ring: array<nat>
    const own: nat
    var cursor: nat
    var counter: nat
    var generation: nat
    var rows: seq<Row>

    constructor (slotCount: nat, bytes: nat, readers: nat)
      requires slotCount > 0 && bytes > 0 && readers > 0
      ensures Valid() && View(slots[..], ring[..]) == map[] && Held() == {}
      ensures slots.Length == slotCount && ring.Length == bytes && |rows| == readers
      ensures fresh(slots) && fresh(ring)
    {
      slots := new Slot[slotCount](_ => BLANK);
      ring := new nat[bytes](_ => 0);
      own, cursor, counter, generation := 0, 0, 0, 1;
      rows := [Row(true, true, Zeros(slotCount))] + Unclaimed(readers - 1, slotCount);
      new;
      AllEvicted(slots[..], slots[..], ring[..], Held());
    }

    ghost predicate Shaped()
      reads this
    {
      && slots.Length > 0 && ring.Length > 0
      && own < |rows| && rows[own].active
      && forall r :: 0 <= r < |rows| ==> |rows[r].pins| == slots.Length
    }

    ghost function Held(): set<nat>
      reads this
    {
      HeldIn(rows, slots.Length)
    }

    ghost predicate Valid()
      reads this, slots, ring
    {
      && Shaped()
      && WellFormed(slots[..], Held(), ring.Length, counter)
    }

    /** One allocation attempt: retire what the window meets, unless it is pinned.  A reader
        arriving between the two looks at the pins is `ArenaPins`' concern. */
    method Sweep(start: nat, end: nat) returns (blockedUntil: Option<nat>)
      requires Shaped()
      modifies slots
      ensures IsSwept(old(slots[..]), slots[..], Held(), start, end)
      ensures FurthestEnd(old(slots[..]), Held(), start, end, slots.Length, blockedUntil)
    {
      ghost var before := slots[..];
      blockedUntil := None;
      for i := 0 to slots.Length
        invariant forall j :: 0 <= j < i ==> slots[j] == SweptSlot(before[j], j in Held(), start, end)
        invariant forall j :: i <= j < slots.Length ==> slots[j] == before[j]
        invariant FurthestEnd(before, Held(), start, end, i, blockedUntil)
      {
        FurthestEndGrows(before, Held(), start, end, i, blockedUntil);
        var s := slots[i];
        if Meets(s, start, end) {
          if PinnedBy(rows, i) {
            blockedUntil := Some(
              if blockedUntil.Some? && blockedUntil.value > End(s) then blockedUntil.value else End(s));
          } else {
            slots[i] := Evicted(s);
          }
        }
      }
    }

    /** The position an absolute cursor stands for; a record never wraps. */
    method Place(at: nat, len: nat) returns (moved: nat, position: nat)
      requires ring.Length > 0 && len <= ring.Length
      ensures position == FirstPosition(at, ring.Length, len)
      ensures moved >= at && Rem(moved, ring.Length) == position == FirstPosition(moved, ring.Length, len)
      ensures position + len <= ring.Length
    {
      RemIsModulo(at, ring.Length);
      moved, position := at, at % ring.Length;
      if position + len > ring.Length {
        RemMoves(at, ring.Length, ring.Length);
        moved := at + (ring.Length - position);
        position := 0;
      }
    }

    /** One turn of the reservation loop: `next` is where the cursor moves to. */
    method Attempt(at: nat, len: nat, ghost before: seq<Slot>, ghost g: Search, ghost attempts: nat)
      returns (taken: Option<nat>, next: nat, ghost g': Search)
      requires Shaped() && len <= ring.Length && PinnedWithin(before, Held(), ring.Length)
      requires g.first < ring.Length && g.first + len <= ring.Length && attempts < |before| + 2
      requires Searching(before, slots[..], Held(), ring.Length, len, g, FirstPosition(at, ring.Length, len), attempts)
      modifies slots
      ensures next >= at && g'.first == g.first
      ensures taken.None? ==> Searching(before, slots[..], Held(), ring.Length, len,
        g', FirstPosition(next, ring.Length, len), attempts + 1)
      ensures taken.Some? ==>
        && Reserved(before, slots[..], Held(), ring.Length, len, g.first, taken.value)
        && Rem(next, ring.Length) == Rem(taken.value + len, ring.Length)
    {
      ghost var now, held := slots[..], Held();
      var start: nat, position: nat := Place(at, len);
      var blockedUntil := Sweep(position, position + len);
      assert Held() == held;
      g' := AttemptEnds(before, now, slots[..], held, ring.Length, len, g, position, attempts, blockedUntil);
      if blockedUntil.None? {
        CursorLands(start, ring.Length, len, position);
        taken, next := Some(position), start + len;
      } else {
        SkipsPast(start, ring.Length, len, position, blockedUntil.value);
        taken, next := None, start + (blockedUntil.value - position);
        assert FirstPosition(next, ring.Length, len) == Onward(blockedUntil.value, ring.Length, len);
      }
    }

    /** Reserves `len` contiguous bytes.  It fails exactly when every window of that length
        meets a pinned span, and otherwise takes the first window that does not, in ring
        order from the cursor.  Either way it retires every unpinned slot that an attempted
        window met, and nothing else. */
    method Allocate(len: nat) returns (r: Option<nat>)
      requires Shaped() && len <= ring.Length && PinnedWithin(slots[..], Held(), ring.Length)
      modifies slots, this`cursor
      ensures r.None? <==> AllBlocked(old(slots[..]), Held(), ring.Length, len)
      ensures r.None? ==>
        && Refused(old(slots[..]), slots[..], Held(), ring.Length, len, FirstPosition(old(cursor), ring.Length, len))
        && cursor == old(cursor)
      ensures r.Some? ==>
        && Reserved(old(slots[..]), slots[..], Held(), ring.Length, len,
                    FirstPosition(old(cursor), ring.Length, len), r.value)
        && cursor >= old(cursor) && Rem(cursor, ring.Length) == Rem(r.value + len, ring.Length)
    {
      ghost var before, first := slots[..], FirstPosition(cursor, ring.Length, len);
      ghost var g := Search(first, false, {}, []);
      var at: nat := cursor;
      var attempts: nat := 0;
      SearchBegins(before, Held(), ring.Length, len, first);
      while true
        invariant g.first == first && at >= old(cursor) == cursor
        invariant attempts <= slots.Length + 2
        invariant Searching(before, slots[..], Held(), ring.Length, len, g,
          FirstPosition(at, ring.Length, len), attempts)
        decreases slots.Length + 3 - attempts
      {
        attempts := attempts + 1;
        if attempts > slots.Length + 2 {
          SearchFails(before, slots[..], Held(), ring.Length, len, g, FirstPosition(at, ring.Length, len));
          return None;
        }
        var taken;
        taken, at, g := Attempt(at, len, before, g, attempts - 1);
        if taken.Some? {
          ReservedIsUnblocked(before, slots[..], Held(), ring.Length, len, first, taken.value);
          cursor := at;
          return taken;
        }
      }
    }

    method FindLocked(key: Key) returns (r: Option<nat>)
      requires slots.Length > 0 && Chained(slots[..])
      ensures r.Some? ==> r.value < slots.Length && Names(slots[r.value], key)
      ensures r.None? ==> forall i :: 0 <= i < slots.Length ==> !Names(slots[i], key)
    {
      for d := 0 to slots.Length
        invariant forall e :: 0 <= e < d ==> !Names(slots[ProbeAt(key, slots.Length, e)], key)
      {
        var i := ProbeAt(key, slots.Length, d);
        if slots[i].state.Empty? {
          EmptyEndsChain(slots[..], key, d);
          return None;
        }
        if Names(slots[i], key) {
          return Some(i);
        }
      }
      WholeChainProbed(slots[..], key);
      return None;
    }

    /** The first unpinned slot with the least generation. */
    method Oldest() returns (r: Option<nat>)
      requires Shaped()
      ensures r.None? <==> forall i :: 0 <= i < slots.Length ==> i in Held()
      ensures r.Some? ==>
        && r.value < slots.Length && r.value !in Held()
        && forall i :: 0 <= i < slots.Length && i !in Held() ==> slots[r.value].generation <= slots[i].generation
    {
      r := None;
      for i := 0 to slots.Length
        invariant r.None? <==> forall j :: 0 <= j < i ==> j in Held()
        invariant r.Some? ==>
          && r.value < i && r.value !in Held()
          && forall j :: 0 <= j < i && j !in Held() ==> slots[r.value].generation <= slots[j].generation
      {
        assert i in Held() <==> PinnedBy(rows, i);
        if !PinnedBy(rows, i) && (r.None? || slots[i].generation < slots[r.value].generation) {
          r := Some(i);
        }
      }
    }

    /** A slot for a new record: the first on the probe chain that is empty, or retired and
        unpinned; else the oldest record nobody pins.  None exactly when all are pinned. */
    method FreeSlotLocked(key: Key) returns (r: Option<nat>)
      requires Shaped()
      modifies slots
      ensures r.None? <==> AllHeld(old(slots[..]), Held())
      ensures r.None? ==> slots[..] == old(slots[..])
      ensures forall i :: 0 <= i < slots.Length && r != Some(i) ==> slots[i] == old(slots[i])
      ensures r.Some? ==>
        && r.value < slots.Length && Reachable(slots[..], key, r.value)
        && (slots[r.value].state.Empty? || (slots[r.value].state.Retired? && r.value !in Held()))
        && if slots[..] == old(slots[..]) then FirstFree(slots[..], Held(), key, r.value)
           else IsVictim(old(slots[..]), Held(), key, r.value)
                && slots[..] == old(slots[..])[r.value := Evicted(old(slots[r.value]))]
    {
      for d := 0 to slots.Length
        invariant forall e :: 0 <= e < d ==> !Free(slots[..], Held(), ProbeAt(key, slots.Length, e))
        invariant slots[..] == old(slots[..])
      {
        var i := ProbeAt(key, slots.Length, d);
        if slots[i].state.Empty? || (slots[i].state.Retired? && !PinnedBy(rows, i)) {
          FirstFreeAt(slots[..], Held(), key, d);
          return Some(i);
        }
      }
      NothingFree(slots[..], Held(), key);
      ghost var now, held := slots[..], Held();
      var victim := Oldest();
      assert slots[..] == now && Held() == held;
      if victim.Some? {
        assert !AllHeld(old(slots[..]), Held()) by { assert old(slots[..])[victim.value] == slots[victim.value]; }
        slots[victim.value] := Evicted(slots[victim.value]);
      } else {
        forall i | 0 <= i < |now| ensures !now[i].state.Empty? && i in held {
          assert !Free(now, held, i);
        }
      }
      return victim;
    }

    /** Clears the rows whose kernel hold can be taken, and returns the pins they held. */
    method Reclaim() returns (reclaimed: nat)
      requires Shaped()
      modifies this`rows
      ensures IsReclaimed(old(rows), rows, own) && Shaped()
      ensures reclaimed == DeadPins(old(rows), own, |old(rows)|)
    {
      reclaimed := 0;
      ghost var before := rows;
      for r := 0 to |rows|
        invariant |rows| == |before| && Shaped()
        invariant forall q :: r <= q < |before| ==> rows[q] == before[q]
        invariant forall q :: 0 <= q < r ==> rows[q] == if IsDead(before, own, q) then Cleared(before[q]) else before[q]
        invariant reclaimed == DeadPins(before, own, r)
      {
        if IsDead(rows, own, r) {
          reclaimed := reclaimed + Sum(rows[r].pins);
          rows := rows[r := Cleared(rows[r])];
        }
      }
    }

    method ReclaimAndKeep()
      requires Valid()
      modifies this`rows
      ensures Valid() && IsReclaimed(old(rows), rows, own)
    {
      ghost var rows0, held := rows, Held();
      var _ := Reclaim();
      ReclaimLeavesLivingPins(rows0, rows, own, slots.Length);
      PinsKeepWellFormed(slots[..], held, Held(), ring.Length, counter);
    }

    method ReclaimAndAllocate(len: nat) returns (r: Option<nat>)
      requires Valid() && len <= ring.Length
      modifies slots, this`cursor, this`rows
      ensures Valid() && OnlyRetired(old(slots[..]), slots[..])
      ensures IsReclaimed(old(rows), rows, own) && Held() == LivingHeldIn(old(rows), own, slots.Length) <= old(Held())
      ensures HeldKept(old(slots[..]), slots[..], Held())
      ensures r.None? <==> AllBlocked(old(slots[..]), Held(), ring.Length, len)
      ensures RetiredExactly(old(slots[..]), slots[..], Held(),
                             AllTried(old(slots[..]), Held(), ring.Length, len, old(cursor)), len)
      ensures r.Some? ==> r.value + len <= ring.Length && WindowTaken(slots[..], Held(), r.value, r.value + len)
    {
      ghost var before := slots[..];
      ReclaimAndKeep();
      ReclaimLeavesLivingPins(old(rows), rows, own, slots.Length);
      r := Allocate(len);
      RetiringKeepsWellFormed(before, slots[..], Held(), ring.Length, counter);
    }

    /** The retry after a failed reservation counts living readers' pins only. */
    method AllocateOrReclaim(len: nat) returns (r: Option<nat>)
      requires Valid() && len <= ring.Length
      modifies slots, this`cursor, this`rows
      ensures Valid() && OnlyRetired(old(slots[..]), slots[..])
      ensures rows == old(rows) || IsReclaimed(old(rows), rows, own)
      ensures LivingHeldIn(old(rows), own, slots.Length) <= Held() <= old(Held())
      ensures HeldKept(old(slots[..]), slots[..], LivingHeldIn(old(rows), own, slots.Length))
      ensures r.None? <==> AllBlocked(old(slots[..]), LivingHeldIn(old(rows), own, slots.Length), ring.Length, len)
      ensures SweptExactly(old(slots[..]), slots[..], old(Held()), LivingHeldIn(old(rows), own, slots.Length),
                           ring.Length, len, old(cursor), None)
      ensures r.Some? ==> r.value + len <= ring.Length && WindowTaken(slots[..], Held(), r.value, r.value + len)
    {
      ghost var before, held, living := slots[..], Held(), LivingHeldIn(rows, own, slots.Length);
      LivingAreHeld(rows, own, slots.Length);
      r := Allocate(len);
      ghost var first := slots[..];
      FewerPinsAllBlocked(before, first, held, living, ring.Length, len);
      RetiringKeepsWellFormed(before, first, held, ring.Length, counter);
      if r.None? {
        r := ReclaimAndAllocate(len);
        OnlyRetiredIsTransitive(before, first, slots[..]);
        SweptTwice(before, first, slots[..], held, living, ring.Length, len, old(cursor));
      } else {
        SweptOnce(before, first, held, living, ring.Length, len, old(cursor));
      }
    }

    /** The same for a slot. */
    method FreeSlotOrReclaim(key: Key) returns (r: Option<nat>)
      requires Valid()
      modifies slots, this`rows
      ensures Valid() && OnlyRetired(old(slots[..]), slots[..])
      ensures rows == old(rows) || IsReclaimed(old(rows), rows, own)
      ensures Held() <= old(Held())
      ensures HeldKept(old(slots[..]), slots[..], LivingHeldIn(old(rows), own, slots.Length))
      ensures r.None? <==> AllHeld(old(slots[..]), LivingHeldIn(old(rows), own, slots.Length))
      ensures forall i :: 0 <= i < slots.Length && r != Some(i) ==> slots[i] == old(slots[i])
      ensures r.Some? ==>
        && r.value < slots.Length && !Published(slots[r.value]) && Reachable(slots[..], key, r.value)
        && (r.value in Held() ==> slots[r.value].state.Empty?)
    {
      ghost var before, rows0 := slots[..], rows;
      LivingAreHeld(rows, own, slots.Length);
      AllHeldAfter(before, before, Held(), LivingHeldIn(rows, own, slots.Length));
      r := FreeSlotLocked(key);
      RetiringKeepsWellFormed(before, slots[..], Held(), ring.Length, counter);
      if r.None? {
        ReclaimAndKeep();
        ReclaimLeavesLivingPins(rows0, rows, own, slots.Length);
        assert slots[..] == before;
        r := FreeSlotLocked(key);
        RetiringKeepsWellFormed(before, slots[..], Held(), ring.Length, counter);
      }
    }

    /** Room for a record: bytes in the ring and a slot, each retried once after dead
        readers' pins are reclaimed. */
    method Room(key: Option<Key>, len: nat) returns (room: Option<(nat, nat)>)
      requires Valid() && len <= ring.Length
      modifies slots, this`cursor, this`rows
      ensures Valid() && OnlyRetired(old(slots[..]), slots[..])
      ensures rows == old(rows) || IsReclaimed(old(rows), rows, own)
      ensures HeldKept(old(slots[..]), slots[..], LivingHeldIn(old(rows), own, slots.Length))
      ensures SweptExactly(old(slots[..]), slots[..], old(Held()), LivingHeldIn(old(rows), own, slots.Length),
                           ring.Length, len, old(cursor), if room.Some? then Some(room.value.1) else None)
      ensures room.None? <==> NoRoom(old(slots[..]), LivingHeldIn(old(rows), own, slots.Length), ring.Length, len)
      ensures room.Some? ==>
        var (offset, i) := room.value;
        && offset + len <= ring.Length && i < slots.Length && !Published(slots[i])
        && (i in Held() ==> slots[i].state.Empty?)
        && Reachable(slots[..], ProbeKey(key, offset), i)
        && WindowFree(slots[..], Held(), i, offset, offset + len)
    {
      ghost var before, living, rows0 := slots[..], LivingHeldIn(rows, own, slots.Length), rows;
      var offset := AllocateOrReclaim(len);
      ghost var taken, held, rows1 := slots[..], Held(), rows;
      if offset.None? {
        return None;
      }
      AllHeldAfter(before, taken, held, living);
      LivingStaysLiving(rows0, rows1, own, slots.Length);
      var i := FreeSlotOrReclaim(ProbeKey(key, offset.value));
      OnlyRetiredIsTransitive(before, taken, slots[..]);
      if rows != rows1 {
        ReclaimTwice(rows0, rows1, rows, own);
      }
      if i.None? {
        return None;
      }
      TakenWindowIsFree(taken, slots[..], held, Held(), i.value, offset.value, offset.value + len);
      room := Some((offset.value, i.value));
    }

    method CopyBytes(offset: nat, bytes: seq<nat>)
      requires offset + |bytes| <= ring.Length
      modifies ring
      ensures ring[offset..offset + |bytes|] == bytes
      ensures OnlyWindowWritten(old(ring[..]), ring[..], offset, offset + |bytes|)
    {
      for k := 0 to |bytes|
        invariant forall x :: 0 <= x < k ==> ring[offset + x] == bytes[x]
        invariant forall x :: 0 <= x < ring.Length && !(offset <= x < offset + k) ==> ring[x] == old(ring[x])
      {
        ring[offset + k] := bytes[k];
      }
    }

    /** Writes the bytes, then the words, then publishes. */
    method Fill(slot: Slot, bytes: seq<nat>, offset: nat, i: nat)
      requires Shaped() && i < slots.Length && offset + |bytes| <= ring.Length
      modifies slots, ring, this`counter
      ensures slots[..] == old(slots[..])[i := slot] && counter == old(counter) + 1
      ensures ring[offset..offset + |bytes|] == bytes
      ensures OnlyWindowWritten(old(ring[..]), ring[..], offset, offset + |bytes|)
    {
      CopyBytes(offset, bytes);
      counter := counter + 1;
      slots[i] := slot;
    }

    method Install(key: Option<Key>, record: Record, offset: nat, i: nat) returns (address: Address)
      requires Valid() && i < slots.Length && offset + |Content(record)| <= ring.Length
      requires !Published(slots[i]) && (i in Held() ==> slots[i].state.Empty?)
      requires key.Some? ==>
        Reachable(slots[..], key.value, i) && forall j :: 0 <= j < slots.Length ==> !Names(slots[j], key.value)
      requires WindowFree(slots[..], Held(), i, offset, offset + |Content(record)|)
      modifies slots, ring, this`counter
      ensures Valid() && counter == old(counter) + 1 == address.generation
      ensures address.slot == i && slots[..] == old(slots[..])[i := slots[i]]
      ensures View(slots[..], ring[..]) == old(View(slots[..], ring[..]))[NameFor(key, address) := Normal(record)]
      ensures EntriesKept(old(slots[..]), old(ring[..]), slots[..], ring[..], Held())
      ensures HeldInUseKept(old(slots[..]), slots[..], Held())
    {
      ghost var before, bytes, last := slots[..], ring[..], counter;
      Fill(SlotFor(key, record, offset, counter + 1), Content(record), offset, i);
      InstallFiles(before, bytes, slots[..], ring[..], Held(), last, key, record, offset, i);
      address := Address(i, counter);
    }

    function RecordMax(): nat { ring.Length / 4 }

    method Evict(i: nat)
      requires Valid() && i < slots.Length && Published(slots[i])
      modifies slots
      ensures Valid() && slots[..] == old(slots[..])[i := Evicted(old(slots[i]))]
      ensures OnlyRetired(old(slots[..]), slots[..])
      ensures View(slots[..], ring[..]) == old(View(slots[..], ring[..])) - {NameOf(old(slots[..]), i)}
    {
      ghost var before, bytes := slots[..], ring[..];
      EvictingForgetsItsName(before, bytes, i);
      RetiringKeepsWellFormed(before, before[i := Evicted(before[i])], Held(), ring.Length, counter);
      slots[i] := Evicted(slots[i]);
      assert slots[..] == before[i := Evicted(before[i])];
    }

    /** Drops the record under `key`; a writer does the same before it files a new one. */
    method Forget(key: Key) returns (dropped: bool)
      requires Valid()
      modifies slots
      ensures Valid() && OnlyRetired(old(slots[..]), slots[..])
      ensures View(slots[..], ring[..]) == old(View(slots[..], ring[..])) - {Keyed(key)}
      ensures dropped <==> Keyed(key) in old(View(slots[..], ring[..]))
      ensures forall j :: 0 <= j < slots.Length ==> !Names(slots[j], key)
      ensures forall j :: 0 <= j < slots.Length && !Names(old(slots[j]), key) ==> slots[j] == old(slots[j])
    {
      ghost var before, bytes := slots[..], ring[..];
      var found := FindLocked(key);
      assert slots[..] == before;
      if found.None? {
        UnnamedIsAbsent(before, bytes, key);
        IsWithout(View(before, bytes), View(before, bytes), Keyed(key));
        return false;
      }
      NamedIsPresent(before, bytes, key, found.value);
      Evict(found.value);
      OnlyOneNamed(before, slots[..], key, found.value);
      return true;
    }

    /** Withdraws exactly the record the address names. */
    method ForgetAddress(a: Address) returns (dropped: bool)
      requires Valid()
      modifies slots
      ensures Valid() && OnlyRetired(old(slots[..]), slots[..])
      ensures View(slots[..], ring[..]) == old(View(slots[..], ring[..])) - {At(a)}
      ensures dropped <==> At(a) in old(View(slots[..], ring[..]))
    {
      ghost var before, bytes := slots[..], ring[..];
      AddressInView(before, bytes, a);
      if a.slot >= slots.Length || !slots[a.slot].state.Addressed? || slots[a.slot].generation != a.generation {
        IsWithout(View(before, bytes), View(before, bytes), At(a));
        return false;
      }
      Evict(a.slot);
      return true;
    }

    /** Everything misses from here on; entries keep what they hold. */
    method Reset() returns (live: nat)
      requires Valid()
      modifies slots, this`generation
      ensures Valid() && View(slots[..], ring[..]) == map[]
      ensures EntriesKept(old(slots[..]), ring[..], slots[..], ring[..], Held())
      ensures live == CountPublished(old(slots[..]), slots.Length)
      ensures generation == (old(generation) + 1) % (U32_MAX + 1)
    {
      ghost var before := slots[..];
      live := 0;
      for i := 0 to slots.Length
        invariant forall j :: 0 <= j < i ==> slots[j] == Evicted(before[j])
        invariant forall j :: i <= j < slots.Length ==> slots[j] == before[j]
        invariant live == CountPublished(before, i) && generation == old(generation)
      {
        if Published(slots[i]) {
          live := live + 1;
        }
        slots[i] := Evicted(slots[i]);
      }
      generation := (generation + 1) % (U32_MAX + 1);
      AllEvicted(before, slots[..], ring[..], Held());
      RetiringKeepsWellFormed(before, slots[..], Held(), ring.Length, counter);
    }

    /** The part of a put before it writes: the key's old record goes, then room is made. */
    method MakeRoom(key: Option<Key>, len: nat) returns (room: Option<(nat, nat)>)
      requires Valid() && len <= ring.Length
      modifies slots, this`cursor, this`rows
      ensures Valid() && (rows == old(rows) || IsReclaimed(old(rows), rows, own))
      ensures EntriesKept(old(slots[..]), ring[..], slots[..], ring[..], LivingHeldIn(old(rows), own, slots.Length))
      ensures OthersStayPublished(old(slots[..]), slots[..], LivingHeldIn(old(rows), own, slots.Length), key)
      ensures Within(View(slots[..], ring[..]), Minus(old(View(slots[..], ring[..])), key))
      ensures GoneExactly(old(slots[..]), slots[..], key, old(Held()), LivingHeldIn(old(rows), own, slots.Length),
                          ring.Length, len, old(cursor), if room.Some? then Some(room.value.1) else None)
      ensures room.None? <==> NoRoom(old(slots[..]), LivingHeldIn(old(rows), own, slots.Length), ring.Length, len)
      ensures key.Some? ==> forall j :: 0 <= j < slots.Length ==> !Names(slots[j], key.value)
      ensures room.Some? ==>
        var (offset, i) := room.value;
        && offset + len <= ring.Length && i < slots.Length && !Published(slots[i])
        && (i in Held() ==> slots[i].state.Empty?)
        && Reachable(slots[..], ProbeKey(key, offset), i)
        && WindowFree(slots[..], Held(), i, offset, offset + len)
    {
      ghost var before, bytes, held := slots[..], ring[..], Held();
      ghost var living := LivingHeldIn(rows, own, slots.Length);
      if key.Some? {
        var _ := Forget(key.value);
      }
      ghost var retired := slots[..];
      assert View(retired, bytes) == Minus(View(before, bytes), key);
      NoRoomAfter(before, retired, living, ring.Length, len);
      room := Room(key, len);
      ghost var spot := if room.Some? then Some(room.value.1) else None;
      GoneByBoth(before, retired, slots[..], key, held, living, ring.Length, len, old(cursor), spot);
      RetiringOnlyForgets(retired, slots[..], bytes);
      ThinnedKeepsEntries(before, retired, slots[..], bytes, living);
      OthersStay(before, retired, slots[..], living, key);
      StillUnnamed(retired, slots[..], key);
    }

    /** Files a record under a key, or under a fresh address. */
    method WriteRecord(key: Option<Key>, record: Record) returns (r: Result<Address, Failure>)
      requires Valid()
      modifies slots, ring, this`cursor, this`rows, this`counter
      ensures Valid() && (rows == old(rows) || IsReclaimed(old(rows), rows, own))
      ensures EntriesKept(old(slots[..]), old(ring[..]), slots[..], ring[..],
        LivingHeldIn(old(rows), own, slots.Length))
      ensures OthersStayPublished(old(slots[..]), slots[..], LivingHeldIn(old(rows), own, slots.Length), key)
      ensures r == Err(TooLarge) <==> |Content(record)| > RecordMax()
      ensures r == Err(TooLarge) ==> slots[..] == old(slots[..]) && cursor == old(cursor) && rows == old(rows)
      ensures r == Err(Failure.Pinned) <==>
        && |Content(record)| <= RecordMax()
        && NoRoom(old(slots[..]), LivingHeldIn(old(rows), own, slots.Length), ring.Length, |Content(record)|)
      ensures r.Err? ==> ring[..] == old(ring[..]) && counter == old(counter)
      ensures r.Err? && r.error != TooLarge ==>
        Within(View(slots[..], ring[..]), Minus(old(View(slots[..], ring[..])), key))
      ensures r == Err(Failure.Pinned) || r.Ok? ==>
        GoneExactly(old(slots[..]), slots[..], key, old(Held()), LivingHeldIn(old(rows), own, slots.Length),
                    ring.Length, |Content(record)|, old(cursor), if r.Ok? then Some(r.value.slot) else None)
      ensures r == Err(Exhausted) ==> old(counter) >= U64_MAX
      ensures r.Ok? ==> Filed(old(View(slots[..], ring[..])), View(slots[..], ring[..]), key, r.value, record)
      ensures r.Ok? ==> r.value.generation == counter == old(counter) + 1 <= U64_MAX
    {
      var total := |Content(record)|;
      if total > RecordMax() {
        return Err(TooLarge);
      }
      ghost var before, bytes, rows0 := slots[..], ring[..], rows;
      ghost var living := LivingHeldIn(rows, own, slots.Length);
      var room := MakeRoom(key, total);
      if room.None? {
        return Err(Failure.Pinned);
      }
      if counter >= U64_MAX {
        return Err(Exhausted);
      }
      ghost var ready := slots[..];
      LivingStaysLiving(rows0, rows, own, slots.Length);
      LivingAreHeld(rows, own, slots.Length);
      var address := Install(key, record, room.value.0, room.value.1);
      EntriesKeptOnward(before, bytes, ready, slots[..], ring[..], living, Held());
      OthersStayOnward(before, ready, slots[..], living, Held(), key);
      FiledBy(View(before, bytes), View(ready, bytes), View(slots[..], ring[..]), key, address, record);
      return Ok(address);
    }

    /** Pins a slot that still holds what was asked for. */
    method PinEntry(i: nat) returns (r: Option<Entry>)
      requires Valid() && i < slots.Length && Published(slots[i])
      modifies this`rows
      ensures Valid()
      ensures r.None? <==> old(rows[own].pins[i]) >= U32_MAX
      ensures r.None? ==> rows == old(rows)
      ensures r.Some? ==> r.value == Entry(i, slots[i]) && Borrowed(old(rows), rows, own, i)
    {
      if rows[own].pins[i] >= U32_MAX {
        return None;
      }
      ghost var held, before := Held(), rows;
      rows := WithPin(rows, own, i, rows[own].pins[i] + 1);
      PinAdds(before, own, i, rows[own].pins[i], slots.Length);
      PinsKeepWellFormed(slots[..], held, Held(), ring.Length, counter);
      r := Some(Entry(i, slots[i]));
    }

    /** Borrows the record under `key`; only an exhausted pin counter makes it miss one
        that is there. */
    method Get(key: Key) returns (r: Option<Entry>)
      requires Valid()
      modifies this`rows
      ensures Valid()
      ensures r.Some? ==>
        && Keyed(key) in View(slots[..], ring[..])
        && Stored(ring[..], r.value.words) == View(slots[..], ring[..])[Keyed(key)]
        && r.value.slot < slots.Length && Borrowed(old(rows), rows, own, r.value.slot)
      ensures r.None? ==> rows == old(rows)
      ensures r.None? && Keyed(key) in View(slots[..], ring[..]) ==>
        exists i :: 0 <= i < slots.Length && Names(slots[i], key) && rows[own].pins[i] >= U32_MAX
    {
      ghost var now, bytes := slots[..], ring[..];
      var found := FindLocked(key);
      assert slots[..] == now && ring[..] == bytes;
      if found.None? {
        UnnamedIsAbsent(now, bytes, key);
        return None;
      }
      NamedIsPresent(now, bytes, key, found.value);
      r := PinEntry(found.value);
      assert slots[..] == now && ring[..] == bytes && Names(now[found.value], key);
    }

    /** Borrows exactly the record the address names. */
    method GetAddress(a: Address) returns (r: Option<Entry>)
      requires Valid()
      modifies this`rows
      ensures Valid()
      ensures r.Some? ==>
        && At(a) in View(slots[..], ring[..])
        && Stored(ring[..], r.value.words) == View(slots[..], ring[..])[At(a)]
        && r.value.slot == a.slot < slots.Length && Borrowed(old(rows), rows, own, a.slot)
      ensures r.None? ==> rows == old(rows)
      ensures r.None? && At(a) in View(slots[..], ring[..]) ==>
        a.slot < slots.Length && rows[own].pins[a.slot] >= U32_MAX
    {
      AddressInView(slots[..], ring[..], a);
      if a.slot >= slots.Length || !slots[a.slot].state.Addressed? || slots[a.slot].generation != a.generation {
        return None;
      }
      r := PinEntry(a.slot);
    }

    /** Dropping an entry gives its pin back. */
    method Release(entry: Entry)
      requires Valid() && entry.slot < slots.Length && rows[own].pins[entry.slot] > 0
      modifies this`rows
      ensures Valid() && rows == WithPin(old(rows), own, entry.slot, old(rows[own].pins[entry.slot]) - 1)
    {
      ghost var held, before := Held(), rows;
      rows := WithPin(rows, own, entry.slot, rows[own].pins[entry.slot] - 1);
      UnpinRemoves(before, own, entry.slot, rows[own].pins[entry.slot], slots.Length);
      PinsKeepWellFormed(slots[..], held, Held(), ring.Length, counter);
    }
  }
}
