/** The bounded local cache of one logical store (`cache/src/local.rs`): an LRU of
    revision-stamped slots above a revision floor, kept coherent with the plain sorted
    replay whatever the delivery order, evictions, expiries and resyncs. */
module LocalCacheModel {
  import opened Wrappers
  import opened CacheReplay

  datatype Slot =
    | Present(payload: Payload, revision: Revision, expiresAt: Option<nat>)
    | Missing(revision: Revision)

  datatype Entry = Entry(value: Bytes, revision: Revision, expiresAt: Option<nat>)
  datatype Read = Hit(entry: Entry) | Miss | ResyncRequired
  datatype Outcome = Applied | Ignored | PayloadUnavailable(key: Bytes)

  /** What the arena yields for an address at one instant; an absent address is a miss. */
  type Arena = map<Address, Bytes>

  /** `order` lists the resident keys, most recently used first. */
  datatype State = State(order: seq<Bytes>, slots: map<Bytes, Slot>, floor: Option<nat>, coherent: bool)

  const Empty := State([], map[], None, true)

  predicate Above(floor: Option<nat>, sequence: nat) { floor.None? || floor.value < sequence }

  function Raise(floor: Option<nat>, sequence: nat): (f: nat)
    ensures f == if floor.Some? && sequence < floor.value then floor.value else sequence
  {
    if floor.Some? && sequence < floor.value then floor.value else sequence
  }

  ghost predicate NoDuplicates(order: seq<Bytes>) {
    forall i, j :: 0 <= i < j < |order| ==> order[i] != order[j]
  }

  ghost predicate WellFormed(s: State, capacity: nat) {
    && 1 <= capacity && |s.order| <= capacity
    && NoDuplicates(s.order)
    && (forall k :: k in s.order <==> k in s.slots)
    && forall k :: k in s.slots ==> Above(s.floor, s.slots[k].revision.sequence)
  }

  function Keep(order: seq<Bytes>, keys: set<Bytes>): (r: seq<Bytes>)
    ensures |r| <= |order|
    ensures forall k :: k in r <==> k in order && k in keys
    ensures NoDuplicates(order) ==> NoDuplicates(r)
  {
    if order == [] then []
    else
      var rest := Keep(order[1..], keys);
      assert forall k :: k in order <==> k == order[0] || k in order[1..];
      if order[0] in keys then [order[0]] + rest else rest
  }

  // ------------------------------------------------------------------ transitions

  predicate Accepts(s: State, revision: Revision) { Above(s.floor, revision.sequence) }

  function AdvanceFloor(s: State, sequence: nat): State {
    var floor := Raise(s.floor, sequence);
    var live := map k | k in s.slots && floor < s.slots[k].revision.sequence :: s.slots[k];
    State(Keep(s.order, live.Keys), live, Some(floor), s.coherent)
  }

  /** Put a resident key at the front with a new slot. */
  function Promote(s: State, key: Bytes, slot: Slot): State {
    s.(order := [key] + Keep(s.order, s.slots.Keys - {key}), slots := s.slots[key := slot])
  }

  function PutSlot(s: State, capacity: nat, key: Bytes, slot: Slot): (r: (State, bool))
    requires WellFormed(s, capacity)
  {
    if key in s.slots && !s.slots[key].revision.Less(slot.revision) then (s, false)
    else if key in s.slots || |s.order| < capacity then (Promote(s, key, slot), true)
    else
      var last := |s.order| - 1;
      var victim := s.order[last];
      var pushed := s.(order := [key] + s.order[..last], slots := (s.slots - {victim})[key := slot]);
      var raised := AdvanceFloor(pushed, s.slots[victim].revision.sequence);
      (raised, key in raised.slots)
  }

  predicate Resolves(arena: Arena, payload: Payload) {
    payload.address in arena && |arena[payload.address]| == payload.valueLen
  }

  function SlotFor(m: Mutation, available: bool): Slot
    requires !m.Reset?
  {
    if m.Put? && available then Present(m.payload, m.revision, m.expiresAt) else Missing(m.revision)
  }

  function Apply(s: State, capacity: nat, m: Mutation, arena: Arena): (r: (State, Outcome))
    requires WellFormed(s, capacity)
  {
    if !Accepts(s, m.revision) then (s, Ignored)
    else match m
      case Put(_, key, _, _, payload) =>
        var (next, done) := PutSlot(s, capacity, key, SlotFor(m, Resolves(arena, payload)));
        (next, if !done then Ignored else if Resolves(arena, payload) then Applied else PayloadUnavailable(key))
      case Delete(_, key, _) =>
        var (next, done) := PutSlot(s, capacity, key, SlotFor(m, false));
        (next, if done then Applied else Ignored)
      case Reset(_, revision) => (AdvanceFloor(s, revision.sequence), Applied)
  }

  /** `install_local`, `install_missing` and `reset_local`: the publisher's own mutation,
      whose payload it has just stored. */
  function Install(s: State, capacity: nat, m: Mutation): State
    requires WellFormed(s, capacity)
  {
    if !Accepts(s, m.revision) then s
    else if m.Reset? then AdvanceFloor(s, m.revision.sequence)
    else PutSlot(s, capacity, m.key, SlotFor(m, true)).0
  }

  predicate Expired(expiresAt: Option<nat>, now: nat) { expiresAt.Some? && expiresAt.value <= now }

  function ReadAt(s: State, key: Bytes, now: nat, arena: Arena): (r: (State, Read)) {
    if !s.coherent then (s, ResyncRequired)
    else if key !in s.slots then (s, Miss)
    else match s.slots[key]
      case Present(payload, revision, expiresAt) =>
        if !Expired(expiresAt, now) && Resolves(arena, payload) then
          (Promote(s, key, s.slots[key]), Hit(Entry(arena[payload.address], revision, expiresAt)))
        else (Promote(s, key, Missing(revision)), Miss)
      case Missing(_) => (Promote(s, key, s.slots[key]), Miss)
  }

  function Greatest(order: seq<Bytes>, slots: map<Bytes, Slot>): (r: Option<nat>)
    requires forall k :: k in order ==> k in slots
    ensures r.None? <==> order == []
    ensures forall k :: k in order ==> r.Some? && slots[k].revision.sequence <= r.value
  {
    if order == [] then None
    else
      var rest := Greatest(order[1..], slots);
      Some(Raise(rest, slots[order[0]].revision.sequence))
  }

  function RequireResync(s: State): State
    requires forall k :: k in s.order ==> k in s.slots
  {
    var floor := match Greatest(s.order, s.slots)
                 case None => s.floor
                 case Some(g) => Some(Raise(s.floor, g));
    State([], map[], floor, false)
  }

  function RecoverFromBacking(s: State, revisionFloor: nat): State {
    State([], map[], Some(Raise(s.floor, revisionFloor)), true)
  }

  // ------------------------------------------------------- what every step keeps

  /** Every mutation handed to the cache is at or below the floor, or its key is resident
      under that revision or a later one. */
  ghost predicate Covers(s: State, h: set<Mutation>) {
    forall m :: m in h ==> Covered(s, m)
  }

  ghost predicate Covered(s: State, m: Mutation) {
    || !Above(s.floor, m.revision.sequence)
    || (!m.Reset? && m.key in s.slots && !s.slots[m.key].revision.Less(m.revision))
  }

  ghost predicate Stems(slot: Slot, key: Bytes, m: Mutation) {
    && !m.Reset? && m.key == key && m.revision == slot.revision
    && (slot.Present? ==> m.Put? && m.payload == slot.payload && m.expiresAt == slot.expiresAt)
  }

  /** Every resident slot stems from a mutation handed to the cache. */
  ghost predicate Traced(s: State, h: set<Mutation>) {
    forall k :: k in s.slots ==> HasOrigin(s.slots[k], k, h)
  }

  ghost predicate HasOrigin(slot: Slot, key: Bytes, h: set<Mutation>) {
    exists m :: m in h && Stems(slot, key, m)
  }

  ghost predicate Invariant(s: State, capacity: nat, store: Bytes, h: set<Mutation>) {
    && WellFormed(s, capacity) && Covers(s, h) && Traced(s, h)
    && RevisionsIdentify(h)
    && forall m :: m in h ==> m.store == store
  }

  lemma PromoteKeepsShape(s: State, capacity: nat, key: Bytes, slot: Slot)
    requires WellFormed(s, capacity)
    requires key in s.slots || |s.order| < capacity
    requires Above(s.floor, slot.revision.sequence)
    ensures WellFormed(Promote(s, key, slot), capacity)
  {
    var kept := Keep(s.order, s.slots.Keys - {key});
    if key in s.slots {
      KeepDrops(s.order, s.slots.Keys - {key}, key);
    }
  }

  lemma {:induction false} KeepDrops(order: seq<Bytes>, keys: set<Bytes>, key: Bytes)
    requires key in order && key !in keys
    ensures |Keep(order, keys)| < |order|
  {
    if order[0] != key {
      KeepDrops(order[1..], keys, key);
    }
  }

  lemma AdvanceFloorKeepsShape(s: State, capacity: nat, sequence: nat)
    requires 1 <= capacity && |s.order| <= capacity && NoDuplicates(s.order)
    requires forall k :: k in s.order <==> k in s.slots
    ensures WellFormed(AdvanceFloor(s, sequence), capacity)
  {
  }

  lemma PutSlotKeepsShape(s: State, capacity: nat, key: Bytes, slot: Slot)
    requires WellFormed(s, capacity) && Accepts(s, slot.revision)
    ensures WellFormed(PutSlot(s, capacity, key, slot).0, capacity)
  {
    if key in s.slots && !s.slots[key].revision.Less(slot.revision) {
    } else if key in s.slots || |s.order| < capacity {
      PromoteKeepsShape(s, capacity, key, slot);
    } else {
      var last := |s.order| - 1;
      var victim := s.order[last];
      var pushed := s.(order := [key] + s.order[..last], slots := (s.slots - {victim})[key := slot]);
      assert forall k :: k in s.order <==> k == victim || k in s.order[..last];
      assert forall k :: k in pushed.order <==> k == key || k in s.order[..last];
      AdvanceFloorKeepsShape(pushed, capacity, s.slots[victim].revision.sequence);
    }
  }

  lemma AdvanceFloorKeeps(s: State, h: set<Mutation>, sequence: nat)
    requires Traced(s, h)
    ensures Traced(AdvanceFloor(s, sequence), h)
    ensures Covers(s, h) ==> Covers(AdvanceFloor(s, sequence), h)
    ensures forall m :: m in h && m.revision.sequence <= sequence ==>
              !Above(AdvanceFloor(s, sequence).floor, m.revision.sequence)
  {
  }

  /** What pushing a new key into a full cache leaves behind, order aside. */
  lemma EvictionResult(s: State, capacity: nat, key: Bytes, slot: Slot)
    requires WellFormed(s, capacity) && key !in s.slots && |s.order| == capacity
    ensures
      var t := PutSlot(s, capacity, key, slot).0;
      var victim := s.order[|s.order| - 1];
      var floor := Raise(s.floor, s.slots[victim].revision.sequence);
      && t.floor == Some(floor)
      && forall k :: k in t.slots <==>
           && k in s.slots[key := slot] && k != victim
           && floor < s.slots[key := slot][k].revision.sequence
    ensures
      var t := PutSlot(s, capacity, key, slot).0;
      forall k :: k in t.slots ==> t.slots[k] == s.slots[key := slot][k]
  {
  }

  lemma EvictionCovers(s: State, capacity: nat, m: Mutation, slot: Slot, o: Mutation)
    requires !m.Reset? && WellFormed(s, capacity) && m.key !in s.slots && |s.order| == capacity
    requires slot.revision == m.revision
    requires o == m || Covered(s, o)
    ensures Covered(PutSlot(s, capacity, m.key, slot).0, o)
  {
  }

  lemma EvictionKeeps(s: State, capacity: nat, h: set<Mutation>, m: Mutation, slot: Slot)
    requires WellFormed(s, capacity) && Covers(s, h) && Traced(s, h)
    requires !m.Reset? && Stems(slot, m.key, m)
    requires m.key !in s.slots && |s.order| == capacity
    ensures
      var t := PutSlot(s, capacity, m.key, slot).0;
      Covers(t, h + {m}) && Traced(t, h + {m})
  {
    var t := PutSlot(s, capacity, m.key, slot).0;
    forall o | o in h + {m} ensures Covered(t, o) {
      EvictionCovers(s, capacity, m, slot, o);
    }
    EvictionResult(s, capacity, m.key, slot);
    TracedStore(s, h, m, slot, s.slots, s.(slots := s.slots[m.key := slot]));
    forall k | k in t.slots ensures HasOrigin(t.slots[k], k, h + {m}) {
      assert t.slots[k] == s.slots[m.key := slot][k];
    }
  }

  /** The heart of the argument: storing a slot, with the eviction and floor it causes,
      keeps every mutation accounted for. */
  lemma PutSlotKeeps(s: State, capacity: nat, h: set<Mutation>, m: Mutation, slot: Slot)
    requires WellFormed(s, capacity) && Covers(s, h) && Traced(s, h)
    requires !m.Reset? && Accepts(s, m.revision) && Stems(slot, m.key, m)
    ensures
      var t := PutSlot(s, capacity, m.key, slot).0;
      WellFormed(t, capacity) && Covers(t, h + {m}) && Traced(t, h + {m})
  {
    PutSlotKeepsShape(s, capacity, m.key, slot);
    var t := PutSlot(s, capacity, m.key, slot).0;
    if m.key in s.slots && !s.slots[m.key].revision.Less(slot.revision) {
      TracedGrows(s, h, m);
    } else if m.key in s.slots || |s.order| < capacity {
      TracedStore(s, h, m, slot, s.slots, t);
      forall o | o in h + {m} ensures Covered(t, o) {
        if o != m {
          assert Covered(s, o);
        }
      }
    } else {
      EvictionKeeps(s, capacity, h, m, slot);
    }
  }

  lemma TracedGrows(s: State, h: set<Mutation>, m: Mutation)
    requires Traced(s, h)
    ensures Traced(s, h + {m})
  {
  }

  lemma TracedStore(s: State, h: set<Mutation>, m: Mutation, slot: Slot, base: map<Bytes, Slot>, t: State)
    requires Traced(s, h) && !m.Reset? && Stems(slot, m.key, m)
    requires forall k :: k in base ==> k in s.slots && base[k] == s.slots[k]
    requires t.slots == base[m.key := slot]
    ensures Traced(t, h + {m})
  {
  }

  lemma StoreKeepsInvariant(s: State, capacity: nat, store: Bytes, h: set<Mutation>, m: Mutation, available: bool)
    requires Invariant(s, capacity, store, h) && m.store == store && RevisionsIdentify(h + {m})
    ensures
      var t := if !Accepts(s, m.revision) then s
               else if m.Reset? then AdvanceFloor(s, m.revision.sequence)
               else PutSlot(s, capacity, m.key, SlotFor(m, available)).0;
      Invariant(t, capacity, store, h + {m})
  {
    TracedGrows(s, h, m);
    if Accepts(s, m.revision) {
      if m.Reset? {
        AdvanceFloorKeepsShape(s, capacity, m.revision.sequence);
        AdvanceFloorKeeps(s, h, m.revision.sequence);
        TracedGrows(AdvanceFloor(s, m.revision.sequence), h, m);
      } else {
        PutSlotKeeps(s, capacity, h, m, SlotFor(m, available));
      }
    }
  }

  lemma RestampCovers(s: State, key: Bytes, slot: Slot, o: Mutation)
    requires key in s.slots && slot.revision == s.slots[key].revision && Covered(s, o)
    ensures Covered(Promote(s, key, slot), o)
  {
  }

  lemma RestampTraces(s: State, h: set<Mutation>, key: Bytes, slot: Slot, k: Bytes)
    requires key in s.slots && k in s.slots && HasOrigin(s.slots[k], k, h)
    requires slot == s.slots[key] || slot == Missing(s.slots[key].revision)
    ensures HasOrigin(s.slots[key := slot][k], k, h)
  {
  }

  /** Touching a resident key, or tombstoning it under the same revision. */
  lemma RestampKeepsInvariant(s: State, capacity: nat, store: Bytes, h: set<Mutation>, key: Bytes, slot: Slot)
    requires Invariant(s, capacity, store, h) && key in s.slots
    requires slot == s.slots[key] || slot == Missing(s.slots[key].revision)
    ensures Invariant(Promote(s, key, slot), capacity, store, h)
  {
    var t := Promote(s, key, slot);
    PromoteKeepsShape(s, capacity, key, slot);
    forall k | k in t.slots ensures HasOrigin(t.slots[k], k, h) {
      RestampTraces(s, h, key, slot, k);
    }
    forall o | o in h ensures Covered(t, o) {
      RestampCovers(s, key, slot, o);
    }
  }

  lemma ReadRestamps(s: State, key: Bytes, now: nat, arena: Arena)
    ensures
      var t := ReadAt(s, key, now, arena).0;
      || t == s
      || (key in s.slots && (t == Promote(s, key, s.slots[key])
          || t == Promote(s, key, Missing(s.slots[key].revision))))
  {
  }

  lemma ReadKeepsInvariant(s: State, capacity: nat, store: Bytes, h: set<Mutation>, key: Bytes, now: nat, arena: Arena)
    requires Invariant(s, capacity, store, h)
    ensures Invariant(ReadAt(s, key, now, arena).0, capacity, store, h)
  {
    var t := ReadAt(s, key, now, arena).0;
    ReadRestamps(s, key, now, arena);
    if t != s {
      if t == Promote(s, key, s.slots[key]) {
        RestampKeepsInvariant(s, capacity, store, h, key, s.slots[key]);
      } else {
        RestampKeepsInvariant(s, capacity, store, h, key, Missing(s.slots[key].revision));
      }
    }
  }

  lemma ResyncKeepsInvariant(s: State, capacity: nat, store: Bytes, h: set<Mutation>)
    requires Invariant(s, capacity, store, h)
    ensures Invariant(RequireResync(s), capacity, store, h)
    ensures forall m :: m in h ==> !Above(RequireResync(s).floor, m.revision.sequence)
  {
  }

  /** Recovery drops the slots without raising the floor over them, so it keeps every
      mutation accounted for exactly when the new floor reaches every resident slot. */
  lemma RecoveryCoversIff(s: State, capacity: nat, store: Bytes, h: set<Mutation>, revisionFloor: nat)
    requires Invariant(s, capacity, store, h)
    ensures Invariant(RecoverFromBacking(s, revisionFloor), capacity, store, h) <==>
            forall k :: k in s.slots ==> s.slots[k].revision.sequence <= Raise(s.floor, revisionFloor)
    ensures (forall m :: m in h ==> m.revision.sequence <= revisionFloor) ==>
              Invariant(RecoverFromBacking(s, revisionFloor), capacity, store, h)
  {
  }

  // ----------------------------------------------------------- hits over whole runs

  /** One call on the cache, with the arena it met. */
  datatype Op =
    | ApplyOp(mutation: Mutation, arena: Arena)
    | InstallOp(mutation: Mutation)
    | ReadOp(key: Bytes, now: nat, arena: Arena)
    | ResyncOp
    | RecoverOp(revisionFloor: nat)
    | TransportResetOp

  /** The cache and, beside it, the mutations handed to it since the last transport reset. */
  datatype World = World(state: State, history: set<Mutation>)

  function Step(w: World, capacity: nat, op: Op): World
    requires WellFormed(w.state, capacity)
  {
    match op
    case ApplyOp(m, arena) => World(Apply(w.state, capacity, m, arena).0, w.history + {m})
    case InstallOp(m) => World(Install(w.state, capacity, m), w.history + {m})
    case ReadOp(key, now, arena) => World(ReadAt(w.state, key, now, arena).0, w.history)
    case ResyncOp => World(RequireResync(w.state), w.history)
    case RecoverOp(f) => World(RecoverFromBacking(w.state, f), w.history)
    case TransportResetOp => World(Empty, {})
  }

  /** What the surroundings promise: mutations of one store with unique revisions, and a
      recovery floor read from the ring, which every mutation so far has drawn from. */
  ghost predicate Allowed(w: World, store: Bytes, op: Op) {
    match op
    case ApplyOp(m, _) => m.store == store && RevisionsIdentify(w.history + {m})
    case InstallOp(m) => m.store == store && RevisionsIdentify(w.history + {m})
    case RecoverOp(f) => forall m :: m in w.history ==> m.revision.sequence <= f
    case _ => true
  }

  lemma StepKeepsInvariant(w: World, capacity: nat, store: Bytes, op: Op)
    requires Invariant(w.state, capacity, store, w.history) && Allowed(w, store, op)
    ensures
      var next := Step(w, capacity, op);
      Invariant(next.state, capacity, store, next.history)
  {
    match op
    case ApplyOp(m, arena) =>
      StoreKeepsInvariant(w.state, capacity, store, w.history, m, m.Put? && Resolves(arena, m.payload));
    case InstallOp(m) => StoreKeepsInvariant(w.state, capacity, store, w.history, m, true);
    case ReadOp(key, now, arena) => ReadKeepsInvariant(w.state, capacity, store, w.history, key, now, arena);
    case ResyncOp => ResyncKeepsInvariant(w.state, capacity, store, w.history);
    case RecoverOp(f) => RecoveryCoversIff(w.state, capacity, store, w.history, f);
    case TransportResetOp =>
  }

  /** A run: worlds linked by allowed calls, from the empty cache. */
  ghost predicate IsRun(ws: seq<World>, ops: seq<Op>, capacity: nat, store: Bytes) {
    && |ws| == |ops| + 1 && 1 <= capacity
    && ws[0] == World(Empty, {})
    && forall i :: 0 <= i < |ops| ==>
         WellFormed(ws[i].state, capacity) && Allowed(ws[i], store, ops[i])
         && ws[i + 1] == Step(ws[i], capacity, ops[i])
  }

  lemma {:induction false} RunKeepsInvariant(ws: seq<World>, ops: seq<Op>, capacity: nat, store: Bytes, n: nat)
    requires IsRun(ws, ops, capacity, store) && n < |ws|
    ensures Invariant(ws[n].state, capacity, store, ws[n].history)
  {
    if n > 0 {
      RunKeepsInvariant(ws, ops, capacity, store, n - 1);
      StepKeepsInvariant(ws[n - 1], capacity, store, ops[n - 1]);
    }
  }

  lemma PresentIsLatest(s: State, capacity: nat, store: Bytes, h: set<Mutation>, key: Bytes)
    requires Invariant(s, capacity, store, h)
    requires key in s.slots && s.slots[key].Present?
    ensures
      var slot := s.slots[key];
      IsLatest(h, store, key, Put(store, key, slot.revision, slot.expiresAt, slot.payload))
  {
  }

  /** Coherence.  At every point of every run, whatever was delivered late, duplicated,
      evicted, expired or resynchronised, a hit carries exactly the entry that the sorted
      replay of all mutations handed to this cache since the last transport reset gives. */
  lemma HitIsLastWriteWins(
    ws: seq<World>, ops: seq<Op>, capacity: nat, store: Bytes, n: nat,
    key: Bytes, now: nat, arena: Arena, listing: seq<Mutation>)
    requires IsRun(ws, ops, capacity, store) && n < |ws|
    requires Elements(listing) == ws[n].history
    ensures
      var read := ReadAt(ws[n].state, key, now, arena).1;
      read.Hit? ==>
        && !Expired(read.entry.expiresAt, now)
        && exists payload ::
             && Resolves(arena, payload) && read.entry.value == arena[payload.address]
             && Lookup(Replay(SortByRevision(listing)), store, key)
                  == Some(Retained(key, read.entry.revision, read.entry.expiresAt, payload))
  {
    var w := ws[n];
    var read := ReadAt(w.state, key, now, arena).1;
    if read.Hit? {
      RunKeepsInvariant(ws, ops, capacity, store, n);
      PresentIsLatest(w.state, capacity, store, w.history, key);
      var slot := w.state.slots[key];
      var sorted := SortByRevision(listing);
      SameMultisetSameElements(sorted, listing);
      ReplayIsLastWriteWins(w.history, sorted, store, key);
      var m := Put(store, key, slot.revision, slot.expiresAt, slot.payload);
      assert IsLatest(w.history, store, key, m);
      assert Resolves(arena, slot.payload);
    }
  }

  /** Why recovery needs its floor: with a resident slot left above it, one delayed older
      put is served as a hit although the replay has moved on. */
  lemma UncoveredRecoveryServesStale(
    s: State, capacity: nat, store: Bytes, h: set<Mutation>, revisionFloor: nat, m: Mutation, arena: Arena)
    requires Invariant(s, capacity, store, h)
    requires m.Put? && m.store == store && m.key in s.slots && RevisionsIdentify(h + {m})
    requires Raise(s.floor, revisionFloor) < m.revision.sequence && m.revision.Less(s.slots[m.key].revision)
    requires m.expiresAt.None? && Resolves(arena, m.payload)
    ensures
      var t := RecoverFromBacking(s, revisionFloor);
      && WellFormed(t, capacity)
      && ReadAt(Apply(t, capacity, m, arena).0, m.key, 0, arena).1
           == Hit(Entry(arena[m.payload.address], m.revision, m.expiresAt))
      && !IsLatest(h + {m}, store, m.key, m)
  {
  }

  function AfterRecovery(s: State, capacity: nat, revisionFloor: nat, m: Mutation, arena: Arena): State
    requires 1 <= capacity
  {
    Apply(RecoverFromBacking(s, revisionFloor), capacity, m, arena).0
  }

  /** Delivered after the recovery, `m` is served at `now` although `h` holds a later
      mutation that decides its key. */
  ghost predicate ServedStale(
    s: State, capacity: nat, store: Bytes, h: set<Mutation>, revisionFloor: nat, m: Mutation, arena: Arena, now: nat)
    requires 1 <= capacity
  {
    && m.Put? && m.store == store && RevisionsIdentify(h + {m})
    && ReadAt(AfterRecovery(s, capacity, revisionFloor, m, arena), m.key, now, arena).1
         == Hit(Entry(if m.payload.address in arena then arena[m.payload.address] else [], m.revision, m.expiresAt))
    && !IsLatest(h + {m}, store, m.key, m)
  }

  /** No mutation so far, or only a put of this key that some instant still serves. */
  ghost predicate Usable(h: set<Mutation>, key: Bytes, r: Revision) {
    forall o :: o in h && o.revision == r ==> o.Put? && o.key == key && (o.expiresAt.None? || 0 < o.expiresAt.value)
  }

  /** `key` is resident two or more sequences above `floor`, or one above it with a smaller
      identity still usable at that sequence. */
  ghost predicate LeftAbove(s: State, h: set<Mutation>, floor: nat, key: Bytes) {
    && key in s.slots
    && var r := s.slots[key].revision;
       || floor + 1 < r.sequence
       || (floor + 1 == r.sequence && exists q :: Usable(h, key, q) && q.sequence == r.sequence && q.Less(r))
  }

  lemma {:induction false} UnusedIdentity(h: set<Mutation>) returns (id: nat)
    ensures forall o :: o in h ==> o.revision.mutationId < id
    decreases h
  {
    id := 0;
    if h != {} {
      var o :| o in h;
      var rest := UnusedIdentity(h - {o});
      id := if o.revision.mutationId < rest then rest else o.revision.mutationId + 1;
    }
  }

  lemma StaleNeedsGap(
    s: State, capacity: nat, store: Bytes, h: set<Mutation>, revisionFloor: nat, m: Mutation, arena: Arena, now: nat)
    requires Invariant(s, capacity, store, h) && ServedStale(s, capacity, store, h, revisionFloor, m, arena, now)
    ensures LeftAbove(s, h, Raise(s.floor, revisionFloor), m.key)
  {
    var o :| o in h + {m} && Touches(o, store, m.key) && o != m && !o.revision.Less(m.revision);
    assert Covered(s, o);
    assert m in h + {m};
    assert Usable(h, m.key, m.revision);
  }

  lemma DelayedPutIsServed(
    s: State, capacity: nat, store: Bytes, h: set<Mutation>, revisionFloor: nat, m: Mutation, arena: Arena)
    requires Invariant(s, capacity, store, h) && m.Put? && Resolves(arena, m.payload)
    requires Raise(s.floor, revisionFloor) < m.revision.sequence
    requires m.expiresAt.None? || 0 < m.expiresAt.value
    ensures ReadAt(AfterRecovery(s, capacity, revisionFloor, m, arena), m.key, 0, arena).1
              == Hit(Entry(arena[m.payload.address], m.revision, m.expiresAt))
  {
  }

  lemma GapServesStale(
    s: State, capacity: nat, store: Bytes, h: set<Mutation>, revisionFloor: nat, key: Bytes, r: Revision)
    returns (m: Mutation, arena: Arena)
    requires Invariant(s, capacity, store, h) && key in s.slots && Usable(h, key, r)
    requires Raise(s.floor, revisionFloor) < r.sequence && r.Less(s.slots[key].revision)
    ensures ServedStale(s, capacity, store, h, revisionFloor, m, arena, 0)
  {
    m := Put(store, key, r, None, Payload(Address(0, 0), 0));
    if exists o :: o in h && o.revision == r {
      m :| m in h && m.revision == r;
    }
    arena := map[m.payload.address := seq(m.payload.valueLen, _ => 0)];
    DelayedPutIsServed(s, capacity, store, h, revisionFloor, m, arena);
    var o :| o in h && Stems(s.slots[key], key, o);
    assert o in h + {m} && Touches(o, store, key) && !o.revision.Less(m.revision);
  }

  /** The exact price of a low floor.  After a recovery some delayed put can be served as a
      stale hit if and only if a resident key was left above the new floor with room for an
      older revision in between. */
  lemma RecoveryServesStaleIff(s: State, capacity: nat, store: Bytes, h: set<Mutation>, revisionFloor: nat)
    requires Invariant(s, capacity, store, h)
    ensures
      (exists m, arena, now: nat :: ServedStale(s, capacity, store, h, revisionFloor, m, arena, now)) <==>
      (exists key :: LeftAbove(s, h, Raise(s.floor, revisionFloor), key))
  {
    var floor := Raise(s.floor, revisionFloor);
    if m, arena, now: nat :| ServedStale(s, capacity, store, h, revisionFloor, m, arena, now) {
      StaleNeedsGap(s, capacity, store, h, revisionFloor, m, arena, now);
    }
    if key :| LeftAbove(s, h, floor, key) {
      var top := s.slots[key].revision;
      var r: Revision;
      if floor + 1 < top.sequence {
        var id := UnusedIdentity(h);
        r := Revision(floor + 1, id);
      } else {
        r :| Usable(h, key, r) && r.sequence == top.sequence && r.Less(top);
      }
      var m, arena := GapServesStale(s, capacity, store, h, revisionFloor, key, r);
    }
  }

  // -------------------------------------------------------------- order independence

  function ApplyAll(s: State, capacity: nat, ms: seq<Mutation>, arena: Arena): (t: State)
    requires WellFormed(s, capacity)
    ensures WellFormed(t, capacity)
    decreases |ms|
  {
    if ms == [] then s
    else
      ApplyKeepsShape(s, capacity, ms[0], arena);
      ApplyAll(Apply(s, capacity, ms[0], arena).0, capacity, ms[1..], arena)
  }

  lemma ApplyKeepsShape(s: State, capacity: nat, m: Mutation, arena: Arena)
    requires WellFormed(s, capacity)
    ensures WellFormed(Apply(s, capacity, m, arena).0, capacity)
  {
    if Accepts(s, m.revision) {
      if m.Reset? {
        AdvanceFloorKeepsShape(s, capacity, m.revision.sequence);
      } else {
        PutSlotKeepsShape(s, capacity, m.key, SlotFor(m, m.Put? && Resolves(arena, m.payload)));
      }
    }
  }

  ghost function KeysOf(h: set<Mutation>): set<Bytes> { set m | m in h && !m.Reset? :: m.key }

  /** With no eviction the floor comes from resets alone and each slot is the one its
      mutation calls for. */
  ghost predicate Exact(s: State, h: set<Mutation>, arena: Arena) {
    && Covers(s, h)
    && (s.floor.Some? ==> exists m :: m in h && m.Reset? && m.revision.sequence == s.floor.value)
    && forall k :: k in s.slots ==> HasCaller(s.slots[k], k, h, arena)
  }

  ghost predicate HasCaller(slot: Slot, key: Bytes, h: set<Mutation>, arena: Arena) {
    exists m :: m in h && Called(slot, key, m, arena)
  }

  ghost predicate Called(slot: Slot, key: Bytes, m: Mutation, arena: Arena) {
    !m.Reset? && m.key == key && slot == SlotFor(m, m.Put? && Resolves(arena, m.payload))
  }

  lemma {:induction false} OrderSize(order: seq<Bytes>, keys: set<Bytes>)
    requires NoDuplicates(order) && forall k :: k in order <==> k in keys
    ensures |order| == |keys|
  {
    if order == [] {
      assert keys == {};
    } else {
      assert forall k :: k in order <==> k == order[0] || k in order[1..];
      OrderSize(order[1..], keys - {order[0]});
    }
  }

  lemma SubsetSize(a: set<Bytes>, b: set<Bytes>)
    requires a <= b
    ensures |a| <= |b|
  {
    assert b == a + (b - a);
  }

  lemma StoreKeepsExact(s: State, t: State, h: set<Mutation>, m: Mutation, arena: Arena)
    requires Exact(s, h, arena) && !m.Reset?
    requires m.key in s.slots ==> s.slots[m.key].revision.Less(m.revision)
    requires t.floor == s.floor
    requires t.slots == s.slots[m.key := SlotFor(m, m.Put? && Resolves(arena, m.payload))]
    ensures Exact(t, h + {m}, arena)
  {
  }

  lemma ResetKeepsExact(s: State, h: set<Mutation>, m: Mutation, arena: Arena)
    requires Exact(s, h, arena) && m.Reset? && Accepts(s, m.revision)
    ensures Exact(AdvanceFloor(s, m.revision.sequence), h + {m}, arena)
  {
  }

  lemma ApplyKeepsExact(s: State, capacity: nat, h: set<Mutation>, m: Mutation, arena: Arena)
    requires WellFormed(s, capacity) && Exact(s, h, arena) && |KeysOf(h + {m})| <= capacity
    ensures Exact(Apply(s, capacity, m, arena).0, h + {m}, arena)
  {
    ExactGrows(s, h, m, arena);
    if Accepts(s, m.revision) {
      if m.Reset? {
        ResetKeepsExact(s, h, m, arena);
      } else if m.key !in s.slots || s.slots[m.key].revision.Less(m.revision) {
        if m.key !in s.slots {
          RoomForOneMore(s, capacity, h, m, arena);
        }
        StoreKeepsExact(s, Apply(s, capacity, m, arena).0, h, m, arena);
      }
    }
  }

  lemma SlotsExactGrow(s: State, h: set<Mutation>, m: Mutation, arena: Arena)
    requires forall k :: k in s.slots ==> HasCaller(s.slots[k], k, h, arena)
    ensures forall k :: k in s.slots ==> k in KeysOf(h + {m})
  {
  }

  lemma RoomForOneMore(s: State, capacity: nat, h: set<Mutation>, m: Mutation, arena: Arena)
    requires WellFormed(s, capacity) && Exact(s, h, arena) && |KeysOf(h + {m})| <= capacity
    requires !m.Reset? && m.key !in s.slots
    ensures |s.order| < capacity
  {
    SlotsExactGrow(s, h, m, arena);
    assert m.key in KeysOf(h + {m}) by { assert m in h + {m}; }
    OrderSize(s.order, s.slots.Keys);
    SubsetSize(s.slots.Keys + {m.key}, KeysOf(h + {m}));
  }

  lemma ExactGrows(s: State, h: set<Mutation>, m: Mutation, arena: Arena)
    requires Exact(s, h, arena)
    ensures s.floor.Some? ==> exists o :: o in h + {m} && o.Reset? && o.revision.sequence == s.floor.value
    ensures forall k :: k in s.slots ==> HasCaller(s.slots[k], k, h + {m}, arena)
  {
  }

  lemma {:induction false} ApplyAllExact(s: State, capacity: nat, h: set<Mutation>, ms: seq<Mutation>, arena: Arena)
    requires WellFormed(s, capacity) && Exact(s, h, arena) && |KeysOf(h + Elements(ms))| <= capacity
    ensures Exact(ApplyAll(s, capacity, ms, arena), h + Elements(ms), arena)
    decreases |ms|
  {
    if ms == [] {
      assert h + Elements(ms) == h;
    } else {
      var m := ms[0];
      assert ms == [m] + ms[1..];
      assert h + Elements(ms) == (h + {m}) + Elements(ms[1..]);
      SubsetSize(KeysOf(h + {m}), KeysOf(h + Elements(ms)));
      ApplyKeepsShape(s, capacity, m, arena);
      ApplyKeepsExact(s, capacity, h, m, arena);
      ApplyAllExact(Apply(s, capacity, m, arena).0, capacity, h + {m}, ms[1..], arena);
    }
  }

  lemma CallersAgree(s: State, t: State, arena: Arena, k: Bytes, m: Mutation, o: Mutation)
    requires s.floor == t.floor && k in s.slots && Above(s.floor, s.slots[k].revision.sequence)
    requires Called(s.slots[k], k, m, arena) && Covered(t, m)
    requires k in t.slots && Called(t.slots[k], k, o, arena) && Covered(s, o)
    ensures m.revision == o.revision
  {
  }

  lemma ExactAgrees(s: State, t: State, h: set<Mutation>, arena: Arena, k: Bytes)
    requires RevisionsIdentify(h) && Exact(s, h, arena) && Exact(t, h, arena)
    requires s.floor == t.floor && k in s.slots
    requires Above(s.floor, s.slots[k].revision.sequence)
    ensures k in t.slots && s.slots[k] == t.slots[k]
  {
    assert HasCaller(s.slots[k], k, h, arena);
    var m :| m in h && Called(s.slots[k], k, m, arena);
    assert Covered(t, m);
    assert HasCaller(t.slots[k], k, h, arena);
    var o :| o in h && Called(t.slots[k], k, o, arena);
    CallersAgree(s, t, arena, k, m, o);
    assert m == o;
  }

  lemma ExactFloor(s: State, t: State, h: set<Mutation>, arena: Arena)
    requires Exact(s, h, arena) && Exact(t, h, arena) && s.floor.Some?
    ensures t.floor.Some? && s.floor.value <= t.floor.value
  {
  }

  lemma ExactDetermines(s: State, t: State, capacity: nat, h: set<Mutation>, arena: Arena)
    requires WellFormed(s, capacity) && WellFormed(t, capacity) && RevisionsIdentify(h)
    requires Exact(s, h, arena) && Exact(t, h, arena)
    ensures s.floor == t.floor && s.slots == t.slots
  {
    if s.floor.Some? { ExactFloor(s, t, h, arena); }
    if t.floor.Some? { ExactFloor(t, s, h, arena); }
    forall k | k in s.slots ensures k in t.slots && s.slots[k] == t.slots[k] {
      ExactAgrees(s, t, h, arena, k);
    }
    forall k | k in t.slots ensures k in s.slots {
      ExactAgrees(t, s, h, arena, k);
    }
  }

  /** Order independence: the same mutations, in any order and with any duplicates, give
      the same floor and the same slots, provided the keys fit the capacity. */
  lemma OrderIndependent(capacity: nat, a: seq<Mutation>, b: seq<Mutation>, arena: Arena)
    requires 1 <= capacity && Elements(a) == Elements(b)
    requires RevisionsIdentify(Elements(a)) && |KeysOf(Elements(a))| <= capacity
    ensures ApplyAll(Empty, capacity, a, arena).floor == ApplyAll(Empty, capacity, b, arena).floor
    ensures ApplyAll(Empty, capacity, a, arena).slots == ApplyAll(Empty, capacity, b, arena).slots
  {
    assert Exact(Empty, {}, arena);
    assert {} + Elements(a) == Elements(a) == {} + Elements(b);
    ApplyAllExact(Empty, capacity, {}, a, arena);
    ApplyAllExact(Empty, capacity, {}, b, arena);
    ExactDetermines(ApplyAll(Empty, capacity, a, arena), ApplyAll(Empty, capacity, b, arena),
                    capacity, Elements(a), arena);
  }

  /** The cache holds a value for `key` exactly when the replay does, and the same one. */
  ghost predicate Agrees(slots: map<Bytes, Slot>, key: Bytes, replayed: Option<Retained>) {
    if key in slots && slots[key].Present?
    then replayed == Some(Retained(key, slots[key].revision, slots[key].expiresAt, slots[key].payload))
    else replayed == None
  }

  ghost predicate ResetTies(h: set<Mutation>, m: Mutation) {
    exists r :: r in h && r.Reset? && r.revision.sequence == m.revision.sequence
  }

  /** The put that decides `key` shares its sequence with a reset. */
  ghost predicate TiedWithReset(h: set<Mutation>, store: Bytes, key: Bytes) {
    exists p :: IsLatest(h, store, key, p) && p.Put? && ResetTies(h, p)
  }

  lemma LatestIsOne(h: set<Mutation>, store: Bytes, key: Bytes, m: Mutation, o: Mutation)
    requires IsLatest(h, store, key, m) && IsLatest(h, store, key, o)
    ensures m == o
  {
  }

  lemma DecidedAgrees(s: State, capacity: nat, store: Bytes, h: set<Mutation>, arena: Arena, key: Bytes, m: Mutation)
    requires WellFormed(s, capacity) && Exact(s, h, arena) && RevisionsIdentify(h)
    requires forall o :: o in h ==> o.store == store && (o.Put? ==> Resolves(arena, o.payload))
    requires IsLatest(h, store, key, m)
    ensures Agrees(s.slots, key, EntryOf(m)) <==> !TiedWithReset(h, store, key)
  {
    LatestDecides(s, capacity, store, h, arena, key, m);
    if TiedWithReset(h, store, key) {
      var p :| IsLatest(h, store, key, p) && p.Put? && ResetTies(h, p);
      LatestIsOne(h, store, key, m, p);
    }
  }

  /** Completeness beside coherence, exactly.  When the keys fit and every payload resolves,
      the cache agrees with the replay on `key` if and only if the put that decides it does
      not share its sequence with a reset. */
  lemma AgreesUnlessTied(capacity: nat, store: Bytes, ms: seq<Mutation>, arena: Arena, key: Bytes)
    requires 1 <= capacity && RevisionsIdentify(Elements(ms)) && |KeysOf(Elements(ms))| <= capacity
    requires forall m :: m in ms ==> m.store == store && (m.Put? ==> Resolves(arena, m.payload))
    ensures
      var slots := ApplyAll(Empty, capacity, ms, arena).slots;
      var replayed := Lookup(Replay(SortByRevision(ms)), store, key);
      Agrees(slots, key, replayed) <==> !TiedWithReset(Elements(ms), store, key)
  {
    var h := Elements(ms);
    assert Exact(Empty, {}, arena);
    assert {} + h == h;
    ApplyAllExact(Empty, capacity, {}, ms, arena);
    var s := ApplyAll(Empty, capacity, ms, arena);
    var sorted := SortByRevision(ms);
    SameMultisetSameElements(sorted, ms);
    ReplayIsLastWriteWins(h, sorted, store, key);
    if exists m :: m in h && Touches(m, store, key) {
      var m := LatestExists(h, store, key);
      DecidedAgrees(s, capacity, store, h, arena, key, m);
    } else if key in s.slots {
      SlotIsTouched(s, store, h, arena, key);
    }
  }

  ghost predicate SequencesIdentify(h: set<Mutation>) {
    forall a, b :: a in h && b in h && a.revision.sequence == b.revision.sequence ==> a == b
  }

  /** In particular they always agree when sequences are distinct, as those that one ring
      hands out are. */
  lemma FullAgreement(capacity: nat, store: Bytes, ms: seq<Mutation>, arena: Arena, key: Bytes)
    requires 1 <= capacity && SequencesIdentify(Elements(ms)) && |KeysOf(Elements(ms))| <= capacity
    requires forall m :: m in ms ==> m.store == store && (m.Put? ==> Resolves(arena, m.payload))
    ensures Agrees(ApplyAll(Empty, capacity, ms, arena).slots, key, Lookup(Replay(SortByRevision(ms)), store, key))
  {
    AgreesUnlessTied(capacity, store, ms, arena, key);
  }

  lemma SlotIsTouched(s: State, store: Bytes, h: set<Mutation>, arena: Arena, key: Bytes)
    requires key in s.slots && HasCaller(s.slots[key], key, h, arena)
    requires forall o :: o in h ==> o.store == store
    ensures exists o :: o in h && Touches(o, store, key) && !o.Reset? && o.revision == s.slots[key].revision
  {
  }

  lemma LatestDecides(s: State, capacity: nat, store: Bytes, h: set<Mutation>, arena: Arena, key: Bytes, m: Mutation)
    requires WellFormed(s, capacity) && Exact(s, h, arena) && RevisionsIdentify(h)
    requires forall o :: o in h ==> o.store == store && (o.Put? ==> Resolves(arena, o.payload))
    requires IsLatest(h, store, key, m)
    ensures !m.Put? ==> !(key in s.slots && s.slots[key].Present?)
    ensures m.Put? && !ResetTies(h, m) ==> key in s.slots && s.slots[key] == SlotFor(m, true)
    ensures m.Put? && ResetTies(h, m) ==> key !in s.slots
  {
    if key in s.slots {
      SlotIsTouched(s, store, h, arena, key);
      assert HasCaller(s.slots[key], key, h, arena);
    }
    assert Covered(s, m);
    if ResetTies(h, m) {
      var r :| r in h && r.Reset? && r.revision.sequence == m.revision.sequence;
      assert Covered(s, r);
    }
  }

  /** Every such tie is a miss: a reset and a put with the same sequence and a greater
      identity leave the replay with the value and the cache without. */
  lemma TiedSequenceIsAMiss(
      capacity: nat, store: Bytes, key: Bytes, sequence: nat, resetId: nat, putId: nat,
      expiresAt: Option<nat>, payload: Payload, arena: Arena)
    requires 1 <= capacity && resetId < putId && Resolves(arena, payload)
    ensures
      var put := Put(store, key, Revision(sequence, putId), expiresAt, payload);
      var ms := [Reset(store, Revision(sequence, resetId)), put];
      && Lookup(Replay(SortByRevision(ms)), store, key) == EntryOf(put)
      && !Agrees(ApplyAll(Empty, capacity, ms, arena).slots, key, EntryOf(put))
  {
    var reset := Reset(store, Revision(sequence, resetId));
    var put := Put(store, key, Revision(sequence, putId), expiresAt, payload);
    var ms := [reset, put];
    var h := Elements(ms);
    assert h == {reset, put} && KeysOf(h) == {key};
    assert put in h && reset in h && IsLatest(h, store, key, put);
    AgreesUnlessTied(capacity, store, ms, arena, key);
    var sorted := SortByRevision(ms);
    SameMultisetSameElements(sorted, ms);
    ReplayIsLastWriteWins(h, sorted, store, key);
  }
}
