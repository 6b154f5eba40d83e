/** The local cache as the object the source updates in place (`cache/src/local.rs`),
    proved against the transitions of `LocalCacheModel`. */
module LocalCacheObject {
  import opened Wrappers
  import opened CacheReplay
  import opened LocalCacheModel

  lemma {:induction false} KeepTwice(order: seq<Bytes>, a: set<Bytes>, b: set<Bytes>)
    ensures Keep(Keep(order, a), b) == Keep(order, a * b)
  {
    if order != [] {
      KeepTwice(order[1..], a, b);
      if order[0] in a {
        assert ([order[0]] + Keep(order[1..], a))[1..] == Keep(order[1..], a);
      }
    }
  }

  lemma {:induction false} KeepAll(order: seq<Bytes>, keys: set<Bytes>)
    requires forall k :: k in order ==> k in keys
    ensures Keep(order, keys) == order
  {
    if order != [] {
      KeepAll(order[1..], keys);
    }
  }

  ghost function KeySet(keys: seq<Bytes>): set<Bytes> { set k | k in keys }

  lemma PopOne(order: seq<Bytes>, slots: map<Bytes, Slot>, popped: seq<Bytes>, key: Bytes)
    ensures (slots - KeySet(popped)) - {key} == slots - KeySet(popped + [key])
    ensures
      var left := (slots - KeySet(popped)).Keys;
      Keep(Keep(order, left), left - {key}) == Keep(order, (slots - KeySet(popped + [key])).Keys)
  {
    var left := (slots - KeySet(popped)).Keys;
    KeepTwice(order, left, left - {key});
    assert left * (left - {key}) == left - {key};
    assert KeySet(popped + [key]) == KeySet(popped) + {key};
    assert (slots - KeySet(popped + [key])).Keys == left - {key};
  }

  /** Pop each listed key from the LRU. */
  method PopAll(order: seq<Bytes>, slots: map<Bytes, Slot>, keys: seq<Bytes>)
    returns (left: seq<Bytes>, rest: map<Bytes, Slot>)
    requires Keep(order, slots.Keys) == order
    ensures rest == slots - KeySet(keys)
    ensures left == Keep(order, rest.Keys)
  {
    left, rest := order, slots;
    assert slots - KeySet([]) == slots;
    for i := 0 to |keys|
      invariant rest == slots - KeySet(keys[..i])
      invariant left == Keep(order, rest.Keys)
    {
      ghost var popped := keys[..i];
      assert keys[..i + 1] == popped + [keys[i]];
      PopOne(order, slots, popped, keys[i]);
      left := Keep(left, rest.Keys - {keys[i]});
      rest := rest - {keys[i]};
    }
    assert keys[..|keys|] == keys;
  }

  lemma PopStale(s: State, sequence: nat, stale: seq<Bytes>)
    requires forall k :: k in stale <==> k in s.slots && s.slots[k].revision.sequence <= Raise(s.floor, sequence)
    ensures s.slots - KeySet(stale) == LocalCacheModel.AdvanceFloor(s, sequence).slots
  {
  }

  /** The entry is what the latest mutation of `key` in `h` put there. */
  ghost predicate WasPut(h: set<Mutation>, store: Bytes, key: Bytes, entry: Entry, arena: Arena) {
    exists payload ::
      && IsLatest(h, store, key, Put(store, key, entry.revision, entry.expiresAt, payload))
      && Resolves(arena, payload) && entry.value == arena[payload.address]
  }

  lemma HitWasPut(s: State, capacity: nat, store: Bytes, h: set<Mutation>, key: Bytes, now: nat, arena: Arena)
    requires Invariant(s, capacity, store, h)
    ensures Invariant(LocalCacheModel.ReadAt(s, key, now, arena).0, capacity, store, h)
    ensures
      var read := LocalCacheModel.ReadAt(s, key, now, arena).1;
      read.Hit? ==> WasPut(h, store, key, read.entry, arena)
  {
    ReadKeepsInvariant(s, capacity, store, h, key, now, arena);
    if key in s.slots && s.slots[key].Present? {
      PresentIsLatest(s, capacity, store, h, key);
    }
  }

  /** The mutex-protected state with the source's own steps: stale keys are collected and
      popped one by one, the evicted revision raises the floor, a read restamps its key.
      The ghost history holds what was handed to the cache since the last transport reset. */
  class LocalCache {
    ghost const store: Bytes
    const capacity: nat
    var order: seq<Bytes>
    var slots: map<Bytes, Slot>
    var floor: Option<nat>
    var coherent: bool
    ghost var history: set<Mutation>

    ghost function Model(): State
      reads this
    {
      State(order, slots, floor, coherent)
    }

    ghost predicate Valid()
      reads this
    {
      WellFormed(Model(), capacity)
    }

    ghost function At(): World
      reads this
    {
      World(Model(), history)
    }

    /** The invariant of every run: each hit is the last write of the history. */
    ghost predicate Coherent()
      reads this
    {
      Invariant(Model(), capacity, store, history)
    }

    constructor (ghost store: Bytes, capacity: nat)
      requires 1 <= capacity
      ensures Valid() && Coherent() && At() == World(Empty, {})
      ensures this.store == store && this.capacity == capacity
    {
      this.store, this.capacity := store, capacity;
      order, slots, floor, coherent, history := [], map[], None, true, {};
    }

    method StaleKeys(raised: nat) returns (stale: seq<Bytes>)
      requires forall k :: k in order <==> k in slots
      ensures forall k :: k in stale <==> k in slots && slots[k].revision.sequence <= raised
    {
      stale := [];
      for i := 0 to |order|
        invariant forall k :: k in stale <==> k in order[..i] && slots[k].revision.sequence <= raised
      {
        assert order[..i + 1] == order[..i] + [order[i]];
        if slots[order[i]].revision.sequence <= raised {
          stale := stale + [order[i]];
        }
      }
      assert order[..|order|] == order;
    }

    method AdvanceFloor(sequence: nat)
      requires forall k :: k in order <==> k in slots
      modifies `order, `slots, `floor
      ensures Model() == LocalCacheModel.AdvanceFloor(old(Model()), sequence)
    {
      var raised := match floor case None => sequence case Some(f) => if f < sequence then sequence else f;
      floor := Some(raised);
      var stale := StaleKeys(raised);
      PopStale(old(Model()), sequence, stale);
      KeepAll(order, slots.Keys);
      order, slots := PopAll(order, slots, stale);
    }

    method PutSlot(key: Bytes, slot: Slot) returns (stored: bool)
      requires Valid() && Accepts(Model(), slot.revision)
      modifies `order, `slots, `floor
      ensures Valid()
      ensures (Model(), stored) == LocalCacheModel.PutSlot(old(Model()), capacity, key, slot)
    {
      PutSlotKeepsShape(Model(), capacity, key, slot);
      if key in slots && !slots[key].revision.Less(slot.revision) {
        return false;
      }
      if key in slots || |order| < capacity {
        order := [key] + Keep(order, slots.Keys - {key});
        slots := slots[key := slot];
      } else {
        var last := |order| - 1;
        var victim := order[last];
        var removed := slots[victim];
        assert forall k :: k in order <==> k == victim || k in order[..last];
        order := [key] + order[..last];
        slots := (slots - {victim})[key := slot];
        AdvanceFloor(removed.revision.sequence);
      }
      stored := key in slots;
    }

    method Apply(mutation: Mutation, arena: Arena) returns (outcome: Outcome)
      requires Valid()
      modifies this
      ensures Valid()
      ensures (Model(), outcome) == LocalCacheModel.Apply(old(Model()), capacity, mutation, arena)
      ensures history == old(history) + {mutation}
      ensures old(Coherent()) && Allowed(old(At()), store, ApplyOp(mutation, arena)) ==> Coherent()
    {
      if Coherent() && Allowed(At(), store, ApplyOp(mutation, arena)) {
        StepKeepsInvariant(At(), capacity, store, ApplyOp(mutation, arena));
      }
      history := history + {mutation};
      ApplyKeepsShape(Model(), capacity, mutation, arena);
      var resolved := mutation.Put? && Resolves(arena, mutation.payload);
      if floor.Some? && mutation.revision.sequence <= floor.value {
        return Ignored;
      }
      match mutation
      case Put(_, key, revision, expiresAt, payload) =>
        if resolved {
          var stored := PutSlot(key, Present(payload, revision, expiresAt));
          outcome := if stored then Applied else Ignored;
        } else {
          var stored := PutSlot(key, Missing(revision));
          outcome := if stored then PayloadUnavailable(key) else Ignored;
        }
      case Delete(_, key, revision) =>
        var stored := PutSlot(key, Missing(revision));
        outcome := if stored then Applied else Ignored;
      case Reset(_, revision) =>
        AdvanceFloor(revision.sequence);
        outcome := Applied;
    }

    method InstallLocal(mutation: Mutation)
      requires Valid()
      modifies this
      ensures Valid()
      ensures Model() == Install(old(Model()), capacity, mutation)
      ensures history == old(history) + {mutation}
      ensures old(Coherent()) && Allowed(old(At()), store, InstallOp(mutation)) ==> Coherent()
    {
      if Coherent() && Allowed(At(), store, InstallOp(mutation)) {
        StepKeepsInvariant(At(), capacity, store, InstallOp(mutation));
      }
      history := history + {mutation};
      if floor.Some? && mutation.revision.sequence <= floor.value {
        return;
      }
      match mutation
      case Put(_, key, revision, expiresAt, payload) =>
        var _ := PutSlot(key, Present(payload, revision, expiresAt));
      case Delete(_, key, revision) =>
        var _ := PutSlot(key, Missing(revision));
      case Reset(_, revision) =>
        AdvanceFloorKeepsShape(Model(), capacity, revision.sequence);
        AdvanceFloor(revision.sequence);
    }

    method ReadLocked(key: Bytes, now: nat, arena: Arena) returns (read: Read)
      requires Valid()
      modifies `order, `slots
      ensures Valid()
      ensures (Model(), read) == LocalCacheModel.ReadAt(old(Model()), key, now, arena)
    {
      if !coherent {
        return ResyncRequired;
      }
      if key !in slots {
        return Miss;
      }
      var slot := slots[key];
      PromoteKeepsShape(Model(), capacity, key, slot);
      PromoteKeepsShape(Model(), capacity, key, Missing(slot.revision));
      order := [key] + Keep(order, slots.Keys - {key});
      match slot
      case Present(payload, revision, expiresAt) =>
        if !(expiresAt.Some? && expiresAt.value <= now) && Resolves(arena, payload) {
          assert slots[key := slot] == slots;
          return Hit(Entry(arena[payload.address], revision, expiresAt));
        }
        slots := slots[key := Missing(revision)];
        read := Miss;
      case Missing(_) =>
        assert slots[key := slot] == slots;
        read := Miss;
    }

    method ReadAt(key: Bytes, now: nat, arena: Arena) returns (read: Read)
      requires Valid()
      modifies `order, `slots
      ensures Valid()
      ensures (Model(), read) == LocalCacheModel.ReadAt(old(Model()), key, now, arena)
      ensures old(Coherent()) ==> Coherent()
      ensures old(Coherent()) && read.Hit? ==> WasPut(history, store, key, read.entry, arena)
    {
      if Coherent() {
        HitWasPut(Model(), capacity, store, history, key, now, arena);
      }
      read := ReadLocked(key, now, arena);
    }

    method ResyncLocked()
      requires Valid()
      modifies `order, `slots, `floor, `coherent
      ensures Valid()
      ensures Model() == LocalCacheModel.RequireResync(old(Model()))
    {
      var greatest: Option<Revision> := None;
      for i := |order| downto 0
        invariant order == old(order) && slots == old(slots) && floor == old(floor)
        invariant
          var g := Greatest(order[i..], slots);
          if g.None? then greatest.None? else greatest.Some? && greatest.value.sequence == g.value
      {
        var revision := slots[order[i]].revision;
        assert order[i..][0] == order[i] && order[i..][1..] == order[i + 1..];
        if greatest.None? || greatest.value.Less(revision) {
          greatest := Some(revision);
        }
      }
      assert order[0..] == order;
      if greatest.Some? {
        AdvanceFloor(greatest.value.sequence);
      }
      order, slots, coherent := [], map[], false;
    }

    method RequireResync()
      requires Valid()
      modifies `order, `slots, `floor, `coherent
      ensures Valid()
      ensures Model() == LocalCacheModel.RequireResync(old(Model()))
      ensures old(Coherent()) ==> Coherent()
    {
      if Coherent() {
        ResyncKeepsInvariant(Model(), capacity, store, history);
      }
      ResyncLocked();
    }

    method RecoverFromBacking(revisionFloor: nat)
      requires Valid()
      modifies `order, `slots, `floor, `coherent
      ensures Valid() && coherent && slots == map[]
      ensures floor == Some(Raise(old(floor), revisionFloor))
      ensures old(Coherent()) ==>
                (Coherent() <==> forall k :: k in old(slots) ==> old(slots)[k].revision.sequence <= floor.value)
      ensures old(Coherent()) && Allowed(old(At()), store, RecoverOp(revisionFloor)) ==> Coherent()
    {
      if Coherent() {
        RecoveryCoversIff(Model(), capacity, store, history, revisionFloor);
      }
      order, slots := [], map[];
      floor := Some(
        match floor case None => revisionFloor case Some(f) => if f < revisionFloor then revisionFloor else f);
      coherent := true;
    }

    method ResetAfterTransportReset()
      requires Valid()
      modifies this
      ensures Valid() && Coherent() && At() == World(Empty, {})
    {
      order, slots, floor, coherent, history := [], map[], None, true, {};
    }
  }
}
