/** Cache mutations, their last-write-wins order (`cache/src/protocol.rs`) and the plain
    sorted replay of `cache/src/observer.rs`, used as the specification of the local cache. */
module CacheReplay {

  import opened Wrappers

  type Bytes = seq<bv8>

  /** Deterministic order of mutations from independent lanes: sequence, then identity. */
  datatype Revision = Revision(sequence: nat, mutationId: nat) {
    predicate Less(other: Revision) {
      sequence < other.sequence || (sequence == other.sequence && mutationId < other.mutationId)
    }
  }

  datatype Address = Address(slot: nat, generation: nat)
  datatype Payload = Payload(address: Address, valueLen: nat)

  datatype Mutation =
    | Put(store: Bytes, key: Bytes, revision: Revision, expiresAt: Option<nat>, payload: Payload)
    | Delete(store: Bytes, key: Bytes, revision: Revision)
    | Reset(store: Bytes, revision: Revision)

  datatype Retained = Retained(key: Bytes, revision: Revision, expiresAt: Option<nat>, payload: Payload)

  type Stores = map<Bytes, map<Bytes, Retained>>

  /** A revision names one mutation (mutation identities are unique in a fleet). */
  ghost predicate RevisionsIdentify(h: set<Mutation>) {
    forall a, b :: a in h && b in h && a.revision == b.revision ==> a == b
  }

  ghost predicate Sorted(s: seq<Mutation>) {
    forall i, j :: 0 <= i < j < |s| ==> !s[j].revision.Less(s[i].revision)
  }

  ghost function Elements(s: seq<Mutation>): set<Mutation> { set m | m in s }

  // ------------------------------------------------------------------ the replay

  function EntriesOf(stores: Stores, store: Bytes): map<Bytes, Retained> {
    if store in stores then stores[store] else map[]
  }

  function ReplayOne(stores: Stores, m: Mutation): Stores {
    match m
    case Put(store, key, revision, expiresAt, payload) =>
      stores[store := EntriesOf(stores, store)[key := Retained(key, revision, expiresAt, payload)]]
    case Delete(store, key, _) => stores[store := EntriesOf(stores, store) - {key}]
    case Reset(store, _) => stores[store := map[]]
  }

  function Replay(s: seq<Mutation>): Stores {
    if s == [] then map[] else ReplayOne(Replay(s[..|s| - 1]), s[|s| - 1])
  }

  function Lookup(stores: Stores, store: Bytes, key: Bytes): (r: Option<Retained>) {
    if key in EntriesOf(stores, store) then Some(EntriesOf(stores, store)[key]) else None
  }

  function InsertByRevision(s: seq<Mutation>, m: Mutation): (r: seq<Mutation>)
    ensures multiset(r) == multiset(s) + multiset{m}
  {
    if s == [] || !s[0].revision.Less(m.revision) then [m] + s
    else
      assert s == [s[0]] + s[1..];
      [s[0]] + InsertByRevision(s[1..], m)
  }

  /** The library sort: a sorted permutation. */
  function SortByRevision(s: seq<Mutation>): (r: seq<Mutation>)
    ensures multiset(r) == multiset(s)
    ensures Sorted(r)
  {
    if s == [] then []
    else
      assert s == [s[0]] + s[1..];
      InsertKeepsSorted(SortByRevision(s[1..]), s[0]);
      InsertByRevision(SortByRevision(s[1..]), s[0])
  }

  lemma {:induction false} InsertKeepsSorted(s: seq<Mutation>, m: Mutation)
    requires Sorted(s)
    ensures Sorted(InsertByRevision(s, m))
  {
    if s != [] && s[0].revision.Less(m.revision) {
      var r := InsertByRevision(s[1..], m);
      InsertKeepsSorted(s[1..], m);
      forall x | x in r ensures !x.revision.Less(s[0].revision) {
        assert x in multiset(r);
        assert x == m || x in s[1..];
      }
      assert Sorted([s[0]] + r);
    }
  }

  /** Sort, then one pass that inserts, removes or clears. */
  method ReplayMutations(mutations: seq<Mutation>) returns (stores: Stores)
    ensures stores == Replay(SortByRevision(mutations))
  {
    var sorted := SortByRevision(mutations);
    stores := map[];
    for i := 0 to |sorted|
      invariant stores == Replay(sorted[..i])
    {
      assert sorted[..i + 1][..i] == sorted[..i];
      match sorted[i]
      case Put(store, key, revision, expiresAt, payload) =>
        var entries := if store in stores then stores[store] else map[];
        entries := entries[key := Retained(key, revision, expiresAt, payload)];
        stores := stores[store := entries];
      case Delete(store, key, _) =>
        var entries := if store in stores then stores[store] else map[];
        stores := stores[store := entries - {key}];
      case Reset(store, _) =>
        stores := stores[store := map[]];
    }
    assert sorted[..|sorted|] == sorted;
  }

  // -------------------------------------------------------- what the replay means

  predicate Touches(m: Mutation, store: Bytes, key: Bytes) {
    m.store == store && (m.Reset? || m.key == key)
  }

  /** `m` is the greatest mutation of `h` that decides `key`. */
  ghost predicate IsLatest(h: set<Mutation>, store: Bytes, key: Bytes, m: Mutation) {
    && m in h && Touches(m, store, key)
    && forall o :: o in h && Touches(o, store, key) && o != m ==> o.revision.Less(m.revision)
  }

  function EntryOf(m: Mutation): Option<Retained> {
    if m.Put? then Some(Retained(m.key, m.revision, m.expiresAt, m.payload)) else None
  }

  lemma {:induction false} ReplayUntouched(s: seq<Mutation>, store: Bytes, key: Bytes)
    requires forall m :: m in s ==> !Touches(m, store, key)
    ensures Lookup(Replay(s), store, key) == None
  {
    if s != [] {
      assert forall m :: m in s[..|s| - 1] ==> m in s;
      assert !Touches(s[|s| - 1], store, key);
      ReplayUntouched(s[..|s| - 1], store, key);
    }
  }

  lemma {:induction false} ReplaySorted(s: seq<Mutation>, store: Bytes, key: Bytes, m: Mutation)
    requires Sorted(s) && IsLatest(Elements(s), store, key, m)
    ensures Lookup(Replay(s), store, key) == EntryOf(m)
  {
    var last := |s| - 1;
    if Touches(s[last], store, key) {
      assert s[last] == m by {
        var i :| 0 <= i < |s| && s[i] == m;
        assert s[last] in Elements(s);
        assert i == last || !s[last].revision.Less(s[i].revision);
      }
    } else {
      var front := s[..last];
      assert forall x :: x in front ==> x in s;
      assert m in front by {
        var i :| 0 <= i < |s| && s[i] == m;
        assert front[i] == m;
      }
      ReplaySorted(front, store, key, m);
    }
  }

  /** Last write wins: the replay of any sorted listing of `h` gives `key` exactly what
      the greatest mutation deciding `key` wrote, and nothing when none decides it. */
  lemma ReplayIsLastWriteWins(h: set<Mutation>, s: seq<Mutation>, store: Bytes, key: Bytes)
    requires Sorted(s) && Elements(s) == h
    ensures forall m :: IsLatest(h, store, key, m) ==> Lookup(Replay(s), store, key) == EntryOf(m)
    ensures (forall m :: m in h ==> !Touches(m, store, key)) ==> Lookup(Replay(s), store, key) == None
  {
    forall m | IsLatest(h, store, key, m)
      ensures Lookup(Replay(s), store, key) == EntryOf(m)
    {
      ReplaySorted(s, store, key, m);
    }
    if forall m :: m in h ==> !Touches(m, store, key) {
      forall m | m in s ensures !Touches(m, store, key) { assert m in Elements(s); }
      ReplayUntouched(s, store, key);
    }
  }

  lemma SameMultisetSameElements(r: seq<Mutation>, s: seq<Mutation>)
    requires multiset(r) == multiset(s)
    ensures Elements(r) == Elements(s)
  {
    forall m ensures m in r <==> m in s {
      assert m in r <==> m in multiset(r);
      assert m in s <==> m in multiset(s);
    }
  }

  /** The replay does not depend on the order in which mutations were collected, nor on
      how often each was collected. */
  lemma ReplayIgnoresOrder(a: seq<Mutation>, b: seq<Mutation>, store: Bytes, key: Bytes)
    requires Elements(a) == Elements(b) && RevisionsIdentify(Elements(a))
    ensures Lookup(Replay(SortByRevision(a)), store, key) == Lookup(Replay(SortByRevision(b)), store, key)
  {
    var h := Elements(a);
    var s, t := SortByRevision(a), SortByRevision(b);
    SameMultisetSameElements(s, a);
    SameMultisetSameElements(t, b);
    ReplayIsLastWriteWins(h, s, store, key);
    ReplayIsLastWriteWins(h, t, store, key);
    if exists m :: m in h && Touches(m, store, key) {
      var m := LatestExists(h, store, key);
    }
  }

  lemma {:induction false} LatestExists(h: set<Mutation>, store: Bytes, key: Bytes) returns (m: Mutation)
    requires RevisionsIdentify(h)
    requires exists o :: o in h && Touches(o, store, key)
    ensures IsLatest(h, store, key, m)
    decreases h
  {
    var o :| o in h && Touches(o, store, key);
    var rest := h - {o};
    if exists p :: p in rest && Touches(p, store, key) {
      m := LatestExists(rest, store, key);
      if m.revision.Less(o.revision) {
        m := o;
      }
    } else {
      m := o;
    }
  }
}
