/** What a put costs the records in its way (`arena/src/lib.rs`): which slots the searches of
    `ArenaSearch` retire, when a refused put loses nothing, and what it loses otherwise. */
module ArenaCost {

  import opened Wrappers
  import opened ArenaTypes
  import opened ArenaIndex
  import opened ArenaSearch
  import opened Arithmetic

  /** The searches for `len` bytes retire this slot: the first, under every pin, or, if it
      fails, the second, under the pins of living readers only. */
  ghost predicate Swept(
      slots: seq<Slot>, held: set<nat>, living: set<nat>, bytes: nat, len: nat, cursor: nat, i: nat)
    requires bytes > 0 && i < |slots|
  {
    || (i !in held && MetByAny(slots[i], AllTried(slots, held, bytes, len, cursor), len))
    || (AllBlocked(slots, held, bytes, len) && i !in living
        && MetByAny(slots[i], AllTried(slots, living, bytes, len, cursor), len))
  }

  /** Retired: exactly what the searches sweep away; `spot` is not spoken for. */
  ghost predicate SweptExactly(
      before: seq<Slot>, after: seq<Slot>, held: set<nat>, living: set<nat>,
      bytes: nat, len: nat, cursor: nat, spot: Option<nat>)
    requires bytes > 0
  {
    |after| == |before| && forall i :: 0 <= i < |before| && spot != Some(i) ==>
      after[i] == if Swept(before, held, living, bytes, len, cursor, i) then Evicted(before[i]) else before[i]
  }

  lemma SweptOnce(
      before: seq<Slot>, after: seq<Slot>, held: set<nat>, living: set<nat>, bytes: nat, len: nat, cursor: nat)
    requires bytes > 0 && !AllBlocked(before, held, bytes, len)
    requires RetiredExactly(before, after, held, AllTried(before, held, bytes, len, cursor), len)
    ensures SweptExactly(before, after, held, living, bytes, len, cursor, None)
  {
  }

  lemma SweptTwice(
      before: seq<Slot>, first: seq<Slot>, after: seq<Slot>, held: set<nat>, living: set<nat>,
      bytes: nat, len: nat, cursor: nat)
    requires bytes > 0 && AllBlocked(before, held, bytes, len)
    requires RetiredExactly(before, first, held, AllTried(before, held, bytes, len, cursor), len)
    requires RetiredExactly(first, after, living, AllTried(first, living, bytes, len, cursor), len)
    ensures SweptExactly(before, after, held, living, bytes, len, cursor, None)
  {
    RetiringKeepsTried(before, first, living, bytes, len, FirstPosition(cursor, bytes, len), |before| + 2);
    forall i | 0 <= i < |before|
      ensures after[i] == if Swept(before, held, living, bytes, len, cursor, i) then Evicted(before[i]) else before[i]
    {
      MetAlike(before[i], first[i], AllTried(first, living, bytes, len, cursor), len);
    }
  }

  lemma MetAlike(s: Slot, r: Slot, tried: seq<nat>, len: nat)
    requires r == s || r == Evicted(s)
    ensures MetByAny(s, tried, len) <==> MetByAny(r, tried, len)
  {
    forall k | 0 <= k < |tried|
      ensures Meets(s, tried[k], tried[k] + len) <==> Meets(r, tried[k], tried[k] + len)
    {
    }
  }

  /** The put retires this slot: it carries the key, or the searches sweep it away. */
  ghost predicate Gone(
      slots: seq<Slot>, key: Option<Key>, held: set<nat>, living: set<nat>, bytes: nat, len: nat, cursor: nat, i: nat)
    requires bytes > 0 && i < |slots|
  {
    (key.Some? && Names(slots[i], key.value)) || Swept(slots, held, living, bytes, len, cursor, i)
  }

  ghost predicate GoneExactly(
      before: seq<Slot>, after: seq<Slot>, key: Option<Key>, held: set<nat>, living: set<nat>,
      bytes: nat, len: nat, cursor: nat, spot: Option<nat>)
    requires bytes > 0
  {
    |after| == |before| && forall i :: 0 <= i < |before| && spot != Some(i) ==>
      after[i] == if Gone(before, key, held, living, bytes, len, cursor, i) then Evicted(before[i]) else before[i]
  }

  lemma GoneByBoth(
      before: seq<Slot>, retired: seq<Slot>, after: seq<Slot>, key: Option<Key>, held: set<nat>, living: set<nat>,
      bytes: nat, len: nat, cursor: nat, spot: Option<nat>)
    requires bytes > 0 && |retired| == |before|
    requires forall i :: 0 <= i < |before| ==>
      retired[i] == if key.Some? && Names(before[i], key.value) then Evicted(before[i]) else before[i]
    requires SweptExactly(retired, after, held, living, bytes, len, cursor, spot)
    ensures GoneExactly(before, after, key, held, living, bytes, len, cursor, spot)
  {
    var first := FirstPosition(cursor, bytes, len);
    RetiringKeepsTried(before, retired, held, bytes, len, first, |before| + 2);
    RetiringKeepsTried(before, retired, living, bytes, len, first, |before| + 2);
    FewerPinsAllBlocked(before, retired, held, held, bytes, len);
    forall i | 0 <= i < |before|
      ensures Swept(retired, held, living, bytes, len, cursor, i) <==>
        Swept(before, held, living, bytes, len, cursor, i)
    {
      MetAlike(before[i], retired[i], AllTried(before, held, bytes, len, cursor), len);
      MetAlike(before[i], retired[i], AllTried(before, living, bytes, len, cursor), len);
    }
  }

  /** Retiring exactly the slots of `gone` loses exactly their names. */
  lemma RetiringLosesExactly(before: seq<Slot>, after: seq<Slot>, ring: seq<nat>, gone: set<nat>, i: nat)
    requires OneLivePerKey(before) && OneLivePerKey(after) && |after| == |before|
    requires forall j :: 0 <= j < |before| ==> after[j] == if j in gone then Evicted(before[j]) else before[j]
    requires i < |before| && Published(before[i])
    ensures NameOf(before, i) in View(before, ring)
    ensures NameOf(before, i) in View(after, ring) <==> i !in gone
  {
    ViewAt(before, ring, i);
    if i !in gone {
      ViewAt(after, ring, i);
    } else if NameOf(before, i) in View(after, ring) {
      var j := ViewHas(after, ring, NameOf(before, i));
    }
  }

  lemma SameViewIff(before: seq<Slot>, after: seq<Slot>, ring: seq<nat>, gone: set<nat>)
    requires OneLivePerKey(before) && OneLivePerKey(after) && |after| == |before|
    requires forall j :: 0 <= j < |before| ==> after[j] == if j in gone then Evicted(before[j]) else before[j]
    ensures View(after, ring) == View(before, ring) <==>
      forall i :: 0 <= i < |before| && Published(before[i]) ==> i !in gone
  {
    var small, big := View(after, ring), View(before, ring);
    RetiringOnlyForgets(before, after, ring);
    if i :| 0 <= i < |before| && Published(before[i]) && i in gone {
      RetiringLosesExactly(before, after, ring, gone, i);
    } else {
      forall name | name in big ensures name in small {
        var i := ViewHas(before, ring, name);
        RetiringLosesExactly(before, after, ring, gone, i);
      }
      WithinBoth(small, big);
    }
  }

  lemma WithinBoth(small: map<Name, Record>, big: map<Name, Record>)
    requires Within(small, big) && forall name :: name in big ==> name in small
    ensures small == big
  {
  }

  /** A refused put leaves every answer as it was exactly when no published record carries
      the key or lies in the way of its searches. */
  lemma RefusalKeepsViewIff(
      before: seq<Slot>, after: seq<Slot>, ring: seq<nat>, key: Option<Key>, held: set<nat>, living: set<nat>,
      bytes: nat, len: nat, cursor: nat)
    requires bytes > 0 && OneLivePerKey(before) && OneLivePerKey(after)
    requires GoneExactly(before, after, key, held, living, bytes, len, cursor, None)
    ensures View(after, ring) == View(before, ring) <==>
      forall i :: 0 <= i < |before| && Published(before[i]) ==> !Gone(before, key, held, living, bytes, len, cursor, i)
  {
    var gone := set i | 0 <= i < |before| && Gone(before, key, held, living, bytes, len, cursor, i);
    SameViewIff(before, after, ring, gone);
  }

  lemma {:induction false} SearchRuns(
      slots: seq<Slot>, held: set<nat>, bytes: nat, len: nat, g: Search, place: nat, attempts: nat)
    requires place < bytes && place + len <= bytes && g.first < bytes && g.first + len <= bytes
    requires PinnedWithin(slots, held, bytes) && AllBlocked(slots, held, bytes, len)
    requires Searched(slots, held, bytes, len, g, place, attempts) && attempts <= |slots| + 2
    ensures AllPassed(slots, held, bytes, len, g.tried + Tried(slots, held, bytes, len, place, |slots| + 2 - attempts))
    decreases |slots| + 2 - attempts
  {
    if attempts == |slots| + 2 {
      SearchExhausted(slots, held, bytes, len, g, place, attempts);
      assert g.tried + [] == g.tried;
    } else {
      assert Blocked(slots, held, place, len);
      FurthestEndIs(slots, held, place, place + len, |slots|);
      var past := FurthestEndOf(slots, held, place, place + len, |slots|).value;
      var g' := SearchAdvances(slots, held, bytes, len, g, place, attempts, past);
      var rest := Tried(slots, held, bytes, len, Onward(past, bytes, len), |slots| + 2 - attempts - 1);
      SearchRuns(slots, held, bytes, len, g', Onward(past, bytes, len), attempts + 1);
      PlanMoves(g.tried + ([place] + rest), g.tried, place, rest);
    }
  }

  /** The attempts of a failing search leave no window unseen. */
  lemma FailedSearchPassesAll(slots: seq<Slot>, held: set<nat>, bytes: nat, len: nat, cursor: nat)
    requires 0 < bytes && len <= bytes && PinnedWithin(slots, held, bytes) && AllBlocked(slots, held, bytes, len)
    ensures AllPassed(slots, held, bytes, len, AllTried(slots, held, bytes, len, cursor))
  {
    var first := FirstPosition(cursor, bytes, len);
    SearchRuns(slots, held, bytes, len, Search(first, false, {}, []), first, 0);
    assert [] + Tried(slots, held, bytes, len, first, |slots| + 2)
      == Tried(slots, held, bytes, len, first, |slots| + 2);
  }

  /** Where a failed search passed the start of an unpinned record, it met the record: the
      pinned span that carried it past lies behind the record. */
  lemma PassedRecordIsMet(slots: seq<Slot>, held: set<nat>, bytes: nat, len: nat, tried: seq<nat>, i: nat)
    requires len > 0 && SpansApart(slots, held, bytes) && AllPassed(slots, held, bytes, len, tried)
    requires i < |slots| && Published(slots[i]) && i !in held
    requires slots[i].start < End(slots[i]) && slots[i].start + len <= bytes
    ensures MetByAny(slots[i], tried, len)
  {
    var x := slots[i].start;
    assert Passed(slots, held, tried, len, x);
    var k :| 0 <= k < |tried| && PassedBy(slots, held, tried[k], len, x);
    var w :| 0 <= w < |slots| && w in held && Meets(slots[w], tried[k], tried[k] + len) && x < End(slots[w]);
    assert InUse(slots, held, i) && InUse(slots, held, w) && Apart(slots[i], slots[w]);
    assert Meets(slots[i], tried[k], tried[k] + len);
  }

  /** A put that finds no bytes costs every record that no living reader pins, wherever the
      cursor stood, except empty ones and those too near the end of the ring for a window to
      start at them. */
  lemma RefusalEmptiesRing(
      slots: seq<Slot>, held: set<nat>, living: set<nat>, bytes: nat, counter: nat, len: nat, cursor: nat, i: nat)
    requires WellFormed(slots, held, bytes, counter) && living <= held
    requires 0 < len <= bytes && AllBlocked(slots, living, bytes, len)
    requires i < |slots| && Published(slots[i]) && i !in living
    requires slots[i].start < End(slots[i]) && slots[i].start + len <= bytes
    ensures Swept(slots, held, living, bytes, len, cursor, i)
  {
    FewerPinsAllBlocked(slots, slots, held, living, bytes, len);
    PinsKeepWellFormed(slots, held, living, bytes, counter);
    FailedSearchPassesAll(slots, living, bytes, len, cursor);
    PassedRecordIsMet(slots, living, bytes, len, AllTried(slots, living, bytes, len, cursor), i);
  }

  /** A one-byte live record that is its own home. */
  function ByteAt(i: nat, start: nat): Slot { Slot(Live, Key(i, 0), start, 1, 0, 0, 0, 0, i + 1) }

  /** Every second byte of eight is under a pinned record, and byte zero under another. */
  ghost predicate IsCrowded(slots: seq<Slot>) {
    && |slots| == 5
    && (forall i :: 0 <= i < 4 ==> slots[i] == ByteAt(i, 2 * i + 1))
    && slots[4] == ByteAt(4, 0)
  }

  lemma CrowdedIsWellFormed(slots: seq<Slot>)
    requires IsCrowded(slots)
    ensures WellFormed(slots, {0, 1, 2, 3}, 8, 5)
  {
    forall i | 0 <= i < 5 ensures slots[i].key == Key(i, 0) && Reachable(slots, slots[i].key, i) {
      assert Distance(slots[i].key, 5, i) == 0;
    }
    assert SpansApart(slots, {0, 1, 2, 3}, 8);
  }

  lemma CrowdedIsBlocked(slots: seq<Slot>)
    requires IsCrowded(slots)
    ensures AllBlocked(slots, {0, 1, 2, 3}, 8, 2)
  {
    forall x | 0 <= x < 8 && x + 2 <= 8 ensures Blocked(slots, {0, 1, 2, 3}, x, 2) {
      assert Meets(slots[x / 2], x, x + 2);
    }
  }

  /** So it happens: a put of two bytes is refused there, and the record of another key, at
      byte zero, is lost, wherever the cursor stood. */
  lemma RefusedPutLosesAnother(slots: seq<Slot>, cursor: nat)
    requires IsCrowded(slots)
    ensures WellFormed(slots, {0, 1, 2, 3}, 8, 5) && NoRoom(slots, {0, 1, 2, 3}, 8, 2)
    ensures Published(slots[4]) && Swept(slots, {0, 1, 2, 3}, {0, 1, 2, 3}, 8, 2, cursor, 4)
  {
    CrowdedIsWellFormed(slots);
    CrowdedIsBlocked(slots);
    RefusalEmptiesRing(slots, {0, 1, 2, 3}, {0, 1, 2, 3}, 8, 5, 2, cursor, 4);
  }

  // ------------------------------------------------------------ pinned spans of no bytes

  /** Entries pin nothing but empty records, and yet no window of that length is free. */
  ghost predicate BlockedByNothing(slots: seq<Slot>, held: set<nat>, bytes: nat, len: nat, counter: nat) {
    && WellFormed(slots, held, bytes, counter) && AllBlocked(slots, held, bytes, len)
    && forall i :: 0 <= i < |slots| && i in held ==> End(slots[i]) == slots[i].start
  }

  /** An empty record at every inner position of the ring. */
  lemma EmptyRecordsBlock(bytes: nat, len: nat) returns (slots: seq<Slot>, held: set<nat>)
    requires 2 <= len <= bytes
    ensures BlockedByNothing(slots, held, bytes, len, 1)
  {
    var n: nat := bytes - 1;
    slots := seq(n, i requires 0 <= i < n => Slot(Live, Key(i, 0), i + 1, 0, 0, 0, 0, 0, 1));
    held := set i | 0 <= i < |slots| && slots[i].state.Live?;
    forall i | 0 <= i < n ensures Reachable(slots, slots[i].key, i) {
      ModUnique(i, n, 0, i);
      assert Distance(slots[i].key, n, i) == 0;
    }
    forall x | 0 <= x < bytes && x + len <= bytes ensures Blocked(slots, held, x, len) {
      assert Meets(slots[x], x, x + len);
    }
  }

  /** The price of the test's third case, exactly: pinned records without a single byte can
      refuse a reservation if and only if it asks for two bytes or more. */
  lemma BlockedByNothingIff(bytes: nat, len: nat)
    requires 0 < bytes && len <= bytes
    ensures (exists slots, held, counter: nat :: BlockedByNothing(slots, held, bytes, len, counter)) <==> 2 <= len
  {
    if slots, held, counter: nat :| BlockedByNothing(slots, held, bytes, len, counter) {
      assert Blocked(slots, held, 0, len);
    }
    if 2 <= len {
      var slots, held := EmptyRecordsBlock(bytes, len);
    }
  }
}
