/** The writer's search for room in the arena (`arena/src/lib.rs`): where a reservation looks
    in the ring, what its sweeps retire and when it fails.  Slots are values here;
    `ArenaObject` runs the search in place. */
module ArenaSearch {

  import opened Wrappers
  import opened ArenaTypes
  import opened ArenaIndex
  import opened Arithmetic

  ghost predicate IsSwept(before: seq<Slot>, after: seq<Slot>, held: set<nat>, start: nat, end: nat) {
    && |after| == |before|
    && forall i :: 0 <= i < |before| ==> after[i] == SweptSlot(before[i], i in held, start, end)
  }

  function SweptSlot(s: Slot, pinned: bool, start: nat, end: nat): Slot {
    if Meets(s, start, end) && !pinned then Evicted(s) else s
  }

  /** Where a reservation starts looking: at the cursor, or at the front if it would wrap. */
  function FirstPosition(cursor: nat, bytes: nat, len: nat): nat
    requires bytes > 0
  {
    if Rem(cursor, bytes) + len > bytes then 0 else Rem(cursor, bytes)
  }

  /** Where the search goes on, past the end of a pinned span. */
  function Onward(past: nat, bytes: nat, len: nat): nat {
    if past + len > bytes || past == bytes then 0 else past
  }

  lemma SkipsPast(at: nat, bytes: nat, len: nat, position: nat, past: nat)
    requires bytes > 0 && Rem(at, bytes) == position <= past <= bytes
    ensures FirstPosition(at + (past - position), bytes, len) == Onward(past, bytes, len)
  {
  }

  lemma CursorLands(at: nat, bytes: nat, len: nat, position: nat)
    requires bytes > 0 && Rem(at, bytes) == position && position + len <= bytes
    ensures Rem(at + len, bytes) == Rem(position + len, bytes)
  {
    RemMoves(at, bytes, position + len);
    RemMoves(position, bytes, position + len);
  }

  /** `p` is the first unblocked window, in ring order from `first`. */
  ghost predicate FirstUnblocked(slots: seq<Slot>, held: set<nat>, bytes: nat, len: nat, first: nat, p: nat) {
    && p < bytes && p + len <= bytes && !Blocked(slots, held, p, len)
    && (p >= first ==> forall x :: first <= x < p ==> Blocked(slots, held, x, len))
    && (p < first ==>
         && (forall x :: first <= x < bytes && x + len <= bytes ==> Blocked(slots, held, x, len))
         && (forall x :: 0 <= x < p ==> Blocked(slots, held, x, len)))
  }

  /** What a sweep of the first `n` slots reports: the furthest end of a pinned span met. */
  ghost predicate FurthestEnd(slots: seq<Slot>, held: set<nat>, start: nat, end: nat, n: nat, b: Option<nat>) {
    match b
    case None => forall i :: 0 <= i < n && i < |slots| && i in held ==> !Meets(slots[i], start, end)
    case Some(e) =>
      && (exists i :: 0 <= i < n && i < |slots| && i in held && Meets(slots[i], start, end) && End(slots[i]) == e)
      && (forall i :: 0 <= i < n && i < |slots| && i in held && Meets(slots[i], start, end) ==> End(slots[i]) <= e)
  }

  lemma FurthestEndGrows(slots: seq<Slot>, held: set<nat>, start: nat, end: nat, n: nat, b: Option<nat>)
    requires n < |slots| && FurthestEnd(slots, held, start, end, n, b)
    ensures FurthestEnd(slots, held, start, end, n + 1,
      if n in held && Meets(slots[n], start, end)
      then Some(if b.Some? && b.value > End(slots[n]) then b.value else End(slots[n]))
      else b)
  {
  }

  ghost function FurthestEndOf(slots: seq<Slot>, held: set<nat>, start: nat, end: nat, n: nat): Option<nat>
    requires n <= |slots|
  {
    if n == 0 then None
    else
      var b := FurthestEndOf(slots, held, start, end, n - 1);
      if n - 1 in held && Meets(slots[n - 1], start, end)
      then Some(if b.Some? && b.value > End(slots[n - 1]) then b.value else End(slots[n - 1]))
      else b
  }

  lemma {:induction false} FurthestEndIs(slots: seq<Slot>, held: set<nat>, start: nat, end: nat, n: nat)
    requires n <= |slots|
    ensures FurthestEnd(slots, held, start, end, n, FurthestEndOf(slots, held, start, end, n))
  {
    if n > 0 {
      FurthestEndIs(slots, held, start, end, n - 1);
      FurthestEndGrows(slots, held, start, end, n - 1, FurthestEndOf(slots, held, start, end, n - 1));
    }
  }

  lemma FurthestEndIsOne(slots: seq<Slot>, held: set<nat>, start: nat, end: nat, b: Option<nat>)
    requires FurthestEnd(slots, held, start, end, |slots|, b)
    ensures b == FurthestEndOf(slots, held, start, end, |slots|)
  {
    FurthestEndIs(slots, held, start, end, |slots|);
  }

  /** Where up to `n` attempts from `place` look: each goes on past the furthest pinned end
      its window met, and the first that meets none is the last. */
  ghost function Tried(slots: seq<Slot>, held: set<nat>, bytes: nat, len: nat, place: nat, n: nat): seq<nat>
    decreases n
  {
    if n == 0 then []
    else match FurthestEndOf(slots, held, place, place + len, |slots|)
      case None => [place]
      case Some(past) => [place] + Tried(slots, held, bytes, len, Onward(past, bytes, len), n - 1)
  }

  /** The attempts of one whole reservation. */
  ghost function AllTried(slots: seq<Slot>, held: set<nat>, bytes: nat, len: nat, cursor: nat): seq<nat>
    requires bytes > 0
  {
    Tried(slots, held, bytes, len, FirstPosition(cursor, bytes, len), |slots| + 2)
  }

  lemma {:induction false} RetiringKeepsTried(
      before: seq<Slot>, after: seq<Slot>, held: set<nat>, bytes: nat, len: nat, place: nat, n: nat)
    requires OnlyRetired(before, after)
    ensures Tried(after, held, bytes, len, place, n) == Tried(before, held, bytes, len, place, n)
    decreases n
  {
    if n > 0 {
      var b := FurthestEndOf(before, held, place, place + len, |before|);
      FurthestEndIs(before, held, place, place + len, |before|);
      RetiringKeepsFurthestEnd(before, after, held, place, place + len, b);
      FurthestEndIsOne(after, held, place, place + len, b);
      if b.Some? {
        RetiringKeepsTried(before, after, held, bytes, len, Onward(b.value, bytes, len), n - 1);
      }
    }
  }

  lemma RetiringKeepsFurthestEnd(before: seq<Slot>, after: seq<Slot>,
      held: set<nat>, start: nat, end: nat, b: Option<nat>)
    requires OnlyRetired(before, after) && FurthestEnd(before, held, start, end, |before|, b)
    ensures FurthestEnd(after, held, start, end, |after|, b)
  {
    assert forall i :: 0 <= i < |before| ==> (Meets(before[i], start, end) <==> Meets(after[i], start, end));
    assert forall i :: 0 <= i < |before| ==> End(before[i]) == End(after[i]);
  }

  ghost predicate MetByAny(s: Slot, tried: seq<nat>, len: nat) {
    exists k :: 0 <= k < |tried| && Meets(s, tried[k], tried[k] + len)
  }

  /** Retired: every unpinned slot that one of the windows met, and no other. */
  ghost predicate RetiredExactly(before: seq<Slot>, after: seq<Slot>, held: set<nat>, tried: seq<nat>, len: nat) {
    |after| == |before| && forall i :: 0 <= i < |before| ==>
      after[i] == if i !in held && MetByAny(before[i], tried, len) then Evicted(before[i]) else before[i]
  }

  lemma SweepRetiresOneMore(
      before: seq<Slot>, now: seq<Slot>, after: seq<Slot>, held: set<nat>, tried: seq<nat>, len: nat, place: nat)
    requires RetiredExactly(before, now, held, tried, len) && IsSwept(now, after, held, place, place + len)
    ensures RetiredExactly(before, after, held, tried + [place], len)
  {
    var more := tried + [place];
    forall i | 0 <= i < |before|
      ensures after[i] == if i !in held && MetByAny(before[i], more, len) then Evicted(before[i]) else before[i]
    {
      if MetByAny(before[i], tried, len) {
        var k :| 0 <= k < |tried| && Meets(before[i], tried[k], tried[k] + len);
        assert more[k] == tried[k];
      }
      assert more[|tried|] == place;
      if MetByAny(before[i], more, len) && !MetByAny(before[i], tried, len) {
        var k :| 0 <= k < |more| && Meets(before[i], more[k], more[k] + len);
        assert k == |tried|;
      }
    }
  }

  /** A pinned span that the window at `p` met reaches past `x`. */
  ghost predicate PassedBy(slots: seq<Slot>, held: set<nat>, p: nat, len: nat, x: nat) {
    p <= x && exists w :: 0 <= w < |slots| && w in held && Meets(slots[w], p, p + len) && x < End(slots[w])
  }

  ghost predicate Passed(slots: seq<Slot>, held: set<nat>, tried: seq<nat>, len: nat, x: nat) {
    exists k :: 0 <= k < |tried| && PassedBy(slots, held, tried[k], len, x)
  }

  ghost predicate AllPassed(slots: seq<Slot>, held: set<nat>, bytes: nat, len: nat, tried: seq<nat>) {
    forall x :: 0 <= x < bytes && x + len <= bytes ==> Passed(slots, held, tried, len, x)
  }

  lemma PassedIsBlocked(slots: seq<Slot>, held: set<nat>, tried: seq<nat>, len: nat, x: nat)
    requires Passed(slots, held, tried, len, x)
    ensures Blocked(slots, held, x, len)
  {
    var k :| 0 <= k < |tried| && PassedBy(slots, held, tried[k], len, x);
    var w :| 0 <= w < |slots| && w in held && Meets(slots[w], tried[k], tried[k] + len) && x < End(slots[w]);
    BlockedUpToEnd(slots, held, tried[k], len, w, x);
  }

  lemma AllPassedAreBlocked(slots: seq<Slot>, held: set<nat>, bytes: nat, len: nat, tried: seq<nat>)
    requires AllPassed(slots, held, bytes, len, tried)
    ensures AllBlocked(slots, held, bytes, len)
  {
    forall x | 0 <= x < bytes && x + len <= bytes ensures Blocked(slots, held, x, len) {
      PassedIsBlocked(slots, held, tried, len, x);
    }
  }

  lemma PassedStays(slots: seq<Slot>, held: set<nat>, tried: seq<nat>, p: nat, len: nat, x: nat)
    ensures Passed(slots, held, tried, len, x) ==> Passed(slots, held, tried + [p], len, x)
    ensures PassedBy(slots, held, p, len, x) ==> Passed(slots, held, tried + [p], len, x)
  {
    if Passed(slots, held, tried, len, x) {
      var k :| 0 <= k < |tried| && PassedBy(slots, held, tried[k], len, x);
      assert (tried + [p])[k] == tried[k];
    }
    assert (tried + [p])[|tried|] == p;
  }

  /** How far a reservation has searched: since `first`, perhaps once around the ring.
      Each failed attempt is charged to a different pinned slot (`used`), whose end the
      search moved to, until every window is known to be blocked. */
  datatype Search = Search(first: nat, wrapped: bool, used: set<nat>, tried: seq<nat>)

  ghost predicate Searched(slots: seq<Slot>, held: set<nat>, bytes: nat, len: nat, g: Search,
      position: nat, attempts: nat) {
    || AllPassed(slots, held, bytes, len, g.tried)
    || (&& |g.used| == attempts
        && (forall i :: i in g.used ==> i < |slots|)
        && if g.wrapped
           then
             && position < g.first
             && (forall x :: g.first <= x < bytes && x + len <= bytes ==> Passed(slots, held, g.tried, len, x))
             && (forall x :: 0 <= x < position ==> Passed(slots, held, g.tried, len, x))
             && (forall i :: i in g.used ==> End(slots[i]) <= position || End(slots[i]) > g.first)
           else
             && g.first <= position
             && (forall x :: g.first <= x < position ==> Passed(slots, held, g.tried, len, x))
             && (forall i :: i in g.used ==> g.first < End(slots[i]) <= position))
  }

  /** Every slot retired lies between the cursor and the end of the reservation. */
  ghost predicate RetiredOnTheWay(before: seq<Slot>, after: seq<Slot>, bytes: nat, first: nat,
      wrapped: bool, end: nat) {
    |after| == |before| && forall i :: 0 <= i < |before| && after[i] != before[i] ==>
      if wrapped then Meets(before[i], first, bytes) || Meets(before[i], 0, end) else Meets(before[i], first, end)
  }

  lemma BoundedSet(s: set<nat>, n: nat)
    requires forall i :: i in s ==> i < n
    ensures |s| <= n
    decreases n
  {
    if n > 0 {
      BoundedSet(s - {n - 1}, n - 1);
    }
  }

  lemma SearchAdvances(
      slots: seq<Slot>, held: set<nat>, bytes: nat, len: nat, g: Search, position: nat, attempts: nat, past: nat)
    returns (g': Search)
    requires Searched(slots, held, bytes, len, g, position, attempts)
    requires position < bytes && position + len <= bytes && g.first < bytes && g.first + len <= bytes
    requires FurthestEnd(slots, held, position, position + len, |slots|, Some(past)) && past <= bytes
    ensures g'.first == g.first && g'.tried == g.tried + [position]
    ensures AllBlocked(slots, held, bytes, len)
         || (!g.wrapped && g'.wrapped)
         || (g'.wrapped == g.wrapped && past + len <= bytes && position < past < bytes)
    ensures Searched(slots, held, bytes, len, g', Onward(past, bytes, len), attempts + 1)
  {
    var w :| 0 <= w < |slots| && w in held && Meets(slots[w], position, position + len) && End(slots[w]) == past;
    var wraps := past + len > bytes || past == bytes;
    g' := Search(g.first, g.wrapped || wraps, g.used + {w}, g.tried + [position]);
    forall x: nat
      ensures Passed(slots, held, g.tried, len, x) ==> Passed(slots, held, g'.tried, len, x)
      ensures position <= x < past ==> Passed(slots, held, g'.tried, len, x)
    {
      PassedStays(slots, held, g.tried, position, len, x);
    }
    if AllPassed(slots, held, bytes, len, g'.tried) {
      AllPassedAreBlocked(slots, held, bytes, len, g'.tried);
    }
  }

  ghost predicate HeldKept(before: seq<Slot>, after: seq<Slot>, held: set<nat>) {
    |after| == |before| && forall i :: 0 <= i < |before| && i in held ==> after[i] == before[i]
  }

  /** Whatever the window meets is retired, and no entry pins it. */
  ghost predicate WindowTaken(slots: seq<Slot>, held: set<nat>, start: nat, end: nat) {
    forall i :: 0 <= i < |slots| && Meets(slots[i], start, end) ==> slots[i].state.Retired? && i !in held
  }

  ghost predicate OnTheWay(
      before: seq<Slot>, after: seq<Slot>, held: set<nat>, bytes: nat, len: nat, g: Search, position: nat) {
    || AllBlocked(before, held, bytes, len)
    || ((g.wrapped || g.first <= position)
        && RetiredOnTheWay(before, after, bytes, g.first, g.wrapped, position + len))
  }

  /** The same, told from where the reservation landed. */
  ghost predicate RetiredBetween(before: seq<Slot>, after: seq<Slot>, bytes: nat, first: nat, p: nat, len: nat) {
    RetiredOnTheWay(before, after, bytes, first, p < first, p + len)
  }

  lemma SweepOnTheWay(
      before: seq<Slot>, slots: seq<Slot>, after: seq<Slot>, held: set<nat>,
      bytes: nat, len: nat, g: Search, position: nat)
    requires OnlyRetired(before, slots) && OnTheWay(before, slots, held, bytes, len, g, position)
    requires IsSwept(slots, after, held, position, position + len)
    ensures OnTheWay(before, after, held, bytes, len, g, position)
  {
  }

  lemma OnTheWayFurther(
      before: seq<Slot>, after: seq<Slot>, held: set<nat>,
      bytes: nat, len: nat, g: Search, position: nat, g': Search, next: nat)
    requires OnTheWay(before, after, held, bytes, len, g, position) && position + len <= bytes
    requires g'.first == g.first
    requires AllBlocked(before, held, bytes, len)
          || (!g.wrapped && g'.wrapped)
          || (g'.wrapped == g.wrapped && position <= next)
    ensures OnTheWay(before, after, held, bytes, len, g', next)
  {
  }

  /** The index a reservation leaves behind: some slots retired, no pinned slot touched. */
  ghost predicate Thinned(before: seq<Slot>, after: seq<Slot>, held: set<nat>) {
    OnlyRetired(before, after) && HeldKept(before, after, held)
  }

  lemma SweepThins(before: seq<Slot>, slots: seq<Slot>, after: seq<Slot>,
      held: set<nat>, x: nat, len: nat, b: Option<nat>)
    requires Thinned(before, slots, held) && IsSwept(slots, after, held, x, x + len)
    requires FurthestEnd(slots, held, x, x + len, |slots|, b)
    ensures FurthestEnd(before, held, x, x + len, |before|, b)
    ensures Thinned(before, after, held)
    ensures b.None? ==> WindowTaken(after, held, x, x + len)
  {
  }

  lemma SearchExhausted(slots: seq<Slot>, held: set<nat>, bytes: nat, len: nat, g: Search, position: nat, attempts: nat)
    requires Searched(slots, held, bytes, len, g, position, attempts) && attempts > |slots|
    ensures AllPassed(slots, held, bytes, len, g.tried) && AllBlocked(slots, held, bytes, len)
  {
    if !AllPassed(slots, held, bytes, len, g.tried) {
      BoundedSet(g.used, |slots|);
    }
    AllPassedAreBlocked(slots, held, bytes, len, g.tried);
  }

  /** The state of a reservation between two attempts; the next one is at `place`. */
  ghost predicate Searching(
      before: seq<Slot>, now: seq<Slot>, held: set<nat>, bytes: nat, len: nat, g: Search, place: nat, attempts: nat)
  {
    && Thinned(before, now, held)
    && OnTheWay(before, now, held, bytes, len, g, place)
    && Searched(before, held, bytes, len, g, place, attempts)
    && RetiredExactly(before, now, held, g.tried, len)
    && OnPlan(before, held, bytes, len, g, place, attempts)
  }

  /** What was tried, and what is still to be, are the attempts of the whole reservation. */
  ghost predicate OnPlan(slots: seq<Slot>, held: set<nat>, bytes: nat, len: nat, g: Search, place: nat, attempts: nat) {
    && attempts <= |slots| + 2
    && Tried(slots, held, bytes, len, g.first, |slots| + 2)
         == g.tried + Tried(slots, held, bytes, len, place, |slots| + 2 - attempts)
  }

  lemma PlanMoves(all: seq<nat>, done: seq<nat>, place: nat, rest: seq<nat>)
    requires all == done + ([place] + rest)
    ensures all == (done + [place]) + rest
  {
  }

  lemma NextOnPlan(
      slots: seq<Slot>, held: set<nat>, bytes: nat, len: nat, g: Search, place: nat,
      attempts: nat, b: Option<nat>, g': Search)
    requires OnPlan(slots, held, bytes, len, g, place, attempts) && attempts < |slots| + 2
    requires b == FurthestEndOf(slots, held, place, place + len, |slots|)
    requires g'.first == g.first && g'.tried == g.tried + [place]
    ensures b.None? ==> Tried(slots, held, bytes, len, g.first, |slots| + 2) == g'.tried
    ensures b.Some? ==> OnPlan(slots, held, bytes, len, g', Onward(b.value, bytes, len), attempts + 1)
  {
    var all := Tried(slots, held, bytes, len, g.first, |slots| + 2);
    var rest :=
      if b.None? then [] else Tried(slots, held, bytes, len, Onward(b.value, bytes, len), |slots| + 2 - attempts - 1);
    assert [place] + [] == [place];
    PlanMoves(all, g.tried, place, rest);
  }

  /** What a failed reservation has done. */
  ghost predicate Refused(before: seq<Slot>, after: seq<Slot>, held: set<nat>, bytes: nat, len: nat, first: nat) {
    var tried := Tried(before, held, bytes, len, first, |before| + 2);
    && AllPassed(before, held, bytes, len, tried)
    && RetiredExactly(before, after, held, tried, len)
    && Thinned(before, after, held)
  }

  /** What a successful reservation has done. */
  ghost predicate Reserved(
      before: seq<Slot>, after: seq<Slot>, held: set<nat>, bytes: nat, len: nat, first: nat, p: nat)
  {
    var tried := Tried(before, held, bytes, len, first, |before| + 2);
    && FirstUnblocked(before, held, bytes, len, first, p)
    && tried != [] && p == tried[|tried| - 1]
    && RetiredExactly(before, after, held, tried, len)
    && Thinned(before, after, held)
    && WindowTaken(after, held, p, p + len)
    && RetiredBetween(before, after, bytes, first, p, len)
  }

  ghost predicate PinnedWithin(slots: seq<Slot>, held: set<nat>, bytes: nat) {
    forall i :: 0 <= i < |slots| && i in held && !slots[i].state.Empty? ==> End(slots[i]) <= bytes
  }

  lemma AttemptSucceeds(
      before: seq<Slot>, now: seq<Slot>, after: seq<Slot>, held: set<nat>, bytes: nat, len: nat,
      g: Search, place: nat, attempts: nat)
    requires place < bytes && place + len <= bytes && Searching(before, now, held, bytes, len, g, place, attempts)
    requires attempts < |before| + 2
    requires IsSwept(now, after, held, place, place + len) && FurthestEnd(now, held, place, place + len, |now|, None)
    ensures Reserved(before, after, held, bytes, len, g.first, place)
  {
    SweepThins(before, now, after, held, place, len, None);
    SweepOnTheWay(before, now, after, held, bytes, len, g, place);
    SweepRetiresOneMore(before, now, after, held, g.tried, len, place);
    FurthestEndIsOne(before, held, place, place + len, None);
    NextOnPlan(before, held, bytes, len, g, place, attempts, None, g.(tried := g.tried + [place]));
    FoundIsFirst(before, held, bytes, len, g, place, attempts);
  }

  lemma FoundIsFirst(slots: seq<Slot>, held: set<nat>, bytes: nat, len: nat, g: Search, place: nat, attempts: nat)
    requires place < bytes && place + len <= bytes && Searched(slots, held, bytes, len, g, place, attempts)
    requires FurthestEnd(slots, held, place, place + len, |slots|, None)
    ensures FirstUnblocked(slots, held, bytes, len, g.first, place)
    ensures g.wrapped <==> place < g.first
  {
    assert !Blocked(slots, held, place, len);
    forall x | Passed(slots, held, g.tried, len, x) ensures Blocked(slots, held, x, len) {
      PassedIsBlocked(slots, held, g.tried, len, x);
    }
  }

  lemma AttemptBlocked(
      before: seq<Slot>, now: seq<Slot>, after: seq<Slot>, held: set<nat>, bytes: nat, len: nat,
      g: Search, place: nat, attempts: nat, past: nat)
    returns (g': Search)
    requires place < bytes && place + len <= bytes && Searching(before, now, held, bytes, len, g, place, attempts)
    requires attempts < |before| + 2
    requires g.first < bytes && g.first + len <= bytes
    requires PinnedWithin(before, held, bytes)
    requires IsSwept(now, after, held, place, place + len) &&
        FurthestEnd(now, held, place, place + len, |now|, Some(past))
    ensures g'.first == g.first && place < past <= bytes
    ensures Searching(before, after, held, bytes, len, g', Onward(past, bytes, len), attempts + 1)
  {
    SweepThins(before, now, after, held, place, len, Some(past));
    SweepOnTheWay(before, now, after, held, bytes, len, g, place);
    g' := SearchAdvances(before, held, bytes, len, g, place, attempts, past);
    OnTheWayFurther(before, after, held, bytes, len, g, place, g', Onward(past, bytes, len));
    SweepRetiresOneMore(before, now, after, held, g.tried, len, place);
    FurthestEndIsOne(before, held, place, place + len, Some(past));
    NextOnPlan(before, held, bytes, len, g, place, attempts, Some(past), g');
  }

  /** One attempt after its sweep: it has the window, or the search goes on. */
  lemma AttemptEnds(
      before: seq<Slot>, now: seq<Slot>, after: seq<Slot>, held: set<nat>, bytes: nat, len: nat,
      g: Search, place: nat, attempts: nat, blockedUntil: Option<nat>)
    returns (g': Search)
    requires place < bytes && place + len <= bytes && Searching(before, now, held, bytes, len, g, place, attempts)
    requires g.first < bytes && g.first + len <= bytes && attempts < |before| + 2
    requires PinnedWithin(before, held, bytes)
    requires IsSwept(now, after, held, place, place + len)
    requires FurthestEnd(now, held, place, place + len, |now|, blockedUntil)
    ensures g'.first == g.first
    ensures blockedUntil.None? ==> Reserved(before, after, held, bytes, len, g.first, place)
    ensures blockedUntil.Some? ==>
      && place < blockedUntil.value <= bytes
      && Searching(before, after, held, bytes, len, g', Onward(blockedUntil.value, bytes, len), attempts + 1)
  {
    g' := g;
    if blockedUntil.None? {
      AttemptSucceeds(before, now, after, held, bytes, len, g, place, attempts);
    } else {
      g' := AttemptBlocked(before, now, after, held, bytes, len, g, place, attempts, blockedUntil.value);
    }
  }

  lemma SearchBegins(slots: seq<Slot>, held: set<nat>, bytes: nat, len: nat, first: nat)
    ensures Searching(slots, slots, held, bytes, len, Search(first, false, {}, []), first, 0)
  {
    assert forall i :: 0 <= i < |slots| ==> !MetByAny(slots[i], [], len);
  }

  /** With the attempts used up, every window is blocked and has been passed. */
  lemma SearchFails(
      before: seq<Slot>, now: seq<Slot>, held: set<nat>, bytes: nat, len: nat, g: Search, place: nat)
    requires Searching(before, now, held, bytes, len, g, place, |before| + 2)
    ensures Refused(before, now, held, bytes, len, g.first) && AllBlocked(before, held, bytes, len)
  {
    SearchExhausted(before, held, bytes, len, g, place, |before| + 2);
    assert g.tried + [] == g.tried;
  }

  lemma ReservedIsUnblocked(
      before: seq<Slot>, after: seq<Slot>, held: set<nat>, bytes: nat, len: nat, first: nat, p: nat)
    requires Reserved(before, after, held, bytes, len, first, p)
    ensures !AllBlocked(before, held, bytes, len)
  {
  }

  ghost predicate AllHeld(slots: seq<Slot>, held: set<nat>) {
    forall i :: 0 <= i < |slots| ==> !slots[i].state.Empty? && i in held
  }

  predicate Free(slots: seq<Slot>, held: set<nat>, i: nat)
    requires i < |slots|
  {
    slots[i].state.Empty? || (slots[i].state.Retired? && i !in held)
  }

  ghost predicate FirstFree(slots: seq<Slot>, held: set<nat>, key: Key, i: nat)
    requires i < |slots|
  {
    && Free(slots, held, i)
    && forall d :: 0 <= d < Distance(key, |slots|, i) ==> !Free(slots, held, ProbeAt(key, |slots|, d))
  }

  ghost predicate IsVictim(slots: seq<Slot>, held: set<nat>, key: Key, i: nat)
    requires i < |slots|
  {
    && (forall j :: 0 <= j < |slots| ==> !Free(slots, held, j))
    && i !in held
    && forall j :: 0 <= j < |slots| && j !in held ==> slots[i].generation <= slots[j].generation
  }

  lemma FirstFreeAt(slots: seq<Slot>, held: set<nat>, key: Key, d: nat)
    requires d < |slots| && Free(slots, held, ProbeAt(key, |slots|, d))
    requires forall e :: 0 <= e < d ==> !Free(slots, held, ProbeAt(key, |slots|, e))
    ensures FirstFree(slots, held, key, ProbeAt(key, |slots|, d)) && Reachable(slots, key, ProbeAt(key, |slots|, d))
  {
  }

  lemma NothingFree(slots: seq<Slot>, held: set<nat>, key: Key)
    requires forall e :: 0 <= e < |slots| ==> !Free(slots, held, ProbeAt(key, |slots|, e))
    ensures forall j :: 0 <= j < |slots| ==> !Free(slots, held, j)
    ensures forall j :: 0 <= j < |slots| ==> Reachable(slots, key, j)
  {
    forall j | 0 <= j < |slots| ensures !Free(slots, held, j) && Reachable(slots, key, j) {
      assert ProbeAt(key, |slots|, Distance(key, |slots|, j)) == j;
    }
  }

  /** Nothing a living reader pins leaves a window, or a slot. */
  ghost predicate NoRoom(slots: seq<Slot>, living: set<nat>, bytes: nat, len: nat) {
    AllBlocked(slots, living, bytes, len) || AllHeld(slots, living)
  }

  lemma FewerPinsAllBlocked(before: seq<Slot>, after: seq<Slot>, held: set<nat>, fewer: set<nat>, bytes: nat, len: nat)
    requires OnlyRetired(before, after) && fewer <= held
    ensures AllBlocked(before, fewer, bytes, len) ==> AllBlocked(before, held, bytes, len)
    ensures AllBlocked(before, fewer, bytes, len) <==> AllBlocked(after, fewer, bytes, len)
  {
    forall x: nat
      ensures Blocked(before, fewer, x, len) ==> Blocked(before, held, x, len)
      ensures Blocked(before, fewer, x, len) <==> Blocked(after, fewer, x, len)
    {
      RetiringKeepsBlocked(before, after, fewer, x, len);
      if Blocked(before, fewer, x, len) {
        FewerPinsBlockLess(before, held, fewer, x, len);
      }
    }
  }

  lemma AllHeldAfter(before: seq<Slot>, after: seq<Slot>, held: set<nat>, fewer: set<nat>)
    requires OnlyRetired(before, after) && fewer <= held
    ensures AllHeld(before, fewer) ==> AllHeld(after, held)
    ensures AllHeld(before, fewer) <==> AllHeld(after, fewer)
  {
  }

  lemma TakenWindowIsFree(
      taken: seq<Slot>, after: seq<Slot>, held: set<nat>, fewer: set<nat>, i: nat, start: nat, end: nat)
    requires WindowTaken(taken, held, start, end) && OnlyRetired(taken, after) && fewer <= held
    ensures WindowFree(after, fewer, i, start, end)
  {
  }

  lemma NoRoomAfter(before: seq<Slot>, after: seq<Slot>, living: set<nat>, bytes: nat, len: nat)
    requires OnlyRetired(before, after)
    ensures NoRoom(before, living, bytes, len) <==> NoRoom(after, living, bytes, len)
  {
    FewerPinsAllBlocked(before, after, living, living, bytes, len);
    AllHeldAfter(before, after, living, living);
  }
}
