/** The probing auth state table (`auth/src/table.rs`): a fixed array of record slots, open
    addressing by the first key word, and reuse of expired records only.  A slot read is
    atomic here; `AuthSlot` proves that it is. */
module AuthTable {

  import opened Wrappers
  import opened Arithmetic

  const U64: nat := 0x1_0000_0000_0000_0000
  const SESSION: nat := 1
  const REVOKED: nat := 2
  const CONSUMED: nat := 3

  datatype Error = PolicyUnavailable | StateFull | NotYetValid | InvalidInput | InvalidToken
                 | Revoked | Expired | Replayed

  datatype StoreKey = StoreKey(w0: nat, w1: nat, w2: nat, w3: nat)
  datatype Tag = Tag(t0: nat, t1: nat, t2: nat, t3: nat)

  datatype Record = Record(
    key: StoreKey,
    subject: Tag,
    createdAt: nat,
    expiresAt: nat,
    generation: nat,
    status: nat)

  // -------------------------------------------------------------------- wire form

  function Words(r: Record): (w: seq<nat>) {
    [r.key.w0, r.key.w1, r.key.w2, r.key.w3,
     r.subject.t0, r.subject.t1, r.subject.t2, r.subject.t3,
     r.createdAt, r.expiresAt, r.generation, r.status]
  }

  predicate Sound(r: Record) {
    && (r.status == SESSION || r.status == REVOKED || r.status == CONSUMED)
    && r.createdAt < r.expiresAt
    && (r.status == CONSUMED ==> r.subject == Tag(0, 0, 0, 0) && r.generation == 0)
  }

  function FromWords(w: seq<nat>): Result<Record, Error>
    requires |w| == 12
  {
    var r := Record(StoreKey(w[0], w[1], w[2], w[3]), Tag(w[4], w[5], w[6], w[7]), w[8], w[9], w[10], w[11]);
    if !Sound(r) then Err(PolicyUnavailable) else Ok(r)
  }

  /** Encoding loses nothing, and decoding accepts exactly the encodings of sound records. */
  lemma WordsRoundTrip(r: Record, w: seq<nat>)
    requires |w| == 12
    ensures FromWords(Words(r)) == if Sound(r) then Ok(r) else Err(PolicyUnavailable)
    ensures FromWords(w).Ok? <==> exists s :: Sound(s) && Words(s) == w
    ensures FromWords(w).Ok? ==> Words(FromWords(w).value) == w
  {
  }

  // ------------------------------------------------------------------------ table

  datatype Slot = Vacant | Held(revision: nat, record: Record)

  type Slots = seq<Slot>

  /** `(w0 as usize).wrapping_add(offset) % len`. */
  function Probe(key: StoreKey, offset: nat, size: nat): (i: nat)
    requires size > 0
    ensures i < size
  {
    ((key.w0 + offset) % U64) % size
  }

  predicate Holds(slot: Slot, key: StoreKey) { slot.Held? && slot.record.key == key }

  predicate Reusable(slot: Slot, now: nat) { slot.Vacant? || now >= slot.record.expiresAt }

  function FindFrom(t: Slots, key: StoreKey, offset: nat): Option<nat>
    decreases |t| - offset
  {
    if offset >= |t| then None
    else
      var i := Probe(key, offset, |t|);
      if t[i].Vacant? then None
      else if t[i].record.key == key then Some(i)
      else FindFrom(t, key, offset + 1)
  }

  function Find(t: Slots, key: StoreKey): Option<nat> { FindFrom(t, key, 0) }

  function InsertFrom(t: Slots, key: StoreKey, now: nat, offset: nat): (r: Option<nat>)
    ensures r.Some? ==> r.value < |t|
    decreases |t| - offset
  {
    if offset >= |t| then None
    else
      var i := Probe(key, offset, |t|);
      if Reusable(t[i], now) then Some(i) else InsertFrom(t, key, now, offset + 1)
  }

  function InsertSlot(t: Slots, key: StoreKey, now: nat): (r: Option<nat>)
    ensures r.Some? ==> r.value < |t|
  {
    InsertFrom(t, key, now, 0)
  }

  function RevisionOf(slot: Slot): nat { if slot.Vacant? then 0 else slot.revision }

  /** Publish a record under the next revision; a revision never wraps. */
  function Store(t: Slots, i: nat, record: Record): Result<Slots, Error>
    requires i < |t|
  {
    if !Sound(record) then Err(PolicyUnavailable)
    else if RevisionOf(t[i]) + 1 >= U64 then Err(PolicyUnavailable)
    else Ok(t[i := Held(RevisionOf(t[i]) + 1, record)])
  }

  // ------------------------------------------------------------- what the table keeps

  ghost predicate Reaches(t: Slots, key: StoreKey, i: nat)
    requires |t| > 0
  {
    exists offset :: ReachesAt(t, key, i, offset)
  }

  ghost predicate ReachesAt(t: Slots, key: StoreKey, i: nat, offset: nat)
    requires |t| > 0
  {
    && offset < |t| && Probe(key, offset, |t|) == i
    && forall o :: 0 <= o < offset ==> t[Probe(key, o, |t|)].Held?
  }

  /** One slot per key, and no vacant slot before a held key in its probe chain. */
  ghost predicate Chained(t: Slots) {
    && |t| > 0
    && (forall i, j | 0 <= i < |t| && 0 <= j < |t| && t[i].Held? && t[j].Held? ::
          t[i].record.key == t[j].record.key ==> i == j)
    && forall i :: 0 <= i < |t| && t[i].Held? ==> Reaches(t, t[i].record.key, i)
  }

  ghost predicate Present(t: Slots, key: StoreKey) {
    exists i :: 0 <= i < |t| && Holds(t[i], key)
  }

  lemma {:induction false} FindScans(t: Slots, key: StoreKey, offset: nat, i: nat, at: nat)
    requires |t| > 0 && i < |t| && Holds(t[i], key) && ReachesAt(t, key, i, at) && offset <= at
    requires forall j :: 0 <= j < |t| && Holds(t[j], key) ==> j == i
    ensures FindFrom(t, key, offset) == Some(i)
    decreases at - offset
  {
    if offset < at {
      FindScans(t, key, offset + 1, i, at);
    }
  }

  lemma {:induction false} FindIsHonest(t: Slots, key: StoreKey, offset: nat)
    ensures FindFrom(t, key, offset).Some? ==>
              FindFrom(t, key, offset).value < |t| && Holds(t[FindFrom(t, key, offset).value], key)
    decreases |t| - offset
  {
    if offset < |t| {
      FindIsHonest(t, key, offset + 1);
    }
  }

  /** A locked find is exact: it returns the slot of `key` if and only if one holds it. */
  lemma FindIsExact(t: Slots, key: StoreKey)
    requires Chained(t)
    ensures Find(t, key).Some? <==> Present(t, key)
    ensures forall i :: 0 <= i < |t| && Holds(t[i], key) ==> Find(t, key) == Some(i)
  {
    FindIsHonest(t, key, 0);
    forall i | 0 <= i < |t| && Holds(t[i], key) ensures Find(t, key) == Some(i) {
      assert Reaches(t, t[i].record.key, i);
      var at :| ReachesAt(t, key, i, at);
      FindScans(t, key, 0, i, at);
    }
  }

  lemma {:induction false} InsertScans(t: Slots, key: StoreKey, now: nat, offset: nat)
    requires |t| > 0 && offset <= |t|
    ensures
      match InsertFrom(t, key, now, offset)
      case None => forall o :: offset <= o < |t| ==> !Reusable(t[Probe(key, o, |t|)], now)
      case Some(i) =>
        && Reusable(t[i], now)
        && exists at :: offset <= at < |t| && Probe(key, at, |t|) == i
             && forall o :: offset <= o < at ==> !Reusable(t[Probe(key, o, |t|)], now)
    decreases |t| - offset
  {
    if offset < |t| {
      InsertScans(t, key, now, offset + 1);
      if Reusable(t[Probe(key, offset, |t|)], now) {
        assert offset < |t| && Probe(key, offset, |t|) == InsertFrom(t, key, now, offset).value;
      }
    }
  }

  /** What writers do under the lock, one publication at a time. */
  ghost predicate Updates(t: Slots, i: nat, record: Record) {
    i < |t| && Holds(t[i], record.key)
  }

  ghost predicate Inserts(t: Slots, i: nat, record: Record, now: nat) {
    Find(t, record.key) == None && InsertSlot(t, record.key, now) == Some(i)
  }

  ghost predicate Publishes(t: Slots, t': Slots, i: nat, record: Record, now: nat) {
    && i < |t| && Store(t, i, record) == Ok(t')
    && (Updates(t, i, record) || Inserts(t, i, record, now))
  }

  lemma ReachesStays(t: Slots, t': Slots, key: StoreKey, i: nat)
    requires |t| == |t'| > 0 && Reaches(t, key, i)
    requires forall j :: 0 <= j < |t| && t[j].Held? ==> t'[j].Held?
    ensures Reaches(t', key, i)
  {
    var at :| ReachesAt(t, key, i, at);
    assert ReachesAt(t', key, i, at);
  }

  /** Publication keeps the chain discipline: no slot becomes vacant again, and a slot
      changes key only when its record has expired. */
  lemma PublishKeepsChained(t: Slots, t': Slots, i: nat, record: Record, now: nat)
    requires Chained(t) && Publishes(t, t', i, record, now)
    ensures Chained(t')
    ensures forall j :: 0 <= j < |t| && t[j].Held? ==> t'[j].Held?
    ensures t[i].Held? && t[i].record.key != record.key ==> now >= t[i].record.expiresAt
    ensures Holds(t'[i], record.key) && forall j :: 0 <= j < |t| && j != i ==> t'[j] == t[j]
  {
    FindIsExact(t, record.key);
    forall j | 0 <= j < |t'| && t'[j].Held? ensures Reaches(t', t'[j].record.key, j) {
      if j != i || Holds(t[i], record.key) {
        assert Reaches(t, t[j].record.key, j);
        ReachesStays(t, t', t[j].record.key, j);
      } else {
        InsertScans(t, record.key, now, 0);
        var at :| 0 <= at < |t| && Probe(record.key, at, |t|) == i
                  && forall o :: 0 <= o < at ==> !Reusable(t[Probe(record.key, o, |t|)], now);
        assert ReachesAt(t', record.key, i, at);
      }
    }
    if !Updates(t, i, record) {
      InsertScans(t, record.key, now, 0);
    }
  }

  // --------------------------------------------------- lock-free lookup, over a history

  /** Successive contents of the table, each publication legal at its own time. */
  ghost predicate IsHistory(ts: seq<Slots>) {
    && |ts| > 0 && Chained(ts[0])
    && forall n :: 0 <= n < |ts| - 1 ==> ts[n + 1] == ts[n] || PublishStep(ts[n], ts[n + 1])
  }

  ghost predicate PublishStep(t: Slots, t': Slots) {
    exists i, record, now :: Publishes(t, t', i, record, now)
  }

  lemma {:induction false} HistoryKeeps(ts: seq<Slots>, a: nat, b: nat)
    requires IsHistory(ts) && a <= b < |ts|
    ensures |ts[a]| == |ts[b]| && Chained(ts[a]) && Chained(ts[b])
    ensures forall i :: 0 <= i < |ts[a]| && ts[a][i].Held? ==> ts[b][i].Held?
    decreases b
  {
    if b > 0 {
      if a == b {
        HistoryKeeps(ts, b - 1, b - 1);
      } else {
        HistoryKeeps(ts, a, b - 1);
      }
      if ts[b] != ts[b - 1] {
        var i, record, now :| Publishes(ts[b - 1], ts[b], i, record, now);
        PublishKeepsChained(ts[b - 1], ts[b], i, record, now);
      }
    }
  }

  /** A key that is never absent never moves. */
  lemma {:induction false} PresentStaysPut(ts: seq<Slots>, key: StoreKey, a: nat, b: nat, i: nat)
    requires IsHistory(ts) && a <= b < |ts| && i < |ts[a]| && Holds(ts[a][i], key)
    requires forall n :: a <= n <= b ==> Present(ts[n], key)
    ensures |ts[b]| == |ts[a]| && Holds(ts[b][i], key)
  {
    HistoryKeeps(ts, a, b);
    if a < b {
      PresentStaysPut(ts, key, a, b - 1, i);
      HistoryKeeps(ts, a, b - 1);
      var t, t' := ts[b - 1], ts[b];
      if t' != t {
        var p, record, now :| Publishes(t, t', p, record, now);
        PublishKeepsChained(t, t', p, record, now);
        if p == i {
          assert Present(t', key);
          var j :| 0 <= j < |t'| && Holds(t'[j], key);
        }
      }
    }
  }

  /** What a lookup answers, whether from its scan or from the locked retry. */
  function Answer(t: Slots, key: StoreKey): Option<(nat, Slot)> {
    match Find(t, key)
    case None => None
    case Some(i) => if i < |t| then Some((i, t[i])) else None
  }

  /** The lock-free scan read the slot at probe `o` at instant `instants[o]` and found nothing:
      foreign records up to the end of the chain or a vacant slot. */
  ghost predicate ScanMissed(ts: seq<Slots>, key: StoreKey, instants: seq<nat>)
    requires IsHistory(ts)
    requires forall o :: 0 <= o < |instants| ==> instants[o] < |ts|
    requires forall n :: 0 <= n < |ts| ==> |ts[n]| == |ts[0]|
  {
    var size := |ts[0]|;
    && 0 < |instants| <= size
    && (forall o :: 0 <= o < |instants| - 1 ==> MissedAt(ts, key, instants, o))
    && var last := |instants| - 1;
       || (MissedAt(ts, key, instants, last) && |instants| == size)
       || ts[instants[last]][Probe(key, last, size)].Vacant?
  }

  ghost predicate MissedAt(ts: seq<Slots>, key: StoreKey, instants: seq<nat>, o: nat)
    requires IsHistory(ts) && o < |instants| && instants[o] < |ts| && |ts[instants[o]]| == |ts[0]|
  {
    var slot := ts[instants[o]][Probe(key, o, |ts[0]|)];
    slot.Held? && slot.record.key != key
  }

  ghost predicate Instants(ts: seq<Slots>, instants: seq<nat>) {
    && (forall o :: 0 <= o < |instants| ==> instants[o] < |ts|)
    && forall o, p :: 0 <= o <= p < |instants| ==> instants[o] <= instants[p]
  }

  /** A key present throughout is seen by the scan, or the scan ends at it. */
  lemma PresentThroughoutIsSeen(ts: seq<Slots>, key: StoreKey, instants: seq<nat>, i: nat, at: nat)
    requires IsHistory(ts) && Instants(ts, instants) && instants != []
    requires forall n :: 0 <= n < |ts| ==> |ts[n]| == |ts[0]|
    requires forall n :: instants[0] <= n <= instants[|instants| - 1] ==> Present(ts[n], key)
    requires i < |ts[0]| && Holds(ts[instants[0]][i], key) && |ts[0]| > 0
    requires ReachesAt(ts[instants[0]], key, i, at)
    ensures !ScanMissed(ts, key, instants)
  {
    var a, last, size := instants[0], |instants| - 1, |ts[0]|;
    if at <= last {
      PresentStaysPut(ts, key, a, instants[at], i);
      assert Probe(key, at, size) == i;
      assert !MissedAt(ts, key, instants, at);
      assert Holds(ts[instants[at]][Probe(key, at, size)], key);
    } else {
      HistoryKeeps(ts, a, instants[last]);
      assert ts[a][Probe(key, last, size)].Held?;
      assert ts[instants[last]][Probe(key, last, size)].Held?;
    }
  }

  /** A scan that misses proves an absence: at some instant between its first and last
      slot read, no slot held the key.  A key present throughout is therefore found. */
  lemma MissMeansAbsentAtSomeInstant(ts: seq<Slots>, key: StoreKey, instants: seq<nat>)
    requires IsHistory(ts) && Instants(ts, instants)
    requires forall n :: 0 <= n < |ts| ==> |ts[n]| == |ts[0]|
    requires ScanMissed(ts, key, instants)
    ensures exists n :: instants[0] <= n <= instants[|instants| - 1] && !Present(ts[n], key)
  {
    var a := instants[0];
    HistoryKeeps(ts, a, a);
    if Present(ts[a], key) {
      var i :| 0 <= i < |ts[a]| && Holds(ts[a][i], key);
      assert Reaches(ts[a], ts[a][i].record.key, i);
      var at :| ReachesAt(ts[a], key, i, at);
      assert exists n :: instants[0] <= n <= instants[|instants| - 1] && !Present(ts[n], key) by {
        if forall n :: instants[0] <= n <= instants[|instants| - 1] ==> Present(ts[n], key) {
          PresentThroughoutIsSeen(ts, key, instants, i, at);
        }
      }
    }
  }

  /** Linearizability.  However the scan ends (a match, a miss, or a raced slot followed by
      the locked retry), its answer is the locked table's answer at one instant between
      the first slot read and the end of the call. */
  lemma LookupIsLinearizable(ts: seq<Slots>, key: StoreKey, instants: seq<nat>, end: nat, answer: Option<(nat, Slot)>)
    requires IsHistory(ts) && Instants(ts, instants) && instants != []
    requires forall n :: 0 <= n < |ts| ==> |ts[n]| == |ts[0]|
    requires instants[|instants| - 1] <= end < |ts|
    requires
      || (answer.None? && ScanMissed(ts, key, instants))
      || (answer.Some? && |instants| <= |ts[0]| && answer.value.0 == Probe(key, |instants| - 1, |ts[0]|)
          && answer.value.1 == ts[instants[|instants| - 1]][answer.value.0] && Holds(answer.value.1, key))
      || answer == Answer(ts[end], key)
    ensures exists n :: instants[0] <= n <= end && answer == Answer(ts[n], key)
  {
    var last := instants[|instants| - 1];
    if answer == Answer(ts[end], key) {
    } else if answer.None? {
      MissMeansAbsentAtSomeInstant(ts, key, instants);
      var n :| instants[0] <= n <= last && !Present(ts[n], key);
      HistoryKeeps(ts, 0, n);
      FindIsExact(ts[n], key);
    } else {
      HistoryKeeps(ts, 0, last);
      FindIsExact(ts[last], key);
      assert answer == Answer(ts[last], key);
    }
  }

  // ----------------------------------------------------------------- probe coverage

  ghost predicate ProbesEverySlot(key: StoreKey, size: nat)
    requires size > 0
  {
    forall i :: 0 <= i < size ==> Probed(key, size, i)
  }

  ghost predicate Probed(key: StoreKey, size: nat, i: nat)
    requires size > 0
  {
    exists o :: 0 <= o < size && Probe(key, o, size) == i
  }

  lemma CoversWithoutGap(key: StoreKey, size: nat, i: nat) returns (o: nat)
    requires 0 < size < U64 && i < size && key.w0 < U64
    requires U64 % size == 0 || key.w0 + size <= U64
    ensures o < size && Probe(key, o, size) == i
  {
    var d := i - key.w0;
    o := d % size;
    var k := d / size;
    assert d == k * size + o;
    var x := key.w0 + o;
    assert x == (-k) * size + i;
    ModUnique(x, size, -k, i);
    if x >= U64 {
      var q := U64 / size;
      assert U64 == q * size;
      assert x - U64 == (-k - q) * size + i by { assert (-k - q) * size == (-k) * size - q * size; }
      ModUnique(x - U64, size, -k - q, i);
      ModUnique(x, U64, 1, x - U64);
    } else {
      ModUnique(x, U64, 0, x);
    }
  }

  lemma GapWhenWrapped(key: StoreKey, size: nat, o: nat)
    requires 0 < size < U64 && key.w0 < U64 && o < size
    requires U64 % size != 0 && key.w0 + size > U64
    ensures
      var missed := if U64 % size < size - (U64 - key.w0) then size - (U64 - key.w0) else U64 % size;
      missed < size && Probe(key, o, size) != missed
  {
    var c, r, q := U64 - key.w0, U64 % size, U64 / size;
    assert U64 == q * size + r;
    var x := key.w0 + o;
    if o < c {
      ModUnique(x, U64, 0, x);
      var y := r - (c - o);
      assert x == q * size + y;
      if y >= 0 {
        ModUnique(x, size, q, y);
      } else {
        assert x == (q - 1) * size + (size + y) by { assert (q - 1) * size == q * size - size; }
        ModUnique(x, size, q - 1, size + y);
      }
    } else {
      ModUnique(x, U64, 1, x - U64);
      ModUnique(x - U64, size, 0, x - U64);
    }
  }

  /** The wrapping addition reaches every slot exactly when the capacity divides 2^64 or
      the chain does not wrap; a power-of-two capacity always qualifies. */
  lemma ProbesEverySlotIff(key: StoreKey, size: nat)
    requires 0 < size < U64 && key.w0 < U64
    ensures ProbesEverySlot(key, size) <==> U64 % size == 0 || key.w0 + size <= U64
  {
    if U64 % size == 0 || key.w0 + size <= U64 {
      forall i | 0 <= i < size ensures Probed(key, size, i) {
        var o := CoversWithoutGap(key, size, i);
      }
    } else {
      var missed := if U64 % size < size - (U64 - key.w0) then size - (U64 - key.w0) else U64 % size;
      GapWhenWrapped(key, size, 0);
      forall o | 0 <= o < size ensures Probe(key, o, size) != missed {
        GapWhenWrapped(key, size, o);
      }
      assert !Probed(key, size, missed);
    }
  }

  /** Admission is refused for lack of room exactly when every probed slot holds an
      unexpired record; when the chain covers the table, exactly when every slot does. */
  lemma FullIff(t: Slots, key: StoreKey, now: nat)
    requires 0 < |t| < U64 && key.w0 < U64
    ensures InsertSlot(t, key, now).None? <==>
            forall o :: 0 <= o < |t| ==> !Reusable(t[Probe(key, o, |t|)], now)
    ensures U64 % |t| == 0 || key.w0 + |t| <= U64 ==>
              (InsertSlot(t, key, now).None? <==> forall i :: 0 <= i < |t| ==> !Reusable(t[i], now))
  {
    InsertScans(t, key, now, 0);
    ProbesEverySlotIff(key, |t|);
    if (U64 % |t| == 0 || key.w0 + |t| <= U64) && InsertSlot(t, key, now).None? {
      forall i | 0 <= i < |t| ensures !Reusable(t[i], now) {
        assert Probed(key, |t|, i);
        var o :| 0 <= o < |t| && Probe(key, o, |t|) == i;
      }
    }
  }

  /** A sound table that says it has no room for a new key although a slot is vacant. */
  ghost predicate FullWithVacancy(t: Slots, key: StoreKey, now: nat) {
    && Chained(t) && !Present(t, key) && (forall i :: 0 <= i < |t| && t[i].Held? ==> Sound(t[i].record))
    && InsertSlot(t, key, now).None? && exists i :: 0 <= i < |t| && t[i].Vacant?
  }

  /** Each slot but `missed` holds a session that lives at `now`, under a key that starts there. */
  lemma CrowdedTable(key: StoreKey, size: nat, now: nat, missed: nat) returns (t: Slots)
    requires missed < size < U64 && forall o :: 0 <= o < size ==> Probe(key, o, size) != missed
    ensures |t| == size && FullWithVacancy(t, key, now)
  {
    t := seq(size, i requires 0 <= i < size =>
      if i == missed then Vacant
      else Held(1, Record(StoreKey(i, key.w1 + 1, 0, 0), Tag(0, 0, 0, 0), now, now + 1, 0, SESSION)));
    forall i | 0 <= i < size && t[i].Held? ensures Reaches(t, t[i].record.key, i) {
      ModUnique(i, U64, 0, i);
      ModUnique(i, size, 0, i);
      assert ReachesAt(t, t[i].record.key, i, 0);
    }
    InsertScans(t, key, now, 0);
    assert t[missed].Vacant?;
  }

  /** The exact condition.  Some table of this capacity reports itself full for the key with a
      vacant slot left if and only if the capacity does not divide 2^64 and the chain wraps. */
  lemma FullWithVacancyIff(key: StoreKey, size: nat, now: nat)
    requires 0 < size < U64 && key.w0 < U64
    ensures (exists t :: |t| == size && FullWithVacancy(t, key, now)) <==> U64 % size != 0 && key.w0 + size > U64
  {
    ProbesEverySlotIff(key, size);
    if t :| |t| == size && FullWithVacancy(t, key, now) {
      FullIff(t, key, now);
    }
    if !ProbesEverySlot(key, size) {
      var missed :| 0 <= missed < size && !Probed(key, size, missed);
      var t := CrowdedTable(key, size, now, missed);
    }
  }

  /** So it happens with three slots and a first key word at the top of its range, where the
      chain visits slots 0, 0 and 1 and the third is never offered. */
  lemma WrappedChainSkipsSlot(now: nat)
    ensures
      var key := StoreKey(U64 - 1, 0, 0, 0);
      && Probe(key, 0, 3) == 0 && Probe(key, 1, 3) == 0 && Probe(key, 2, 3) == 1
      && !ProbesEverySlot(key, 3)
      && exists t :: |t| == 3 && FullWithVacancy(t, key, now)
  {
    ProbesEverySlotIff(StoreKey(U64 - 1, 0, 0, 0), 3);
    FullWithVacancyIff(StoreKey(U64 - 1, 0, 0, 0), 3, now);
  }
}
