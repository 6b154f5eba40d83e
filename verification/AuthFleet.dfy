/** Fleet sessions over the shared table (`auth/src/fleet.rs`): creation with a limit,
    revocation, extension, refresh, replay admission and checks through a local view
    cache.  Key and tag derivation are abstract and injective. */
module AuthFleet {
  import opened Wrappers
  import opened AuthTable

  datatype Derivation = Derivation(
    sessionKey: nat -> StoreKey,
    replayKey: nat -> StoreKey,
    subjectTag: string -> Tag)

  ghost predicate Injective(d: Derivation) {
    && (forall a, b :: d.sessionKey(a) == d.sessionKey(b) ==> a == b)
    && (forall a, b :: d.replayKey(a) == d.replayKey(b) ==> a == b)
    && (forall a, b :: d.sessionKey(a) != d.replayKey(b))
    && (forall a, b :: d.subjectTag(a) == d.subjectTag(b) ==> a == b)
  }

  /** One handle: its derived keys and the scope it serves. */
  datatype Auth = Auth(d: Derivation, realm: string, issuer: string)

  datatype Purpose = Access | Refresh
  datatype Binding = Binding(id: nat, generation: nat)

  /** An authenticated credential. */
  datatype Principal = Principal(
    realm: string, issuer: string, subject: string, jti: nat, purpose: Purpose, session: Option<Binding>,
    issuedAt: nat, notBefore: nat, expiresAt: nat)

  type Verdict = Result<(), Error>

  // --------------------------------------------------------------------- pure checks

  function CheckLive(r: Record, now: nat): Verdict {
    if r.status == REVOKED then Err(Error.Revoked)
    else if r.status != SESSION then Err(PolicyUnavailable)
    else if now >= r.expiresAt then Err(Expired)
    else if now < r.createdAt then Err(NotYetValid)
    else Ok(())
  }

  function CheckMetadata(r: Record, p: Principal, now: nat): Verdict {
    match CheckLive(r, now)
    case Err(e) => Err(e)
    case Ok(_) =>
      if p.issuedAt < r.createdAt || p.expiresAt > r.expiresAt then Err(InvalidToken)
      else if p.session.None? then Err(InvalidToken)
      else if p.purpose.Refresh? && p.session.value.generation != r.generation then Err(Replayed)
      else Ok(())
  }

  function CheckRecord(r: Record, subject: Tag, p: Principal, now: nat): Verdict {
    if r.subject != subject then Err(InvalidToken) else CheckMetadata(r, p, now)
  }

  function CheckScope(a: Auth, p: Principal, now: nat): Verdict {
    if p.realm != a.realm || p.issuer != a.issuer then Err(InvalidToken)
    else if now < p.notBefore || now < p.issuedAt then Err(NotYetValid)
    else if now >= p.expiresAt then Err(Expired)
    else Ok(())
  }

  function Lookup(t: Slots, key: StoreKey): Option<Record> {
    match Find(t, key)
    case None => None
    case Some(i) => if i < |t| && t[i].Held? then Some(t[i].record) else None
  }

  /** The session check against the table itself. */
  function FreshVerdict(a: Auth, t: Slots, p: Principal, now: nat): Verdict {
    if p.session.None? then Err(InvalidToken)
    else match Lookup(t, a.d.sessionKey(p.session.value.id))
      case None => Err(Error.Revoked)
      case Some(r) => CheckRecord(r, a.d.subjectTag(p.subject), p, now)
  }

  // ----------------------------------------------------------------- locked operations

  predicate LiveFor(s: Slot, subject: Tag, now: nat) {
    s.Held? && s.record.status == SESSION && s.record.subject == subject && now < s.record.expiresAt
  }

  function SubjectFrom(t: Slots, subject: Tag, now: nat, i: nat): Result<seq<nat>, Error>
    decreases |t| - i
  {
    if i >= |t| then Ok([])
    else if LiveFor(t[i], subject, now) && now < t[i].record.createdAt then Err(NotYetValid)
    else match SubjectFrom(t, subject, now, i + 1)
      case Err(e) => Err(e)
      case Ok(rest) => Ok(if LiveFor(t[i], subject, now) then [i] + rest else rest)
  }

  datatype Write = Write(i: nat, record: Record)

  /** Oldest first, ties by slot. */
  predicate Older(t: Slots, i: nat, j: nat)
    requires i < |t| && j < |t| && t[i].Held? && t[j].Held?
  {
    t[i].record.createdAt < t[j].record.createdAt || (t[i].record.createdAt == t[j].record.createdAt && i < j)
  }

  function InsertByAge(t: Slots, s: seq<nat>, i: nat): (r: seq<nat>)
    requires AllHeld(t, s) && i < |t| && t[i].Held?
    ensures AllHeld(t, r) && multiset(r) == multiset(s) + multiset{i}
  {
    if s == [] || Older(t, i, s[0]) then [i] + s
    else
      assert s == [s[0]] + s[1..];
      [s[0]] + InsertByAge(t, s[1..], i)
  }

  ghost predicate AllHeld(t: Slots, s: seq<nat>) { forall k :: 0 <= k < |s| ==> s[k] < |t| && t[s[k]].Held? }

  function SortByAge(t: Slots, s: seq<nat>): (r: seq<nat>)
    requires AllHeld(t, s)
    ensures AllHeld(t, r) && multiset(r) == multiset(s)
  {
    if s == [] then []
    else
      assert s == [s[0]] + s[1..];
      InsertByAge(t, SortByAge(t, s[1..]), s[0])
  }

  function Revokes(t: Slots, s: seq<nat>): (ws: seq<Write>)
    requires AllHeld(t, s)
    ensures |ws| == |s|
    ensures forall k :: 0 <= k < |s| ==> ws[k] == Write(s[k], t[s[k]].record.(status := REVOKED))
  {
    seq(|s|, k requires 0 <= k < |s| => Write(s[k], t[s[k]].record.(status := REVOKED)))
  }

  lemma {:induction false} SubjectIsExact(t: Slots, subject: Tag, now: nat, i: nat)
    ensures SubjectFrom(t, subject, now, i).Err? <==>
            exists j :: i <= j < |t| && LiveFor(t[j], subject, now) && now < t[j].record.createdAt
    ensures SubjectFrom(t, subject, now, i).Ok? ==>
              var s := SubjectFrom(t, subject, now, i).value;
              && AllHeld(t, s)
              && (forall j :: j in s <==> i <= j < |t| && LiveFor(t[j], subject, now))
              && (forall a, b :: 0 <= a < b < |s| ==> s[a] < s[b])
    decreases |t| - i
  {
    if i < |t| {
      SubjectIsExact(t, subject, now, i + 1);
      if SubjectFrom(t, subject, now, i + 1).Ok? {
        var rest := SubjectFrom(t, subject, now, i + 1).value;
        assert forall b :: 0 <= b < |rest| ==> rest[b] in rest;
      }
    }
  }

  function SubjectSessions(t: Slots, subject: Tag, now: nat): (r: Result<seq<nat>, Error>)
    ensures r.Ok? ==> AllHeld(t, r.value)
  {
    SubjectIsExact(t, subject, now, 0);
    SubjectFrom(t, subject, now, 0)
  }

  datatype Op =
    | Create(id: nat, subject: string, now: nat, expiresAt: nat, limit: Option<nat>)
    | RevokeSession(id: nat, now: nat)
    | RevokeSubject(subject: string, now: nat)
    | ExtendSession(id: nat, subject: string, now: nat, expiresAt: nat)
    | ExtendSubject(subject: string, now: nat, horizon: (nat, nat) -> nat)
    | RefreshSession(principal: Principal, now: nat, expiresAt: nat)
    | Admit(principal: Principal, now: nat)

  type Plan = Result<seq<Write>, Error>

  function Excess(live: nat, limit: nat): nat
    requires limit > 0
  {
    if live < limit - 1 then 0 else live - (limit - 1)
  }

  function CreatePlan(a: Auth, t: Slots, op: Op): Plan
    requires op.Create? && (op.limit.Some? ==> op.limit.value > 0)
  {
    var r := Record(a.d.sessionKey(op.id), a.d.subjectTag(op.subject), op.now, op.expiresAt, 0, SESSION);
    if op.now >= op.expiresAt then Err(InvalidInput)
    else if Find(t, r.key).Some? then Err(InvalidInput)
    else
      var live := if op.limit.Some? then SubjectSessions(t, r.subject, op.now) else Ok([]);
      match live
      case Err(e) => Err(e)
      case Ok(s) =>
        match InsertSlot(t, r.key, op.now)
        case None => Err(StateFull)
        case Some(i) =>
          var revoked := if op.limit.Some? then SortByAge(t, s)[..Excess(|SortByAge(t, s)|, op.limit.value)] else [];
          Ok([Write(i, r)] + Revokes(t, revoked))
  }

  function Targets(t: Slots, s: seq<nat>, horizon: (nat, nat) -> nat): (ts: seq<nat>)
    requires AllHeld(t, s)
    ensures |ts| == |s|
    ensures forall k :: 0 <= k < |s| ==> ts[k] == horizon(t[s[k]].record.createdAt, t[s[k]].record.expiresAt)
  {
    if s == [] then []
    else
      assert forall k :: 0 <= k < |s[1..]| ==> s[1..][k] == s[k + 1];
      [horizon(t[s[0]].record.createdAt, t[s[0]].record.expiresAt)] + Targets(t, s[1..], horizon)
  }

  function Extensions(t: Slots, s: seq<nat>, targets: seq<nat>): (ws: seq<Write>)
    requires AllHeld(t, s) && |targets| == |s|
  {
    if s == [] then []
    else
      var r := t[s[0]].record;
      assert forall k :: 0 <= k < |s[1..]| ==> s[1..][k] == s[k + 1];
      (if targets[0] > r.expiresAt then [Write(s[0], r.(expiresAt := targets[0]))] else [])
        + Extensions(t, s[1..], targets[1..])
  }

  /** The publications an operation makes once it holds the writer lock. */
  function PlanOf(a: Auth, t: Slots, op: Op): Plan
    requires op.Create? && op.limit.Some? ==> op.limit.value > 0
  {
    match op
    case Create(_, _, _, _, _) => CreatePlan(a, t, op)
    case RevokeSession(id, now) =>
      (match Find(t, a.d.sessionKey(id))
       case None => Err(Error.Revoked)
       case Some(i) =>
         if i >= |t| || t[i].Vacant? then Err(Error.Revoked)
         else if t[i].record.status != SESSION && t[i].record.status != REVOKED then Err(PolicyUnavailable)
         else if now < t[i].record.createdAt then Err(NotYetValid)
         else Ok([Write(i, t[i].record.(status := REVOKED))]))
    case RevokeSubject(subject, now) =>
      (match SubjectSessions(t, a.d.subjectTag(subject), now)
       case Err(e) => Err(e)
       case Ok(s) => Ok(Revokes(t, s)))
    case ExtendSession(id, subject, now, expiresAt) =>
      if now >= expiresAt then Err(InvalidInput)
      else
        (match Find(t, a.d.sessionKey(id))
         case None => Err(Error.Revoked)
         case Some(i) =>
           if i >= |t| || t[i].Vacant? then Err(Error.Revoked)
           else if t[i].record.subject != a.d.subjectTag(subject) then Err(InvalidInput)
           else if CheckLive(t[i].record, now).Err? then Err(CheckLive(t[i].record, now).error)
           else if expiresAt < t[i].record.expiresAt then Err(InvalidInput)
           else if expiresAt > t[i].record.expiresAt then Ok([Write(i, t[i].record.(expiresAt := expiresAt))])
           else Ok([]))
    case ExtendSubject(subject, now, horizon) =>
      (match SubjectSessions(t, a.d.subjectTag(subject), now)
       case Err(e) => Err(e)
       case Ok(s) =>
         var targets := Targets(t, s, horizon);
         if exists k :: 0 <= k < |s| && (targets[k] < t[s[k]].record.expiresAt || targets[k] <= now)
         then Err(InvalidInput)
         else Ok(Extensions(t, s, targets)))
    case RefreshSession(p, now, expiresAt) =>
      if !p.purpose.Refresh? then Err(InvalidToken)
      else if CheckScope(a, p, now).Err? then Err(CheckScope(a, p, now).error)
      else if p.session.None? then Err(InvalidToken)
      else
        (match Find(t, a.d.sessionKey(p.session.value.id))
         case None => Err(Error.Revoked)
         case Some(i) =>
           if i >= |t| || t[i].Vacant? then Err(Error.Revoked)
           else
             var r := t[i].record;
             var verdict := CheckRecord(r, a.d.subjectTag(p.subject), p, now);
             if verdict.Err? then Err(verdict.error)
             else if expiresAt < r.expiresAt then Err(InvalidInput)
             else if r.generation + 1 >= U64 then Err(PolicyUnavailable)
             else Ok([Write(i, r.(generation := r.generation + 1, expiresAt := expiresAt))]))
    case Admit(p, now) =>
      if CheckScope(a, p, now).Err? then Err(CheckScope(a, p, now).error)
      else if p.session.Some? && FreshVerdict(a, t, p, now).Err? then Err(FreshVerdict(a, t, p, now).error)
      else if Find(t, a.d.replayKey(p.jti)).Some? then Err(Replayed)
      else
        (match InsertSlot(t, a.d.replayKey(p.jti), now)
         case None => Err(StateFull)
         case Some(i) =>
           Ok([Write(i, Record(a.d.replayKey(p.jti), Tag(0, 0, 0, 0), now, p.expiresAt, 0, CONSUMED))]))
  }

  /** Publish in order; a refused store ends the operation with what came before in place. */
  function Commit(t: Slots, ws: seq<Write>): (r: (Slots, bool))
    ensures |r.0| == |t|
    decreases |ws|
  {
    if ws == [] then (t, true)
    else if ws[0].i >= |t| then (t, false)
    else match Store(t, ws[0].i, ws[0].record)
      case Err(_) => (t, false)
      case Ok(t') => Commit(t', ws[1..])
  }

  // ------------------------------------------------- what one publication may change

  /** How a record may change under its key. */
  ghost predicate Evolves(before: Record, after: Record) {
    && after.key == before.key && after.subject == before.subject && after.createdAt == before.createdAt
    && before.expiresAt <= after.expiresAt && before.generation <= after.generation
    && (before == after || (before.status != CONSUMED && after.status != CONSUMED))
    && (before.status == REVOKED ==> after.status == REVOKED)
  }

  /** What a key's record may have become by `now`: itself or an evolution of itself, or
      gone once it has expired.  A key without a record stays without one. */
  ghost predicate Later(before: Option<Record>, after: Option<Record>, now: nat) {
    match before
    case None => after.None?
    case Some(r) => if after.None? then now >= r.expiresAt else Evolves(r, after.value)
  }

  ghost predicate Ages(t: Slots, t': Slots, now: nat, newKeys: set<StoreKey>) {
    forall key :: key !in newKeys ==> Later(Lookup(t, key), Lookup(t', key), now)
  }

  /** Revisions only grow, and one revision names one content. */
  ghost predicate RevisionsGrow(t: Slots, t': Slots) {
    && |t| == |t'|
    && forall i :: 0 <= i < |t| ==>
         && RevisionOf(t[i]) <= RevisionOf(t'[i])
         && (RevisionOf(t[i]) == RevisionOf(t'[i]) ==> t[i] == t'[i])
  }

  ghost predicate WriteOk(t: Slots, w: Write, now: nat, newKeys: set<StoreKey>) {
    && w.i < |t|
    && ((Holds(t[w.i], w.record.key) && Evolves(t[w.i].record, w.record))
        || (Inserts(t, w.i, w.record, now) && w.record.key in newKeys))
  }

  lemma LookupIsExact(t: Slots, key: StoreKey)
    requires Chained(t)
    ensures Lookup(t, key).None? <==> !Present(t, key)
    ensures forall i :: 0 <= i < |t| && Holds(t[i], key) ==> Lookup(t, key) == Some(t[i].record)
    ensures Find(t, key).None? <==> Lookup(t, key).None?
  {
    FindIsExact(t, key);
    if Present(t, key) {
      var i :| 0 <= i < |t| && Holds(t[i], key);
      assert Find(t, key) == Some(i);
    }
  }

  lemma PublishAges(t: Slots, t': Slots, w: Write, now: nat, newKeys: set<StoreKey>)
    requires Chained(t) && WriteOk(t, w, now, newKeys) && Store(t, w.i, w.record) == Ok(t')
    ensures Chained(t') && Ages(t, t', now, newKeys) && RevisionsGrow(t, t')
  {
    assert Publishes(t, t', w.i, w.record, now);
    PublishKeepsChained(t, t', w.i, w.record, now);
    forall key | key !in newKeys ensures Later(Lookup(t, key), Lookup(t', key), now) {
      LookupIsExact(t, key);
      LookupIsExact(t', key);
      if Present(t, key) {
        var i :| 0 <= i < |t| && Holds(t[i], key);
        assert i != w.i || key == w.record.key ==> Holds(t'[i], key);
      }
    }
  }

  lemma LaterTrans(a: Option<Record>, b: Option<Record>, c: Option<Record>, now: nat, later: nat)
    requires Later(a, b, now) && Later(b, c, later) && now <= later
    ensures Later(a, c, later)
  {
  }

  lemma AgesRefl(t: Slots, now: nat, newKeys: set<StoreKey>)
    ensures Ages(t, t, now, newKeys)
  {
  }

  // ------------------------------------------------------- what operations may write

  ghost predicate Distinct(s: seq<nat>) { forall a, b :: 0 <= a < b < |s| ==> s[a] != s[b] }

  /** Writes that each evolve a record nobody else in the batch touches. */
  ghost predicate IndependentUpdates(t: Slots, ws: seq<Write>) {
    && (forall k :: 0 <= k < |ws| ==>
          ws[k].i < |t| && Holds(t[ws[k].i], ws[k].record.key) && Evolves(t[ws[k].i].record, ws[k].record))
    && forall a, b :: 0 <= a < b < |ws| ==> ws[a].i != ws[b].i
  }

  /** Once the first of them is published, the others are still independent. */
  lemma IndependentTail(t: Slots, ws: seq<Write>)
    requires IndependentUpdates(t, ws) && ws != [] && Store(t, ws[0].i, ws[0].record).Ok?
    ensures IndependentUpdates(Store(t, ws[0].i, ws[0].record).value, ws[1..])
  {
    var u := Store(t, ws[0].i, ws[0].record).value;
    forall k | 0 <= k < |ws[1..]|
      ensures ws[1..][k].i < |u| && Holds(u[ws[1..][k].i], ws[1..][k].record.key)
              && Evolves(u[ws[1..][k].i].record, ws[1..][k].record)
    {
      assert ws[1..][k] == ws[k + 1] && ws[0].i != ws[k + 1].i;
    }
  }

  lemma DistinctFromMultiset(s: seq<nat>, r: seq<nat>)
    requires multiset(s) == multiset(r) && Distinct(s)
    ensures Distinct(r)
  {
    forall a, b | 0 <= a < b < |r| ensures r[a] != r[b] {
      if r[a] == r[b] {
        assert r == r[..b] + [r[b]] + r[b + 1..];
        assert multiset(r[..b])[r[b]] >= 1 by { assert r[..b][a] == r[b]; }
        assert multiset(r)[r[b]] >= 2;
        AtMostOnce(s, r[b]);
      }
    }
  }

  lemma {:induction false} AtMostOnce(s: seq<nat>, x: nat)
    requires Distinct(s)
    ensures multiset(s)[x] <= 1
  {
    if s != [] {
      assert s == [s[0]] + s[1..];
      AtMostOnce(s[1..], x);
      if s[0] == x {
        assert x !in s[1..];
      }
    }
  }

  lemma RevokesAreIndependent(t: Slots, s: seq<nat>)
    requires AllHeld(t, s) && Distinct(s)
    requires forall k :: 0 <= k < |s| ==> t[s[k]].record.status != CONSUMED
    ensures IndependentUpdates(t, Revokes(t, s))
  {
  }

  lemma ConsIndependent(t: Slots, w: Write, ws: seq<Write>)
    requires IndependentUpdates(t, ws)
    requires w.i < |t| && Holds(t[w.i], w.record.key) && Evolves(t[w.i].record, w.record)
    requires forall k :: 0 <= k < |ws| ==> ws[k].i != w.i
    ensures IndependentUpdates(t, [w] + ws)
  {
  }

  lemma {:induction false} ExtensionsAreIndependent(t: Slots, s: seq<nat>, targets: seq<nat>)
    requires AllHeld(t, s) && |targets| == |s| && Distinct(s)
    requires forall k :: 0 <= k < |s| ==> t[s[k]].record.status == SESSION
    ensures IndependentUpdates(t, Extensions(t, s, targets))
    ensures forall k :: 0 <= k < |Extensions(t, s, targets)| ==> Extensions(t, s, targets)[k].i in s
  {
    if s != [] {
      assert forall k :: 0 <= k < |s[1..]| ==> s[1..][k] == s[k + 1];
      ExtensionsAreIndependent(t, s[1..], targets[1..]);
      var rest := Extensions(t, s[1..], targets[1..]);
      assert s[0] !in s[1..];
      assert forall i :: i in s[1..] ==> i in s;
      if targets[0] > t[s[0]].record.expiresAt {
        ConsIndependent(t, Write(s[0], t[s[0]].record.(expiresAt := targets[0])), rest);
      } else {
        assert [] + rest == rest;
      }
    }
  }

  ghost function FreshKeys(a: Auth, op: Op): set<StoreKey> {
    match op
    case Create(id, _, _, _, _) => {a.d.sessionKey(id)}
    case Admit(p, _) => {a.d.replayKey(p.jti)}
    case _ => {}
  }

  lemma SubjectPlanFacts(t: Slots, subject: Tag, now: nat)
    requires SubjectSessions(t, subject, now).Ok?
    ensures
      var s := SubjectSessions(t, subject, now).value;
      && Distinct(s)
      && forall k :: 0 <= k < |s| ==> LiveFor(t[s[k]], subject, now)
  {
    SubjectIsExact(t, subject, now, 0);
    var s := SubjectSessions(t, subject, now).value;
    assert forall k :: 0 <= k < |s| ==> s[k] in s;
  }

  /** The sessions a limited creation revokes: the oldest excess ones. */
  function Evicted(a: Auth, t: Slots, op: Op): (s: seq<nat>)
    requires op.Create? && op.limit.Some? && op.limit.value > 0
    requires SubjectSessions(t, a.d.subjectTag(op.subject), op.now).Ok?
    ensures AllHeld(t, s)
  {
    var live := SortByAge(t, SubjectSessions(t, a.d.subjectTag(op.subject), op.now).value);
    live[..Excess(|live|, op.limit.value)]
  }

  lemma EvictedFacts(a: Auth, t: Slots, op: Op)
    requires op.Create? && op.limit.Some? && op.limit.value > 0
    requires SubjectSessions(t, a.d.subjectTag(op.subject), op.now).Ok?
    ensures
      var s := Evicted(a, t, op);
      && Distinct(s)
      && forall k :: 0 <= k < |s| ==> LiveFor(t[s[k]], a.d.subjectTag(op.subject), op.now)
  {
    var subject := a.d.subjectTag(op.subject);
    SubjectPlanFacts(t, subject, op.now);
    var live := SubjectSessions(t, subject, op.now).value;
    var sorted := SortByAge(t, live);
    DistinctFromMultiset(live, sorted);
    forall k | 0 <= k < |sorted| ensures LiveFor(t[sorted[k]], subject, op.now) {
      assert sorted[k] in multiset(sorted);
      assert sorted[k] in live;
    }
  }

  /** The new session goes into a reusable slot, so the sessions to revoke stay put. */
  lemma CreateShape(a: Auth, t: Slots, op: Op)
    requires Chained(t) && op.Create? && (op.limit.Some? ==> op.limit.value > 0)
    requires CreatePlan(a, t, op).Ok?
    ensures
      var ws := CreatePlan(a, t, op).value;
      && ws != [] && WriteOk(t, ws[0], op.now, FreshKeys(a, op))
      && (Store(t, ws[0].i, ws[0].record).Ok? ==>
            IndependentUpdates(Store(t, ws[0].i, ws[0].record).value, ws[1..]))
  {
    var ws := CreatePlan(a, t, op).value;
    var i, r := ws[0].i, ws[0].record;
    InsertScans(t, r.key, op.now, 0);
    if Store(t, i, r).Ok? && op.limit.Some? {
      var u := Store(t, i, r).value;
      EvictedFacts(a, t, op);
      var s := Evicted(a, t, op);
      RevokesAreIndependent(t, s);
      var rest := Revokes(t, s);
      assert ws[1..] == rest;
      forall k | 0 <= k < |rest|
        ensures rest[k].i < |u| && Holds(u[rest[k].i], rest[k].record.key)
                && Evolves(u[rest[k].i].record, rest[k].record)
      {
        assert rest[k].i == s[k] && LiveFor(t[s[k]], a.d.subjectTag(op.subject), op.now);
        assert s[k] != i;
      }
    }
  }

  /** Every operation begins with an update of a held key or an insertion of its own fresh key
      into a reusable slot, and goes on with updates of records of their own. */
  lemma PlanShape(a: Auth, t: Slots, op: Op)
    requires Chained(t) && (op.Create? && op.limit.Some? ==> op.limit.value > 0)
    requires PlanOf(a, t, op).Ok? && PlanOf(a, t, op).value != []
    ensures
      var ws := PlanOf(a, t, op).value;
      && WriteOk(t, ws[0], op.now, FreshKeys(a, op))
      && (Store(t, ws[0].i, ws[0].record).Ok? ==>
            IndependentUpdates(Store(t, ws[0].i, ws[0].record).value, ws[1..]))
  {
    var ws := PlanOf(a, t, op).value;
    match op
    case Create(_, _, _, _, _) => CreateShape(a, t, op);
    case RevokeSession(id, _) => FindIsHonest(t, a.d.sessionKey(id), 0);
    case RevokeSubject(subject, now) =>
      SubjectPlanFacts(t, a.d.subjectTag(subject), now);
      RevokesAreIndependent(t, SubjectSessions(t, a.d.subjectTag(subject), now).value);
      if Store(t, ws[0].i, ws[0].record).Ok? { IndependentTail(t, ws); }
    case ExtendSession(id, _, _, _) => FindIsHonest(t, a.d.sessionKey(id), 0);
    case ExtendSubject(subject, now, horizon) =>
      SubjectPlanFacts(t, a.d.subjectTag(subject), now);
      var s := SubjectSessions(t, a.d.subjectTag(subject), now).value;
      ExtensionsAreIndependent(t, s, Targets(t, s, horizon));
      if Store(t, ws[0].i, ws[0].record).Ok? { IndependentTail(t, ws); }
    case RefreshSession(p, _, _) => FindIsHonest(t, a.d.sessionKey(p.session.value.id), 0);
    case Admit(_, _) =>
  }

  // -------------------------------------------------------------------- whole runs

  /** A cached session view: the slot content it verified and whose session it is. */
  datatype View = View(index: nat, revision: nat, record: Record, subject: string)

  /** A view some check of a worker has read and not yet put into the worker's cache. */
  datatype Loose = Loose(worker: nat, id: nat, view: View)

  /** `pending` is what the operation holding the writer lock has still to publish; None once
      it was refused. */
  datatype World = World(
    slots: Slots,
    clock: nat,
    drawn: set<nat>,
    views: map<nat, map<nat, View>>,
    loose: set<Loose>,
    pending: Option<seq<Write>>)

  /** An operation takes the writer lock, decides and publishes its first write; it publishes
      one more; a check consults its worker's cache, reads the table, or caches what it read;
      a cached view is lost.  `AuthTable.LookupIsLinearizable` is why a read of the table is
      one instant.  A writer that dies publishes no more, and the next operation
      takes the lock over. */
  datatype Event =
    | Locked(op: Op)
    | More
    | Consult(worker: nat, principal: Principal)
    | Look(worker: nat, principal: Principal, now: nat)
    | Keep(loose: Loose)
    | DropView(worker: nat, id: nat)

  function ViewsOf(w: World, worker: nat): map<nat, View> {
    if worker in w.views then w.views[worker] else map[]
  }

  predicate Unchanged(t: Slots, v: View) { v.index < |t| && RevisionOf(t[v.index]) == v.revision }

  predicate HasView(w: World, worker: nat, id: nat) {
    id in ViewsOf(w, worker) && Unchanged(w.slots, ViewsOf(w, worker)[id])
  }

  /** `check_session`, from the cache: the answer of a view whose slot is unchanged. */
  function CachedVerdict(w: World, worker: nat, p: Principal, now: nat): Option<Verdict> {
    if p.session.None? then Some(Err(InvalidToken))
    else if !HasView(w, worker, p.session.value.id) then None
    else
      var view := ViewsOf(w, worker)[p.session.value.id];
      Some(if view.subject != p.subject then Err(InvalidToken) else CheckMetadata(view.record, p, now))
  }

  /** A whole check: it consults the cache in one world and, unanswered, reads the table in
      another. */
  function CheckAnswer(a: Auth, consulted: World, looked: World, worker: nat, p: Principal, now: nat): Verdict {
    match CachedVerdict(consulted, worker, p, now)
    case Some(verdict) => verdict
    case None => FreshVerdict(a, looked.slots, p, now)
  }

  /** What a successful table read found, to be cached. */
  function Seen(a: Auth, t: Slots, p: Principal): Option<View>
    requires p.session.Some?
  {
    match Find(t, a.d.sessionKey(p.session.value.id))
    case None => None
    case Some(i) => if i < |t| && t[i].Held? then Some(View(i, t[i].revision, t[i].record, p.subject)) else None
  }

  /** One publication, and what is left; None if the table refuses it. */
  function PublishNext(t: Slots, ws: seq<Write>): (r: (Slots, Option<seq<Write>>))
    ensures |r.0| == |t|
  {
    if ws == [] then (t, Some([]))
    else if ws[0].i >= |t| then (t, None)
    else match Store(t, ws[0].i, ws[0].record)
      case Err(_) => (t, None)
      case Ok(t') => (t', Some(ws[1..]))
  }

  function Begin(a: Auth, t: Slots, op: Op): (Slots, Option<seq<Write>>)
    requires op.Create? && op.limit.Some? ==> op.limit.value > 0
  {
    match PlanOf(a, t, op)
    case Err(_) => (t, None)
    case Ok(ws) => PublishNext(t, ws)
  }

  predicate WellPosed(e: Event) { e.Locked? && e.op.Create? && e.op.limit.Some? ==> e.op.limit.value > 0 }

  function Step(a: Auth, w: World, e: Event): World
    requires WellPosed(e)
  {
    match e
    case Locked(op) =>
      var (slots, rest) := Begin(a, w.slots, op);
      World(slots, op.now, if op.Create? then w.drawn + {op.id} else w.drawn, w.views, w.loose, rest)
    case More =>
      if w.pending.None? then w
      else var (slots, rest) := PublishNext(w.slots, w.pending.value); w.(slots := slots, pending := rest)
    case Consult(worker, p) =>
      if p.session.None? || HasView(w, worker, p.session.value.id) then w
      else w.(views := w.views[worker := ViewsOf(w, worker) - {p.session.value.id}])
    case Look(worker, p, now) =>
      if p.session.None? || FreshVerdict(a, w.slots, p, now).Err? || Seen(a, w.slots, p).None? then w
      else w.(loose := w.loose + {Loose(worker, p.session.value.id, Seen(a, w.slots, p).value)})
    case Keep(l) => w.(views := w.views[l.worker := ViewsOf(w, l.worker)[l.id := l.view]])
    case DropView(worker, id) => w.(views := w.views[worker := ViewsOf(w, worker) - {id}])
  }

  /** Time does not run backwards from one operation to the next, session identities are
      drawn without repetition, and a check caches only what one has read. */
  ghost predicate Allowed(w: World, e: Event) {
    && WellPosed(e)
    && (e.Locked? ==> w.clock <= e.op.now && (e.op.Create? ==> e.op.id !in w.drawn))
    && (e.Keep? ==> e.loose in w.loose)
  }

  ghost predicate ViewOk(a: Auth, t: Slots, id: nat, v: View) {
    && v.index < |t| && 0 < v.revision <= RevisionOf(t[v.index])
    && (RevisionOf(t[v.index]) == v.revision ==> t[v.index] == Held(v.revision, v.record))
    && v.record.key == a.d.sessionKey(id)
    && v.record.subject == a.d.subjectTag(v.subject)
  }

  ghost predicate Invariant(a: Auth, w: World) {
    && Chained(w.slots)
    && Counted(w.slots)
    && (w.pending.Some? ==> IndependentUpdates(w.slots, w.pending.value))
    && (forall id :: id !in w.drawn ==> Lookup(w.slots, a.d.sessionKey(id)).None?)
    && (forall worker, id :: worker in w.views && id in w.views[worker] ==> ViewOk(a, w.slots, id, w.views[worker][id]))
    && forall l :: l in w.loose ==> ViewOk(a, w.slots, l.id, l.view)
  }

  /** A held slot has been published at least once. */
  ghost predicate Counted(t: Slots) {
    forall i :: 0 <= i < |t| && t[i].Held? ==> 0 < t[i].revision
  }

  /** What one publication of a plan, or of the rest of one, does to the table. */
  ghost predicate Published(t: Slots, r: (Slots, Option<seq<Write>>), now: nat, newKeys: set<StoreKey>) {
    && Chained(r.0) && Ages(t, r.0, now, newKeys) && RevisionsGrow(t, r.0)
    && (Counted(t) ==> Counted(r.0))
    && (r.1.Some? ==> IndependentUpdates(r.0, r.1.value))
  }

  lemma NextIsPublished(t: Slots, ws: seq<Write>, now: nat, newKeys: set<StoreKey>)
    requires Chained(t)
    requires ws != [] ==> WriteOk(t, ws[0], now, newKeys)
    requires ws != [] && Store(t, ws[0].i, ws[0].record).Ok? ==>
               IndependentUpdates(Store(t, ws[0].i, ws[0].record).value, ws[1..])
    ensures Published(t, PublishNext(t, ws), now, newKeys)
  {
    AgesRefl(t, now, newKeys);
    if ws != [] && Store(t, ws[0].i, ws[0].record).Ok? {
      PublishAges(t, Store(t, ws[0].i, ws[0].record).value, ws[0], now, newKeys);
    }
  }

  lemma BeginIsPublished(a: Auth, w: World, op: Op)
    requires Invariant(a, w) && Allowed(w, Locked(op))
    ensures Published(w.slots, Begin(a, w.slots, op), op.now, FreshKeys(a, op))
  {
    if PlanOf(a, w.slots, op).Ok? {
      if PlanOf(a, w.slots, op).value != [] {
        PlanShape(a, w.slots, op);
      }
      NextIsPublished(w.slots, PlanOf(a, w.slots, op).value, op.now, FreshKeys(a, op));
    } else {
      AgesRefl(w.slots, op.now, FreshKeys(a, op));
    }
  }

  lemma MoreIsPublished(a: Auth, w: World)
    requires Invariant(a, w) && w.pending.Some?
    ensures Published(w.slots, PublishNext(w.slots, w.pending.value), w.clock, {})
  {
    var ws := w.pending.value;
    if ws != [] && Store(w.slots, ws[0].i, ws[0].record).Ok? {
      IndependentTail(w.slots, ws);
    }
    NextIsPublished(w.slots, ws, w.clock, {});
  }

  lemma ViewStays(a: Auth, t: Slots, t': Slots, id: nat, v: View)
    requires ViewOk(a, t, id, v) && RevisionsGrow(t, t')
    ensures ViewOk(a, t', id, v)
  {
  }

  lemma PublicationKeepsInvariant(a: Auth, w: World, w': World, now: nat, newKeys: set<StoreKey>)
    requires Invariant(a, w) && Published(w.slots, (w'.slots, w'.pending), now, newKeys)
    requires w.drawn <= w'.drawn && w'.views == w.views && w'.loose == w.loose
    requires forall id :: id !in w'.drawn ==> a.d.sessionKey(id) !in newKeys
    ensures Invariant(a, w')
  {
    forall worker, id | worker in w.views && id in w.views[worker]
      ensures ViewOk(a, w'.slots, id, w.views[worker][id])
    {
      ViewStays(a, w.slots, w'.slots, id, w.views[worker][id]);
    }
    forall l | l in w.loose ensures ViewOk(a, w'.slots, l.id, l.view) {
      ViewStays(a, w.slots, w'.slots, l.id, l.view);
    }
    forall id | id !in w'.drawn ensures Lookup(w'.slots, a.d.sessionKey(id)).None? {
      assert Later(Lookup(w.slots, a.d.sessionKey(id)), Lookup(w'.slots, a.d.sessionKey(id)), now);
    }
  }

  lemma LookKeepsInvariant(a: Auth, w: World, worker: nat, p: Principal, now: nat)
    requires Invariant(a, w)
    ensures Invariant(a, Step(a, w, Look(worker, p, now)))
  {
    if p.session.Some? && FreshVerdict(a, w.slots, p, now).Ok? {
      FindIsHonest(w.slots, a.d.sessionKey(p.session.value.id), 0);
    }
  }

  lemma StepKeepsInvariant(a: Auth, w: World, e: Event)
    requires Injective(a.d) && Invariant(a, w) && Allowed(w, e)
    ensures Invariant(a, Step(a, w, e))
  {
    match e
    case Locked(op) =>
      BeginIsPublished(a, w, op);
      PublicationKeepsInvariant(a, w, Step(a, w, e), op.now, FreshKeys(a, op));
    case More =>
      if w.pending.Some? {
        MoreIsPublished(a, w);
        PublicationKeepsInvariant(a, w, Step(a, w, e), w.clock, {});
      }
    case Consult(_, _) =>
    case Look(worker, p, now) => LookKeepsInvariant(a, w, worker, p, now);
    case Keep(_) =>
    case DropView(_, _) =>
  }

  ghost predicate IsRun(a: Auth, ws: seq<World>, es: seq<Event>) {
    && Injective(a.d)
    && |ws| == |es| + 1
    && 0 < |ws[0].slots| && (forall i :: 0 <= i < |ws[0].slots| ==> ws[0].slots[i].Vacant?)
    && ws[0].drawn == {} && ws[0].views == map[] && ws[0].loose == {} && ws[0].pending == None
    && forall n :: 0 <= n < |es| ==> Allowed(ws[n], es[n]) && ws[n + 1] == Step(a, ws[n], es[n])
  }

  lemma EmptyTableIsChained(t: Slots)
    requires 0 < |t| && forall i :: 0 <= i < |t| ==> t[i].Vacant?
    ensures Chained(t) && forall key :: Lookup(t, key).None?
  {
  }

  lemma {:induction false} RunKeepsInvariant(a: Auth, ws: seq<World>, es: seq<Event>, n: nat)
    requires IsRun(a, ws, es) && n < |ws|
    ensures Invariant(a, ws[n])
  {
    if n == 0 {
      EmptyTableIsChained(ws[0].slots);
    } else {
      RunKeepsInvariant(a, ws, es, n - 1);
      StepKeepsInvariant(a, ws[n - 1], es[n - 1]);
    }
  }

  // ------------------------------------------------------ operations write by write

  /** All publications of an operation at once, as in `AuthFleetObject`. */
  function Publish(a: Auth, t: Slots, op: Op): Slots
    requires op.Create? && op.limit.Some? ==> op.limit.value > 0
  {
    match PlanOf(a, t, op)
    case Err(_) => t
    case Ok(ws) => Commit(t, ws).0
  }

  /** The operation returned success to its caller. */
  predicate Succeeds(a: Auth, t: Slots, op: Op)
    requires op.Create? && op.limit.Some? ==> op.limit.value > 0
  {
    PlanOf(a, t, op).Ok? && Commit(t, PlanOf(a, t, op).value).1
  }

  /** The operation that took the lock at event `i` has published its last write by world
      `k`, and returns success. */
  ghost predicate Completed(ws: seq<World>, es: seq<Event>, i: nat, k: nat) {
    && i < k < |ws| && k <= |es| && es[i].Locked?
    && (forall n :: i < n < k ==> !es[n].Locked?)
    && ws[k].pending == Some([])
  }

  lemma {:induction false} UnderWay(a: Auth, ws: seq<World>, es: seq<Event>, i: nat, n: nat)
    requires IsRun(a, ws, es) && i < n <= |es| && es[i].Locked?
    requires forall x :: i < x < n ==> !es[x].Locked?
    requires ws[n].pending.Some?
    ensures PlanOf(a, ws[i].slots, es[i].op).Ok?
    ensures Commit(ws[n].slots, ws[n].pending.value) == Commit(ws[i].slots, PlanOf(a, ws[i].slots, es[i].op).value)
  {
    if n > i + 1 {
      assert !es[n - 1].Locked? && ws[n] == Step(a, ws[n - 1], es[n - 1]);
      UnderWay(a, ws, es, i, n - 1);
    }
  }

  /** However its writes were spread over the run, a completed operation did exactly what it
      does at once. */
  lemma CompletedPublishes(a: Auth, ws: seq<World>, es: seq<Event>, i: nat, k: nat)
    requires IsRun(a, ws, es) && Completed(ws, es, i, k)
    ensures Succeeds(a, ws[i].slots, es[i].op) && ws[k].slots == Publish(a, ws[i].slots, es[i].op)
  {
    UnderWay(a, ws, es, i, k);
  }

  // ------------------------------------------------------------- the local view cache

  lemma CachedIsFresh(a: Auth, w: World, worker: nat, p: Principal, now: nat)
    requires Injective(a.d) && Invariant(a, w) && CachedVerdict(w, worker, p, now).Some?
    ensures CachedVerdict(w, worker, p, now).value == FreshVerdict(a, w.slots, p, now)
  {
    if p.session.Some? {
      var id := p.session.value.id;
      var key := a.d.sessionKey(id);
      LookupIsExact(w.slots, key);
      var v := ViewsOf(w, worker)[id];
      assert ViewOk(a, w.slots, id, v);
      assert Holds(w.slots[v.index], key);
    }
  }

  /** Transparency.  Whatever was published before, between and after its two steps, even
      halfway through an operation, a check through the local view cache answers as a fresh
      table lookup does at one instant of the check. */
  lemma ViewCacheIsTransparent(
      a: Auth, ws: seq<World>, es: seq<Event>, n: nat, m: nat, worker: nat, p: Principal, now: nat)
    requires IsRun(a, ws, es) && n <= m < |ws|
    ensures exists x | n <= x <= m ::
              CheckAnswer(a, ws[n], ws[m], worker, p, now) == FreshVerdict(a, ws[x].slots, p, now)
  {
    RunKeepsInvariant(a, ws, es, n);
    if CachedVerdict(ws[n], worker, p, now).Some? {
      CachedIsFresh(a, ws[n], worker, p, now);
      assert CheckAnswer(a, ws[n], ws[m], worker, p, now) == FreshVerdict(a, ws[n].slots, p, now);
    } else {
      assert CheckAnswer(a, ws[n], ws[m], worker, p, now) == FreshVerdict(a, ws[m].slots, p, now);
    }
  }

  // ------------------------------------------------------------- sessions over time

  lemma SessionAgesStep(a: Auth, w: World, e: Event, id: nat)
    requires Injective(a.d) && Invariant(a, w) && Allowed(w, e) && id in w.drawn
    ensures
      var w' := Step(a, w, e);
      var key := a.d.sessionKey(id);
      && id in w'.drawn && w.clock <= w'.clock
      && Later(Lookup(w.slots, key), Lookup(w'.slots, key), w'.clock)
  {
    match e
    case Locked(op) =>
      BeginIsPublished(a, w, op);
      assert a.d.sessionKey(id) !in FreshKeys(a, op);
    case More =>
      if w.pending.Some? {
        MoreIsPublished(a, w);
      }
    case _ =>
  }

  /** A drawn session's record only evolves or, once expired, disappears for good. */
  lemma {:induction false} SessionsOnlyAge(a: Auth, ws: seq<World>, es: seq<Event>, i: nat, j: nat, id: nat)
    requires IsRun(a, ws, es) && i <= j < |ws| && id in ws[i].drawn
    ensures id in ws[j].drawn && ws[i].clock <= ws[j].clock
    ensures
      var key := a.d.sessionKey(id);
      Later(Lookup(ws[i].slots, key), Lookup(ws[j].slots, key), ws[j].clock)
  {
    if i < j {
      SessionsOnlyAge(a, ws, es, i, j - 1, id);
      RunKeepsInvariant(a, ws, es, j - 1);
      SessionAgesStep(a, ws[j - 1], es[j - 1], id);
      var key := a.d.sessionKey(id);
      LaterTrans(Lookup(ws[i].slots, key), Lookup(ws[j - 1].slots, key), Lookup(ws[j].slots, key),
                 ws[j - 1].clock, ws[j].clock);
    }
  }

  lemma SinglePublished(t: Slots, w: Write, now: nat, newKeys: set<StoreKey>)
    requires Chained(t) && WriteOk(t, w, now, newKeys) && Commit(t, [w]).1
    ensures Chained(Commit(t, [w]).0) && Lookup(Commit(t, [w]).0, w.record.key) == Some(w.record)
  {
    assert [w][1..] == [];
    var t' := Store(t, w.i, w.record).value;
    assert Commit(t, [w]) == Commit(t', []);
    PublishAges(t, t', w, now, newKeys);
    LookupIsExact(t', w.record.key);
    assert Holds(t'[w.i], w.record.key);
  }

  lemma RevocationPublishes(a: Auth, t: Slots, op: Op)
    requires Chained(t) && op.RevokeSession? && Succeeds(a, t, op)
    ensures
      var key := a.d.sessionKey(op.id);
      && Lookup(t, key).Some?
      && Lookup(Publish(a, t, op), key).Some?
      && Lookup(Publish(a, t, op), key).value.status == REVOKED
  {
    var key := a.d.sessionKey(op.id);
    FindIsHonest(t, key, 0);
    LookupIsExact(t, key);
    var w := PlanOf(a, t, op).value[0];
    assert PlanOf(a, t, op).value == [w];
    SinglePublished(t, w, op.now, {});
  }

  /** Revocation is final, whichever operation revoked: once a session's record is revoked,
      no check of any of its credentials succeeds, by any worker, cached view or not. */
  lemma RevokedForEver(
      a: Auth, ws: seq<World>, es: seq<Event>, i: nat, n: nat, m: nat, worker: nat, p: Principal, now: nat)
    requires IsRun(a, ws, es) && i <= n <= m < |ws| && p.session.Some?
    requires
      var r := Lookup(ws[i].slots, a.d.sessionKey(p.session.value.id));
      r.Some? && r.value.status == REVOKED
    ensures CheckAnswer(a, ws[n], ws[m], worker, p, now).Err?
  {
    RunKeepsInvariant(a, ws, es, i);
    assert p.session.value.id in ws[i].drawn;
    ViewCacheIsTransparent(a, ws, es, n, m, worker, p, now);
    var x :| n <= x <= m && CheckAnswer(a, ws[n], ws[m], worker, p, now) == FreshVerdict(a, ws[x].slots, p, now);
    SessionsOnlyAge(a, ws, es, i, x, p.session.value.id);
  }

  /** After a completed revocation of a session, it never validates again. */
  lemma RevokedNeverValidates(
      a: Auth, ws: seq<World>, es: seq<Event>, i: nat, k: nat, n: nat, m: nat, worker: nat, p: Principal, now: nat)
    requires IsRun(a, ws, es) && Completed(ws, es, i, k) && k <= n <= m < |ws|
    requires es[i].op.RevokeSession? && p.session.Some? && p.session.value.id == es[i].op.id
    ensures CheckAnswer(a, ws[n], ws[m], worker, p, now).Err?
  {
    CompletedPublishes(a, ws, es, i, k);
    RunKeepsInvariant(a, ws, es, i);
    RevocationPublishes(a, ws[i].slots, es[i].op);
    RevokedForEver(a, ws, es, k, n, m, worker, p, now);
  }

  /** While a session's record stands, its expiry and its refresh generation never fall. */
  lemma HorizonAndGenerationNeverFall(a: Auth, ws: seq<World>, es: seq<Event>, i: nat, j: nat, id: nat)
    requires IsRun(a, ws, es) && i <= j < |ws|
    requires Lookup(ws[i].slots, a.d.sessionKey(id)).Some? && Lookup(ws[j].slots, a.d.sessionKey(id)).Some?
    ensures
      var r, s := Lookup(ws[i].slots, a.d.sessionKey(id)).value, Lookup(ws[j].slots, a.d.sessionKey(id)).value;
      && r.expiresAt <= s.expiresAt && r.generation <= s.generation
      && r.createdAt == s.createdAt && r.subject == s.subject
      && (r.status == REVOKED ==> s.status == REVOKED)
  {
    RunKeepsInvariant(a, ws, es, i);
    assert id in ws[i].drawn;
    SessionsOnlyAge(a, ws, es, i, j, id);
  }

  lemma RefreshPublishes(a: Auth, t: Slots, op: Op)
    requires Chained(t) && op.RefreshSession? && Succeeds(a, t, op)
    ensures op.principal.session.Some?
    ensures
      var binding := op.principal.session.value;
      var key := a.d.sessionKey(binding.id);
      && Lookup(t, key).Some? && Lookup(t, key).value.generation == binding.generation
      && Lookup(Publish(a, t, op), key)
           == Some(Lookup(t, key).value.(generation := binding.generation + 1, expiresAt := op.expiresAt))
  {
    var key := a.d.sessionKey(op.principal.session.value.id);
    FindIsHonest(t, key, 0);
    LookupIsExact(t, key);
    var w := PlanOf(a, t, op).value[0];
    assert PlanOf(a, t, op).value == [w];
    SinglePublished(t, w, op.now, {});
  }

  lemma CompletedRefresh(a: Auth, ws: seq<World>, es: seq<Event>, i: nat, k: nat)
    requires IsRun(a, ws, es) && Completed(ws, es, i, k) && es[i].op.RefreshSession?
    ensures
      var p := es[i].op.principal;
      && p.session.Some?
      && var key := a.d.sessionKey(p.session.value.id);
         && Lookup(ws[i].slots, key).Some? && Lookup(ws[i].slots, key).value.generation == p.session.value.generation
         && Lookup(ws[k].slots, key).Some?
         && Lookup(ws[k].slots, key).value.generation == p.session.value.generation + 1
  {
    CompletedPublishes(a, ws, es, i, k);
    RunKeepsInvariant(a, ws, es, i);
    RefreshPublishes(a, ws[i].slots, es[i].op);
  }

  /** One refresh per generation: of all refreshes in a run that present the same session
      and generation, at most one completes. */
  lemma RefreshSucceedsOnce(a: Auth, ws: seq<World>, es: seq<Event>, i: nat, k: nat, j: nat, l: nat)
    requires IsRun(a, ws, es) && i < j < |es|
    requires es[i].Locked? && es[i].op.RefreshSession? && es[j].Locked? && es[j].op.RefreshSession?
    requires es[i].op.principal.session.Some? && es[i].op.principal.session == es[j].op.principal.session
    ensures !(Completed(ws, es, i, k) && Completed(ws, es, j, l))
  {
    if Completed(ws, es, i, k) && Completed(ws, es, j, l) {
      assert k <= j;
      CompletedRefresh(a, ws, es, i, k);
      CompletedRefresh(a, ws, es, j, l);
      HorizonAndGenerationNeverFall(a, ws, es, k, j, es[i].op.principal.session.value.id);
    }
  }

  // ------------------------------------------------------------- one-use credentials

  /** Either the credential has expired or its admission is on record. */
  ghost predicate Consumed(a: Auth, w: World, jti: nat, expiresAt: nat) {
    || expiresAt <= w.clock
    || (Lookup(w.slots, a.d.replayKey(jti)).Some?
        && var r := Lookup(w.slots, a.d.replayKey(jti)).value;
           r.status == CONSUMED && r.expiresAt == expiresAt)
  }

  function Mark(a: Auth, p: Principal, now: nat): Record {
    Record(a.d.replayKey(p.jti), Tag(0, 0, 0, 0), now, p.expiresAt, 0, CONSUMED)
  }

  lemma AdmissionPublishes(a: Auth, t: Slots, op: Op)
    requires Chained(t) && op.Admit? && Succeeds(a, t, op)
    ensures
      var key := a.d.replayKey(op.principal.jti);
      && op.now < op.principal.expiresAt && Lookup(t, key).None?
      && Lookup(Publish(a, t, op), key) == Some(Mark(a, op.principal, op.now))
  {
    LookupIsExact(t, a.d.replayKey(op.principal.jti));
    var w := PlanOf(a, t, op).value[0];
    assert PlanOf(a, t, op).value == [w];
    SinglePublished(t, w, op.now, FreshKeys(a, op));
  }

  lemma CompletedAdmission(a: Auth, ws: seq<World>, es: seq<Event>, i: nat, k: nat)
    requires IsRun(a, ws, es) && Completed(ws, es, i, k) && es[i].op.Admit?
    ensures
      var p := es[i].op.principal;
      && es[i].op.now < p.expiresAt && ws[i].clock <= es[i].op.now
      && Lookup(ws[i].slots, a.d.replayKey(p.jti)).None?
      && Consumed(a, ws[k], p.jti, p.expiresAt)
  {
    CompletedPublishes(a, ws, es, i, k);
    RunKeepsInvariant(a, ws, es, i);
    AdmissionPublishes(a, ws[i].slots, es[i].op);
  }

  lemma ConsumedStaysStep(a: Auth, w: World, e: Event, jti: nat, expiresAt: nat)
    requires Injective(a.d) && Invariant(a, w) && Allowed(w, e) && Consumed(a, w, jti, expiresAt)
    ensures Consumed(a, Step(a, w, e), jti, expiresAt)
  {
    match e
    case Locked(op) => {
      BeginIsPublished(a, w, op);
      var key := a.d.replayKey(jti);
      LookupIsExact(w.slots, key);
      if expiresAt > w.clock {
        if key in FreshKeys(a, op) {
          assert op.Admit? && op.principal.jti == jti;
          assert PlanOf(a, w.slots, op).Err?;
        } else {
          assert Later(Lookup(w.slots, key), Lookup(Step(a, w, e).slots, key), op.now);
        }
      }
    }
    case More => {
      if w.pending.Some? {
        MoreIsPublished(a, w);
        assert Later(Lookup(w.slots, a.d.replayKey(jti)), Lookup(Step(a, w, e).slots, a.d.replayKey(jti)), w.clock);
      }
    }
    case _ =>
  }

  lemma ConsumedStaysNext(a: Auth, ws: seq<World>, es: seq<Event>, n: nat, jti: nat, expiresAt: nat)
    requires IsRun(a, ws, es) && n < |es| && Consumed(a, ws[n], jti, expiresAt)
    ensures Consumed(a, ws[n + 1], jti, expiresAt)
  {
    RunKeepsInvariant(a, ws, es, n);
    ConsumedStaysStep(a, ws[n], es[n], jti, expiresAt);
  }

  lemma ConsumedStays(a: Auth, ws: seq<World>, es: seq<Event>, i: nat, j: nat, jti: nat, expiresAt: nat)
    requires IsRun(a, ws, es) && i <= j < |ws| && Consumed(a, ws[i], jti, expiresAt)
    ensures Consumed(a, ws[j], jti, expiresAt)
  {
    for n := i to j
      invariant Consumed(a, ws[n], jti, expiresAt)
    {
      ConsumedStaysNext(a, ws, es, n, jti, expiresAt);
    }
  }

  /** In the run, `p` was admitted by the operation at event `i`, and `again` by a later one,
      at event `j`. */
  ghost predicate AdmitsBoth(
      a: Auth, ws: seq<World>, es: seq<Event>, p: Principal, again: Principal, i: nat, k: nat, j: nat, l: nat) {
    && IsRun(a, ws, es) && i < j && Completed(ws, es, i, k) && Completed(ws, es, j, l)
    && es[i].op.Admit? && es[i].op.principal == p
    && es[j].op.Admit? && es[j].op.principal == again
  }

  /** A `jti` is admitted again only once the credential first admitted under it has
      expired, whatever happened to the slot that remembers it in between. */
  lemma AdmittedAgainOnlyAfterExpiry(
      a: Auth, ws: seq<World>, es: seq<Event>, p: Principal, again: Principal, i: nat, k: nat, j: nat, l: nat)
    requires AdmitsBoth(a, ws, es, p, again, i, k, j, l) && again.jti == p.jti
    ensures p.expiresAt <= es[j].op.now < again.expiresAt
  {
    CompletedAdmission(a, ws, es, i, k);
    CompletedAdmission(a, ws, es, j, l);
    assert k <= j;
    ConsumedStays(a, ws, es, k, j, p.jti, p.expiresAt);
  }

  /** No replay: a one-use credential, or any that shares its `jti` and does not outlive it,
      is admitted at most once in a run. */
  lemma AdmittedAtMostOnce(
      a: Auth, ws: seq<World>, es: seq<Event>, p: Principal, again: Principal, i: nat, k: nat, j: nat, l: nat)
    requires again.jti == p.jti && again.expiresAt <= p.expiresAt
    ensures !AdmitsBoth(a, ws, es, p, again, i, k, j, l)
  {
    if AdmitsBoth(a, ws, es, p, again, i, k, j, l) {
      AdmittedAgainOnlyAfterExpiry(a, ws, es, p, again, i, k, j, l);
    }
  }

  /** The handle accepts the credential at some instant, whatever the sessions. */
  predicate Presentable(a: Auth, p: Principal) {
    && p.session.None? && p.realm == a.realm && p.issuer == a.issuer
    && p.issuedAt < p.expiresAt && p.notBefore < p.expiresAt
  }

  function From(p: Principal): nat { if p.issuedAt < p.notBefore then p.notBefore else p.issuedAt }

  lemma AdmitsInto(a: Auth, w: World, p: Principal, now: nat, i: nat)
    requires Presentable(a, p) && From(p) <= now < p.expiresAt
    requires Find(w.slots, a.d.replayKey(p.jti)) == None && InsertSlot(w.slots, a.d.replayKey(p.jti), now) == Some(i)
    requires i < |w.slots| && RevisionOf(w.slots[i]) + 1 < U64
    ensures Step(a, w, Locked(Admit(p, now))) ==
      w.(slots := w.slots[i := Held(RevisionOf(w.slots[i]) + 1, Mark(a, p, now))], clock := now, pending := Some([]))
  {
    var write := Write(i, Mark(a, p, now));
    assert PlanOf(a, w.slots, Admit(p, now)) == Ok([write]);
    assert [write][1..] == [];
  }

  /** Both keys are tried at the same slot first, and the first one next at another. */
  predicate SharesHome(a: Auth, jti: nat, other: nat, size: nat)
    requires size > 0
  {
    && Probe(a.d.replayKey(other), 0, size) == Probe(a.d.replayKey(jti), 0, size)
    && Probe(a.d.replayKey(jti), 1, size) != Probe(a.d.replayKey(jti), 0, size)
  }

  /** The three table contents of the run below, probe by probe. */
  lemma MarkIsReplaced(a: Auth, t0: Slots, p: Principal, other: Principal, again: Principal, n0: nat, n1: nat)
    requires |t0| >= 2 && (forall i :: 0 <= i < |t0| ==> t0[i].Vacant?)
    requires Injective(a.d) && again.jti == p.jti && other.jti != p.jti
    requires p.expiresAt <= n1 < other.expiresAt && SharesHome(a, p.jti, other.jti, |t0|)
    ensures
      var home, next := Probe(a.d.replayKey(p.jti), 0, |t0|), Probe(a.d.replayKey(p.jti), 1, |t0|);
      var t1 := t0[home := Held(1, Mark(a, p, n0))];
      var t2 := t1[home := Held(2, Mark(a, other, n1))];
      && Find(t0, a.d.replayKey(p.jti)) == None && InsertSlot(t0, a.d.replayKey(p.jti), n0) == Some(home)
      && Find(t1, a.d.replayKey(other.jti)) == None && InsertSlot(t1, a.d.replayKey(other.jti), n1) == Some(home)
      && Find(t2, a.d.replayKey(p.jti)) == None && InsertSlot(t2, a.d.replayKey(p.jti), n1) == Some(next)
  {
    var key, key' := a.d.replayKey(p.jti), a.d.replayKey(other.jti);
    var home := Probe(key, 0, |t0|);
    var t1 := t0[home := Held(1, Mark(a, p, n0))];
    assert key != key' && FindFrom(t0, key, 0) == None && InsertFrom(t0, key, n0, 0) == Some(home);
    assert InsertFrom(t1, key', n1, 0) == Some(home);
    OnlyHeldSlot(t1, key', home);
    var t2 := t1[home := Held(2, Mark(a, other, n1))];
    OnlyHeldSlot(t2, key, home);
    assert InsertFrom(t2, key, n1, 0) == InsertFrom(t2, key, n1, 1);
  }

  lemma OnlyHeldSlot(t: Slots, key: StoreKey, home: nat)
    requires home < |t| && t[home].Held? && t[home].record.key != key
    requires forall i :: 0 <= i < |t| && i != home ==> t[i].Vacant?
    ensures Find(t, key) == None
  {
    FindIsHonest(t, key, 0);
  }

  /** The exact bound.  In a table of any size in which some other `jti` starts at the same
      slot, some run admits `p` and afterwards `again` under the same `jti` if and only if
      `again` outlives `p`. */
  lemma JtiReturnsIff(a: Auth, p: Principal, again: Principal, other: nat, size: nat)
    requires Injective(a.d) && Presentable(a, p) && Presentable(a, again) && again.jti == p.jti
    requires size >= 2 && other != p.jti && SharesHome(a, p.jti, other, size)
    ensures
      (exists ws: seq<World>, es: seq<Event>, i: nat, k: nat, j: nat, l: nat ::
         AdmitsBoth(a, ws, es, p, again, i, k, j, l) && |ws[0].slots| == size)
      <==> p.expiresAt < again.expiresAt
  {
    if ws: seq<World>, es: seq<Event>, i: nat, k: nat, j: nat, l: nat :|
        AdmitsBoth(a, ws, es, p, again, i, k, j, l) && |ws[0].slots| == size {
      AdmittedAgainOnlyAfterExpiry(a, ws, es, p, again, i, k, j, l);
    }
    if p.expiresAt < again.expiresAt {
      var ws, es := RunAdmittingBoth(a, p, again, other, size);
    }
  }

  lemma ThreeStepsAreARun(a: Auth, w0: World, w1: World, w2: World, w3: World, e0: Event, e1: Event, e2: Event)
    requires Injective(a.d)
    requires 0 < |w0.slots| && w0 == World(w0.slots, w0.clock, {}, map[], {}, None)
    requires forall i :: 0 <= i < |w0.slots| ==> w0.slots[i].Vacant?
    requires Allowed(w0, e0) && w1 == Step(a, w0, e0)
    requires Allowed(w1, e1) && w2 == Step(a, w1, e1)
    requires Allowed(w2, e2) && w3 == Step(a, w2, e2)
    ensures IsRun(a, [w0, w1, w2, w3], [e0, e1, e2])
  {
    var ws, es := [w0, w1, w2, w3], [e0, e1, e2];
    forall n | 0 <= n < |es| ensures Allowed(ws[n], es[n]) && ws[n + 1] == Step(a, ws[n], es[n]) {
    }
  }

  lemma RunAdmittingBoth(a: Auth, p: Principal, again: Principal, other: nat, size: nat)
    returns (ws: seq<World>, es: seq<Event>)
    requires Injective(a.d) && Presentable(a, p) && Presentable(a, again) && again.jti == p.jti
    requires size >= 2 && other != p.jti && SharesHome(a, p.jti, other, size)
    requires p.expiresAt < again.expiresAt
    ensures AdmitsBoth(a, ws, es, p, again, 0, 1, 2, 3) && |ws[0].slots| == size
  {
    var n0, n1 := From(p), if From(again) < p.expiresAt then p.expiresAt else From(again);
    var q := Principal(a.realm, a.issuer, "", other, Access, None, n1, n1, n1 + 1);
    var t0: Slots := seq(size, _ => Vacant);
    var home, next := Probe(a.d.replayKey(p.jti), 0, size), Probe(a.d.replayKey(p.jti), 1, size);
    var t1 := t0[home := Held(1, Mark(a, p, n0))];
    var t2 := t1[home := Held(2, Mark(a, q, n1))];
    MarkIsReplaced(a, t0, p, q, again, n0, n1);
    var w0 := World(t0, 0, {}, map[], {}, None);
    var w1 := w0.(slots := t1, clock := n0, pending := Some([]));
    var w2 := w1.(slots := t2, clock := n1);
    var w3 := w2.(slots := t2[next := Held(1, Mark(a, again, n1))]);
    AdmitsInto(a, w0, p, n0, home);
    AdmitsInto(a, w1, q, n1, home);
    AdmitsInto(a, w2, again, n1, next);
    var e0, e1, e2 := Locked(Admit(p, n0)), Locked(Admit(q, n1)), Locked(Admit(again, n1));
    ThreeStepsAreARun(a, w0, w1, w2, w3, e0, e1, e2);
    ws, es := [w0, w1, w2, w3], [e0, e1, e2];
  }

  // ------------------------------------------------------------- the session limit

  ghost function LiveSet(t: Slots, subject: Tag, now: nat): set<nat> {
    set i | 0 <= i < |t| && LiveFor(t[i], subject, now)
  }

  ghost function IndexSet(s: seq<nat>): set<nat> { set i | i in s }

  lemma {:induction false} DistinctSize(s: seq<nat>)
    requires Distinct(s)
    ensures |IndexSet(s)| == |s|
  {
    if s == [] {
      assert IndexSet(s) == {};
    } else {
      DistinctSize(s[1..]);
      assert s == [s[0]] + s[1..];
      assert IndexSet(s) == {s[0]} + IndexSet(s[1..]);
      assert s[0] !in IndexSet(s[1..]);
    }
  }

  ghost predicate ByAge(t: Slots, s: seq<nat>) {
    AllHeld(t, s) && forall x, y :: 0 <= x < y < |s| ==> !Older(t, s[y], s[x])
  }

  lemma {:induction false} InsertByAgeSorts(t: Slots, s: seq<nat>, i: nat)
    requires ByAge(t, s) && i < |t| && t[i].Held?
    ensures ByAge(t, InsertByAge(t, s, i))
  {
    if s == [] {
    } else if Older(t, i, s[0]) {
      var r := [i] + s;
      forall x, y | 0 <= x < y < |r| ensures !Older(t, r[y], r[x]) {
        if x > 0 {
          assert r[x] == s[x - 1] && r[y] == s[y - 1];
        } else {
          assert r[y] == s[y - 1];
          assert y == 1 || !Older(t, s[y - 1], s[0]);
        }
      }
    } else {
      var rest := InsertByAge(t, s[1..], i);
      assert ByAge(t, s[1..]);
      InsertByAgeSorts(t, s[1..], i);
      forall y | 0 <= y < |rest| ensures !Older(t, rest[y], s[0]) {
        assert rest[y] in multiset(rest);
        assert rest[y] == i || rest[y] in s[1..];
      }
    }
  }

  lemma {:induction false} SortByAgeSorts(t: Slots, s: seq<nat>)
    requires AllHeld(t, s)
    ensures ByAge(t, SortByAge(t, s))
  {
    if s != [] {
      SortByAgeSorts(t, s[1..]);
      InsertByAgeSorts(t, SortByAge(t, s[1..]), s[0]);
    }
  }

  /** Independent writes land exactly where they aim. */
  lemma {:induction false} CommitLands(t: Slots, ws: seq<Write>, j: nat)
    requires IndependentUpdates(t, ws) && Commit(t, ws).1 && j < |t|
    ensures
      var t' := Commit(t, ws).0;
      && (forall k :: 0 <= k < |ws| && ws[k].i == j ==> t'[j].Held? && t'[j].record == ws[k].record)
      && ((forall k :: 0 <= k < |ws| ==> ws[k].i != j) ==> t'[j] == t[j])
    decreases |ws|
  {
    if ws != [] {
      var u := Store(t, ws[0].i, ws[0].record).value;
      assert forall k :: 0 <= k < |ws[1..]| ==> ws[1..][k] == ws[k + 1];
      IndependentTail(t, ws);
      CommitLands(u, ws[1..], j);
      if ws[0].i == j {
        assert forall k :: 0 <= k < |ws[1..]| ==> ws[1..][k].i != j;
      }
    }
  }

  lemma LimitedCreateWrites(a: Auth, t: Slots, op: Op) returns (slot: nat)
    requires Chained(t) && op.Create? && op.limit.Some? && op.limit.value > 0
    requires Succeeds(a, t, op)
    ensures SubjectSessions(t, a.d.subjectTag(op.subject), op.now).Ok?
    ensures slot < |t| && Reusable(t[slot], op.now)
    ensures
      var t' := Publish(a, t, op);
      var r := Record(a.d.sessionKey(op.id), a.d.subjectTag(op.subject), op.now, op.expiresAt, 0, SESSION);
      && t'[slot].Held? && t'[slot].record == r
      && forall j :: 0 <= j < |t| && j != slot ==>
           if j in Evicted(a, t, op) then t'[j].Held? && t[j].Held? && t'[j].record == t[j].record.(status := REVOKED)
           else t'[j] == t[j]
  {
    var ws := PlanOf(a, t, op).value;
    var i, r := ws[0].i, ws[0].record;
    InsertScans(t, r.key, op.now, 0);
    slot := i;
    var u := Store(t, i, r).value;
    EvictedFacts(a, t, op);
    var s := Evicted(a, t, op);
    var rest := Revokes(t, s);
    assert ws[1..] == rest;
    CreateShape(a, t, op);
    var t' := Publish(a, t, op);
    assert t' == Commit(u, rest).0;
    forall k | 0 <= k < |s| ensures s[k] != slot && rest[k].i == s[k] {
      assert LiveFor(t[s[k]], a.d.subjectTag(op.subject), op.now);
    }
    CommitLands(u, rest, slot);
    forall j | 0 <= j < |t| && j != slot
      ensures if j in s then
        t'[j].Held? && t[j].Held? && t'[j].record == t[j].record.(status := REVOKED) else t'[j] == t[j]
    {
      CommitLands(u, rest, j);
      if j in s {
        var k :| 0 <= k < |s| && s[k] == j;
        assert rest[k].i == j;
      }
    }
  }

  /** The live sessions in the order of revocation. */
  lemma SortedLiveFacts(t: Slots, subject: Tag, now: nat)
    requires SubjectSessions(t, subject, now).Ok?
    ensures
      var sorted := SortByAge(t, SubjectSessions(t, subject, now).value);
      Distinct(sorted) && ByAge(t, sorted) && IndexSet(sorted) == LiveSet(t, subject, now)
  {
    var live := SubjectSessions(t, subject, now).value;
    var sorted := SortByAge(t, live);
    SubjectPlanFacts(t, subject, now);
    SubjectIsExact(t, subject, now, 0);
    DistinctFromMultiset(live, sorted);
    SortByAgeSorts(t, live);
    forall i ensures i in sorted <==> i in LiveSet(t, subject, now) {
      assert i in sorted <==> i in multiset(sorted);
      assert i in live <==> i in multiset(live);
    }
  }

  lemma LimitedCreateLives(a: Auth, t: Slots, op: Op) returns (slot: nat)
    requires Chained(t) && op.Create? && op.limit.Some? && op.limit.value > 0
    requires Succeeds(a, t, op)
    ensures SubjectSessions(t, a.d.subjectTag(op.subject), op.now).Ok?
    ensures
      var t' := Publish(a, t, op);
      var subject := a.d.subjectTag(op.subject);
      && slot < |t'| && slot !in LiveSet(t, subject, op.now)
      && t'[slot].Held? && t'[slot].record.key == a.d.sessionKey(op.id)
      && LiveSet(t', subject, op.now) == (LiveSet(t, subject, op.now) - IndexSet(Evicted(a, t, op))) + {slot}
  {
    slot := LimitedCreateWrites(a, t, op);
    var t' := Publish(a, t, op);
    var subject := a.d.subjectTag(op.subject);
    assert t'[slot].record.key == a.d.sessionKey(op.id);
    forall i ensures i in LiveSet(t', subject, op.now) <==>
                     i in (LiveSet(t, subject, op.now) - IndexSet(Evicted(a, t, op))) + {slot}
    {
    }
  }

  lemma PrefixSubset(s: seq<nat>, n: nat)
    requires n <= |s|
    ensures IndexSet(s[..n]) <= IndexSet(s)
  {
  }

  /** The limit holds.  After a successful limited creation the subject has at most `limit`
      live sessions, the new one among them, and every session it revoked is older than
      every session it kept. */
  lemma SessionLimitHolds(a: Auth, t: Slots, op: Op)
    requires Chained(t) && op.Create? && op.limit.Some? && op.limit.value > 0
    requires Succeeds(a, t, op)
    ensures
      var before := LiveSet(t, a.d.subjectTag(op.subject), op.now);
      var t' := Publish(a, t, op);
      var after := LiveSet(t', a.d.subjectTag(op.subject), op.now);
      && |after| <= op.limit.value
      && (exists i :: i in after && t'[i].record.key == a.d.sessionKey(op.id))
      && forall i, j :: i in before && i !in after && j in before && j in after ==> Older(t, i, j)
  {
    var subject := a.d.subjectTag(op.subject);
    var slot := LimitedCreateLives(a, t, op);
    var s := Evicted(a, t, op);
    var sorted := SortByAge(t, SubjectSessions(t, subject, op.now).value);
    SortedLiveFacts(t, subject, op.now);
    EvictedFacts(a, t, op);
    DistinctSize(sorted);
    DistinctSize(s);
    PrefixSubset(sorted, |s|);
    assert s == sorted[..|s|];
    assert slot in LiveSet(Publish(a, t, op), subject, op.now);
    OldestAreEvicted(t, sorted, |s|);
  }

  lemma OldestAreEvicted(t: Slots, sorted: seq<nat>, n: nat)
    requires ByAge(t, sorted) && Distinct(sorted) && n <= |sorted|
    ensures forall i, j :: i in sorted[..n] && j in sorted && j !in sorted[..n] ==> Older(t, i, j)
  {
  }

  // --------------------------------------------------------- revoking a whole subject

  /** Every live session of the subject is revoked, and nothing else is touched. */
  lemma SubjectRevocationLands(a: Auth, t: Slots, op: Op, j: nat)
    requires Chained(t) && op.RevokeSubject? && Succeeds(a, t, op) && j < |t|
    ensures
      var t' := Publish(a, t, op);
      && |t'| == |t|
      && if LiveFor(t[j], a.d.subjectTag(op.subject), op.now)
         then t'[j].Held? && t'[j].record == t[j].record.(status := REVOKED)
         else t'[j] == t[j]
  {
    var subject := a.d.subjectTag(op.subject);
    var s := SubjectSessions(t, subject, op.now).value;
    var ws := Revokes(t, s);
    SubjectPlanFacts(t, subject, op.now);
    SubjectIsExact(t, subject, op.now, 0);
    assert IndependentUpdates(t, ws) by {
      forall k | 0 <= k < |ws|
        ensures ws[k].i < |t| && Holds(t[ws[k].i], ws[k].record.key) && Evolves(t[ws[k].i].record, ws[k].record)
      {
        assert ws[k].i == s[k] && LiveFor(t[s[k]], subject, op.now);
      }
    }
    CommitLands(t, ws, j);
    if j in s {
      var k :| 0 <= k < |s| && s[k] == j;
      assert ws[k].i == j;
    }
  }

  /** After a completed revocation of a subject, no session it had live when the operation
      began ever validates again. */
  lemma RevokedSubjectNeverValidates(
      a: Auth, ws: seq<World>, es: seq<Event>, i: nat, k: nat, n: nat, m: nat,
      worker: nat, p: Principal, now: nat, slot: nat)
    requires IsRun(a, ws, es) && Completed(ws, es, i, k) && k <= n <= m < |ws|
    requires es[i].op.RevokeSubject? && p.session.Some? && slot < |ws[i].slots|
    requires Holds(ws[i].slots[slot], a.d.sessionKey(p.session.value.id))
    requires LiveFor(ws[i].slots[slot], a.d.subjectTag(es[i].op.subject), es[i].op.now)
    ensures CheckAnswer(a, ws[n], ws[m], worker, p, now).Err?
  {
    CompletedPublishes(a, ws, es, i, k);
    RunKeepsInvariant(a, ws, es, i);
    RunKeepsInvariant(a, ws, es, k);
    SubjectRevocationLands(a, ws[i].slots, es[i].op, slot);
    LookupIsExact(ws[k].slots, a.d.sessionKey(p.session.value.id));
    assert Holds(ws[k].slots[slot], a.d.sessionKey(p.session.value.id));
    RevokedForEver(a, ws, es, k, n, m, worker, p, now);
  }

  /** The limit at the completion of a limited creation, whatever was checked meanwhile. */
  lemma SessionLimitHoldsInRuns(a: Auth, ws: seq<World>, es: seq<Event>, i: nat, k: nat)
    requires IsRun(a, ws, es) && Completed(ws, es, i, k)
    requires es[i].op.Create? && es[i].op.limit.Some?
    ensures |LiveSet(ws[k].slots, a.d.subjectTag(es[i].op.subject), es[i].op.now)| <= es[i].op.limit.value
  {
    CompletedPublishes(a, ws, es, i, k);
    RunKeepsInvariant(a, ws, es, i);
    SessionLimitHolds(a, ws[i].slots, es[i].op);
  }
}
