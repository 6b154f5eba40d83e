/** The fleet's locked operations as they change the table in place (`auth/src/fleet.rs`),
    each proved to carry out its plan in `AuthFleet`, write by write.  Each runs under the
    writer lock, so nothing else changes the slots meanwhile. */
module AuthFleetObject {
  import opened Wrappers
  import opened AuthTable
  import F = AuthFleet
  import opened AuthTableObject

  /** The operation was refused and changed nothing, or it carried out its planned writes in
      order, up to one the table refused to store. */
  ghost predicate Ran(a: F.Auth, t: Slots, op: F.Op, t': Slots, verdict: F.Verdict)
    requires op.Create? && op.limit.Some? ==> op.limit.value > 0
  {
    match F.PlanOf(a, t, op)
    case Err(e) => verdict == Err(e) && t' == t
    case Ok(ws) => t' == F.Commit(t, ws).0 && (verdict.Ok? <==> F.Commit(t, ws).1)
  }

  /** What that means for the caller, in the terms the run theorems use. */
  lemma RanPublishes(a: F.Auth, t: Slots, op: F.Op, t': Slots, verdict: F.Verdict)
    requires op.Create? && op.limit.Some? ==> op.limit.value > 0
    requires Ran(a, t, op, t', verdict)
    ensures t' == F.Publish(a, t, op)
    ensures verdict.Ok? <==> F.Succeeds(a, t, op)
  {
  }

  lemma CommitOne(t: Slots, w: F.Write)
    requires w.i < |t|
    ensures
      match AuthTable.Store(t, w.i, w.record)
      case Err(_) => F.Commit(t, [w]) == (t, false)
      case Ok(t') => F.Commit(t, [w]) == (t', true)
  {
  }

  lemma CommitNext(t: Slots, ws: seq<F.Write>, k: nat)
    requires k < |ws| && ws[k].i < |t|
    ensures
      match AuthTable.Store(t, ws[k].i, ws[k].record)
      case Err(_) => F.Commit(t, ws[k..]) == (t, false)
      case Ok(t') => F.Commit(t, ws[k..]) == F.Commit(t', ws[k + 1..])
  {
  }

  lemma ExtensionCommits(t: Slots, before: Slots, live: seq<nat>, targets: seq<nat>, k: nat)
    requires |t| == |before| && F.AllHeld(before, live) && |targets| == |live| && k < |live|
    requires t[live[k]] == before[live[k]]
    ensures F.AllHeld(before, live[k..]) && F.AllHeld(before, live[k + 1..])
    ensures
      var r := before[live[k]].record;
      var now, rest := F.Extensions(before, live[k..], targets[k..]),
        F.Extensions(before, live[k + 1..], targets[k + 1..]);
      if targets[k] > r.expiresAt then
        |now| == |rest| + 1 &&
        match AuthTable.Store(t, live[k], r.(expiresAt := targets[k])) {
          case Err(_) => F.Commit(t, now) == (t, false)
          case Ok(t') => F.Commit(t, now) == F.Commit(t', rest)
        }
      else now == rest
  {
  }

  /** Storing the new record and then the revocations is committing them all. */
  lemma CreateCommits(t: Slots, w: F.Write, excess: seq<nat>)
    requires w.i < |t| && F.AllHeld(t, excess)
    ensures
      var ws := [w] + F.Revokes(t, excess);
      match AuthTable.Store(t, w.i, w.record)
      case Err(_) => F.Commit(t, ws) == (t, false)
      case Ok(t') => F.Commit(t, ws) == F.Commit(t', F.Revokes(t, excess))
  {
  }

  lemma SpotIsReusable(t: Slots, key: StoreKey, now: nat)
    requires InsertSlot(t, key, now).Some?
    ensures Reusable(t[InsertSlot(t, key, now).value], now)
  {
    InsertScans(t, key, now, 0);
  }

  class Fleet {
    const a: F.Auth
    const table: Table

    constructor (a: F.Auth, table: Table)
      ensures this.a == a && this.table == table
    {
      this.a := a;
      this.table := table;
    }

    method StoreOne(i: nat, record: Record) returns (verdict: F.Verdict)
      requires i < table.slots.Length
      modifies table.slots
      ensures
        var (t', ok) := F.Commit(old(table.slots[..]), [F.Write(i, record)]);
        table.slots[..] == t' && (verdict.Ok? <==> ok)
    {
      CommitOne(table.slots[..], F.Write(i, record));
      var stored := table.Store(i, record);
      return match stored case Err(e) => Err(e) case Ok(_) => Ok(());
    }

    method RevokeSession(id: nat, now: nat) returns (verdict: F.Verdict)
      requires table.slots.Length > 0
      modifies table.slots
      ensures Ran(a, old(table.slots[..]), F.RevokeSession(id, now), table.slots[..], verdict)
    {
      var found := table.Find(a.d.sessionKey(id));
      FindIsHonest(table.slots[..], a.d.sessionKey(id), 0);
      if found.None? {
        return Err(Error.Revoked);
      }
      var record := table.slots[found.value].record;
      if record.status != SESSION && record.status != REVOKED {
        return Err(PolicyUnavailable);
      }
      if now < record.createdAt {
        return Err(NotYetValid);
      }
      verdict := StoreOne(found.value, record.(status := REVOKED));
    }

    /** Writes the listed sessions back as revoked, stopping at one that cannot be stored. */
    method RevokeAll(live: seq<nat>, ghost before: Slots) returns (verdict: F.Verdict)
      requires |before| == table.slots.Length && F.AllHeld(before, live) && F.Distinct(live)
      requires forall k :: 0 <= k < |live| ==> table.slots[live[k]] == before[live[k]]
      modifies table.slots
      ensures
        var (t', ok) := F.Commit(old(table.slots[..]), F.Revokes(before, live));
        table.slots[..] == t' && (verdict.Ok? <==> ok)
    {
      ghost var ws := F.Revokes(before, live);
      assert ws[0..] == ws;
      for k := 0 to |live|
        invariant F.Commit(old(table.slots[..]), ws) == F.Commit(table.slots[..], ws[k..])
        invariant forall x :: k <= x < |live| ==> table.slots[live[x]] == before[live[x]]
      {
        CommitNext(table.slots[..], ws, k);
        var record := table.slots[live[k]].record;
        var stored := table.Store(live[k], record.(status := REVOKED));
        if stored.Err? {
          return Err(stored.error);
        }
      }
      assert ws[|live|..] == [];
      return Ok(());
    }

    method RevokeSubject(subject: string, now: nat) returns (verdict: F.Verdict, revoked: nat)
      requires table.slots.Length > 0
      modifies table.slots
      ensures Ran(a, old(table.slots[..]), F.RevokeSubject(subject, now), table.slots[..], verdict)
      ensures verdict.Ok? ==> revoked == |F.SubjectSessions(old(table.slots[..]), a.d.subjectTag(subject), now).value|
    {
      ghost var before := table.slots[..];
      var live := table.SubjectSessions(a.d.subjectTag(subject), now);
      assert table.slots[..] == before;
      if live.Err? {
        return Err(live.error), 0;
      }
      F.SubjectPlanFacts(before, a.d.subjectTag(subject), now);
      verdict := RevokeAll(live.value, before);
      revoked := |live.value|;
    }

    method ExtendSession(id: nat, subject: string, now: nat, expiresAt: nat) returns (verdict: F.Verdict)
      requires table.slots.Length > 0
      modifies table.slots
      ensures Ran(a, old(table.slots[..]), F.ExtendSession(id, subject, now, expiresAt), table.slots[..], verdict)
    {
      if now >= expiresAt {
        return Err(InvalidInput);
      }
      var found := table.Find(a.d.sessionKey(id));
      FindIsHonest(table.slots[..], a.d.sessionKey(id), 0);
      if found.None? {
        return Err(Error.Revoked);
      }
      var record := table.slots[found.value].record;
      if record.subject != a.d.subjectTag(subject) {
        return Err(InvalidInput);
      }
      var live := F.CheckLive(record, now);
      if live.Err? {
        return live;
      }
      if expiresAt < record.expiresAt {
        return Err(InvalidInput);
      }
      if expiresAt > record.expiresAt {
        verdict := StoreOne(found.value, record.(expiresAt := expiresAt));
      } else {
        verdict := Ok(());
      }
    }

    method Refresh(p: F.Principal, now: nat, expiresAt: nat) returns (verdict: F.Verdict)
      requires table.slots.Length > 0
      modifies table.slots
      ensures Ran(a, old(table.slots[..]), F.RefreshSession(p, now, expiresAt), table.slots[..], verdict)
    {
      if !p.purpose.Refresh? {
        return Err(InvalidToken);
      }
      var scope := F.CheckScope(a, p, now);
      if scope.Err? {
        return scope;
      }
      if p.session.None? {
        return Err(InvalidToken);
      }
      var found := table.Find(a.d.sessionKey(p.session.value.id));
      FindIsHonest(table.slots[..], a.d.sessionKey(p.session.value.id), 0);
      if found.None? {
        return Err(Error.Revoked);
      }
      var record := table.slots[found.value].record;
      var checked := F.CheckRecord(record, a.d.subjectTag(p.subject), p, now);
      if checked.Err? {
        return checked;
      }
      if expiresAt < record.expiresAt {
        return Err(InvalidInput);
      }
      if record.generation + 1 >= U64 {
        return Err(PolicyUnavailable);
      }
      verdict := StoreOne(found.value, record.(generation := record.generation + 1, expiresAt := expiresAt));
    }

    /** A fresh record into the first reusable slot of its chain. */
    method InsertOne(record: Record, now: nat) returns (verdict: F.Verdict)
      requires table.slots.Length > 0
      modifies table.slots
      ensures
        match InsertSlot(old(table.slots[..]), record.key, now)
        case None => verdict == Err(StateFull) && table.slots[..] == old(table.slots[..])
        case Some(i) =>
          var (t', ok) := F.Commit(old(table.slots[..]), [F.Write(i, record)]);
          table.slots[..] == t' && (verdict.Ok? <==> ok)
    {
      ghost var spot := InsertSlot(table.slots[..], record.key, now);
      if spot.Some? {
        CommitOne(table.slots[..], F.Write(spot.value, record));
      }
      var inserted := table.Insert(record, now);
      return match inserted case Err(e) => Err(e) case Ok(_) => Ok(());
    }

    /** `ReplayGuard::check`: the session, then the one-use mark, under one lock. */
    method Admit(p: F.Principal, now: nat) returns (verdict: F.Verdict)
      requires table.slots.Length > 0
      modifies table.slots
      ensures Ran(a, old(table.slots[..]), F.Admit(p, now), table.slots[..], verdict)
    {
      var scope := F.CheckScope(a, p, now);
      if scope.Err? {
        return scope;
      }
      if p.session.Some? {
        var found := table.Find(a.d.sessionKey(p.session.value.id));
        FindIsHonest(table.slots[..], a.d.sessionKey(p.session.value.id), 0);
        if found.None? {
          return Err(Error.Revoked);
        }
        var checked := F.CheckRecord(table.slots[found.value].record, a.d.subjectTag(p.subject), p, now);
        if checked.Err? {
          return checked;
        }
      }
      var key := a.d.replayKey(p.jti);
      var seen := table.Find(key);
      if seen.Some? {
        return Err(Replayed);
      }
      verdict := InsertOne(Record(key, Tag(0, 0, 0, 0), now, p.expiresAt, 0, CONSUMED), now);
    }

    /** Writes back the sessions whose horizon moves, and counts them. */
    method ExtendAll(live: seq<nat>, targets: seq<nat>, ghost before: Slots) returns (verdict: F.Verdict, changed: nat)
      requires before == table.slots[..] && F.AllHeld(before, live) && F.Distinct(live) && |targets| == |live|
      modifies table.slots
      ensures
        var (t', ok) := F.Commit(before, F.Extensions(before, live, targets));
        table.slots[..] == t' && (verdict.Ok? <==> ok)
      ensures verdict.Ok? ==> changed == |F.Extensions(before, live, targets)|
    {
      changed := 0;
      ghost var ws := F.Extensions(before, live, targets);
      assert live[0..] == live && targets[0..] == targets;
      for k := 0 to |live|
        invariant F.Commit(before, ws) == F.Commit(table.slots[..], F.Extensions(before, live[k..], targets[k..]))
        invariant forall x :: k <= x < |live| ==> table.slots[live[x]] == before[live[x]]
        invariant changed + |F.Extensions(before, live[k..], targets[k..])| == |ws|
      {
        ExtensionCommits(table.slots[..], before, live, targets, k);
        var record := table.slots[live[k]].record;
        if targets[k] > record.expiresAt {
          var stored := table.Store(live[k], record.(expiresAt := targets[k]));
          if stored.Err? {
            return Err(stored.error), changed;
          }
          changed := changed + 1;
        }
      }
      return Ok(()), changed;
    }

    /** Every target horizon is validated before any is written. */
    method ExtendSubject(subject: string, now: nat, horizon: (nat, nat) -> nat)
      returns (verdict: F.Verdict, changed: nat)
      requires table.slots.Length > 0
      modifies table.slots
      ensures Ran(a, old(table.slots[..]), F.ExtendSubject(subject, now, horizon), table.slots[..], verdict)
      ensures verdict.Ok? ==>
        changed == |F.PlanOf(a, old(table.slots[..]), F.ExtendSubject(subject, now, horizon)).value|
    {
      ghost var before := table.slots[..];
      changed := 0;
      var found := table.SubjectSessions(a.d.subjectTag(subject), now);
      assert table.slots[..] == before;
      if found.Err? {
        return Err(found.error), 0;
      }
      var live := found.value;
      F.SubjectPlanFacts(before, a.d.subjectTag(subject), now);
      var targets := F.Targets(table.slots[..], live, horizon);
      for k := 0 to |live|
        invariant forall x :: 0 <= x < k ==> before[live[x]].record.expiresAt <= targets[x] && now < targets[x]
      {
        if targets[k] < table.slots[live[k]].record.expiresAt || targets[k] <= now {
          return Err(InvalidInput), 0;
        }
      }
      verdict, changed := ExtendAll(live, targets, before);
    }

    /** Creates a session; with a limit, the oldest excess sessions are revoked, but only
        after the new one has been stored. */
    method Create(id: nat, subject: string, now: nat, expiresAt: nat, limit: Option<nat>) returns (verdict: F.Verdict)
      requires table.slots.Length > 0 && (limit.Some? ==> limit.value > 0)
      modifies table.slots
      ensures Ran(a, old(table.slots[..]), F.Create(id, subject, now, expiresAt, limit), table.slots[..], verdict)
    {
      ghost var before := table.slots[..];
      if now >= expiresAt {
        return Err(InvalidInput);
      }
      var record := Record(a.d.sessionKey(id), a.d.subjectTag(subject), now, expiresAt, 0, SESSION);
      var taken := table.Find(record.key);
      if taken.Some? {
        return Err(InvalidInput);
      }
      var excess: seq<nat> := [];
      if limit.Some? {
        var live := table.SubjectSessions(record.subject, now);
        assert table.slots[..] == before;
        if live.Err? {
          return Err(live.error);
        }
        var sorted := F.SortByAge(table.slots[..], live.value);
        excess := sorted[..F.Excess(|sorted|, limit.value)];
        F.EvictedFacts(a, before, F.Create(id, subject, now, expiresAt, limit));
      }
      assert F.AllHeld(before, excess);
      ghost var spot := InsertSlot(before, record.key, now);
      if spot.Some? {
        CreateCommits(before, F.Write(spot.value, record), excess);
        SpotIsReusable(before, record.key, now);
      }
      verdict := InsertOne(record, now);
      if verdict.Ok? {
        verdict := RevokeAll(excess, before);
      }
    }
  }
}
