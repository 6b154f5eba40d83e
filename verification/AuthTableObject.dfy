/** The scanning loops of the auth state table over its slot array (`auth/src/table.rs`),
    proved against the functions of `AuthTable` and `AuthFleet`. */
module AuthTableObject {
  import opened Wrappers
  import opened AuthTable
  import AuthFleet

  class Table {
    const slots: array<Slot>

    constructor (capacity: nat)
      requires capacity > 0
      ensures fresh(slots) && slots.Length == capacity
      ensures Chained(slots[..]) && forall key :: AuthFleet.Lookup(slots[..], key).None?
    {
      slots := new Slot[capacity](_ => Vacant);
      new;
      AuthFleet.EmptyTableIsChained(slots[..]);
    }

    /** `find`: stop at the key or at a vacant slot. */
    method Find(key: StoreKey) returns (found: Option<nat>)
      requires slots.Length > 0
      ensures found == AuthTable.Find(slots[..], key)
    {
      for offset := 0 to slots.Length
        invariant AuthTable.Find(slots[..], key) == FindFrom(slots[..], key, offset)
      {
        var index := Probe(key, offset, slots.Length);
        match slots[index]
        case Vacant => return None;
        case Held(_, record) =>
          if record.key == key {
            return Some(index);
          }
      }
      return None;
    }

    /** `Slot::store`: validate, then publish under the next revision. */
    method Store(index: nat, record: Record) returns (stored: Result<nat, Error>)
      requires index < slots.Length
      modifies slots
      ensures
        match AuthTable.Store(old(slots[..]), index, record)
        case Err(e) => stored == Err(e) && slots[..] == old(slots[..])
        case Ok(t) => stored == Ok(RevisionOf(t[index])) && slots[..] == t
    {
      var sound := FromWords(Words(record));
      WordsRoundTrip(record, Words(record));
      if sound.Err? {
        return Err(sound.error);
      }
      var revision := match slots[index] case Vacant => 0 case Held(r, _) => r;
      if revision + 1 >= U64 {
        return Err(PolicyUnavailable);
      }
      slots[index] := Held(revision + 1, record);
      return Ok(revision + 1);
    }

    /** `insert`: the first vacant or expired slot of the chain. */
    method Insert(record: Record, now: nat) returns (inserted: Result<nat, Error>)
      requires slots.Length > 0
      modifies slots
      ensures
        match InsertSlot(old(slots[..]), record.key, now)
        case None => inserted == Err(StateFull) && slots[..] == old(slots[..])
        case Some(i) =>
          match AuthTable.Store(old(slots[..]), i, record)
          case Err(e) => inserted == Err(e) && slots[..] == old(slots[..])
          case Ok(t) => inserted.Ok? && slots[..] == t
    {
      for offset := 0 to slots.Length
        invariant slots[..] == old(slots[..])
        invariant InsertSlot(slots[..], record.key, now) == InsertFrom(slots[..], record.key, now, offset)
      {
        var index := Probe(record.key, offset, slots.Length);
        var reusable := match slots[index] case Vacant => true case Held(_, was) => now >= was.expiresAt;
        if reusable {
          inserted := Store(index, record);
          return;
        }
      }
      return Err(StateFull);
    }

    /** `subject_sessions`: the live sessions of one subject, in slot order. */
    method SubjectSessions(subject: Tag, now: nat) returns (found: Result<seq<nat>, Error>)
      ensures found == AuthFleet.SubjectSessions(slots[..], subject, now)
    {
      var sessions: seq<nat> := [];
      ghost var all := AuthFleet.SubjectFrom(slots[..], subject, now, 0);
      assert all.Ok? ==> sessions + all.value == all.value;
      for index := 0 to slots.Length
        invariant
          match AuthFleet.SubjectFrom(slots[..], subject, now, index)
          case Err(e) => AuthFleet.SubjectSessions(slots[..], subject, now) == Err(e)
          case Ok(rest) => AuthFleet.SubjectSessions(slots[..], subject, now) == Ok(sessions + rest)
      {
        match slots[index]
        case Vacant =>
        case Held(_, record) =>
          if record.status == SESSION && record.subject == subject && now < record.expiresAt {
            if now < record.createdAt {
              return Err(NotYetValid);
            }
            ghost var rest := AuthFleet.SubjectFrom(slots[..], subject, now, index + 1);
            if rest.Ok? {
              assert sessions + ([index] + rest.value) == (sessions + [index]) + rest.value;
            }
            sessions := sessions + [index];
          }
      }
      assert sessions + [] == sessions;
      return Ok(sessions);
    }
  }
}
