# Verified models of the orbitive fleet primitives

This project models the parts of orbitive whose correctness rests on an argument over all
interleavings or all inputs, and proves them. Orbitive is a set of building blocks for a
fleet of processes on one host that share memory: a byte arena, a cache over it, an
authentication state table, rate quotas, client pools, cells and mailbox links.

Where the code uses sequentially consistent atomics, the model is a state machine in which
one atomic operation is one step, threads interleave freely, and a writer or a whole process
may die between any two steps. Where the code changes an object under a lock, the model is a
class whose methods follow the source's loops and branches and are proved against a
functional specification; the theorems are about that specification.

| file | what it covers |
|---|---|
| `ArenaTypes.dfy` | what the arena stores and what it is fetched by |
| `ArenaPins.dfy`, `ArenaPinsRuns.dfy` | pin, recheck, retire and publish between lock-free readers and the locked writer |
| `ArenaPlan.dfy`, `ArenaPlanRuns.dfy` | the same executions with the writer's own choices: the index stays well formed along them |
| `ArenaWalkSteps.dfy`, `ArenaWalk.dfy`, `ArenaTornWalk.dfy` | the lock-free `get` over its probe chain, and the walk that misses |
| `ArenaIndex.dfy`, `ArenaSearch.dfy`, `ArenaCost.dfy`, `ArenaObject.dfy` | the arena as a lossy map: probe chains, spans, the search for room and what it costs, every operation |
| `CacheReplay.dfy`, `LocalCacheModel.dfy`, `LocalCacheObject.dfy` | the bounded local cache against the sorted replay of all mutations |
| `AuthSlot.dfy` | the two-bank record: torn-free reads and crash safety |
| `AuthTable.dfy`, `AuthTableObject.dfy` | the probing table and its lock-free lookup |
| `AuthFleet.dfy`, `AuthFleetObject.dfy` | sessions, refresh, revocation, replay admission and the local view cache |
| `Gcra.dfy` | exact integer rate admission |
| `ClientPool.dfy`, `ClientPoolRuns.dfy`, `ClientPoolObject.dfy` | counters of the outbound client pool under cancellation and drain |
| `ClientPoolWake.dfy`, `ClientPoolWakeRuns.dfy` | its notifier: who sleeps, who notifies |
| `CellWake.dfy`, `CellWakeRuns.dfy`, `CellWakeStranded.dfy` | parking and waking on a cell |
| `CellTable.dfy`, `CellTableRuns.dfy` | generation fencing of cell slots |
| `CellClaim.dfy` | dividing an amount between racing callers |
| `LinkBell.dfy` | the arm, recheck and wait loop of a mailbox lane |
| `Wrappers.dfy` | `Option` and `Result` |
| `Arithmetic.dfy` | facts about remainders used by the arena and the table |

`dafny verify dfyconfig.toml` checks everything.

## Where the code and its documentation differ

The models follow the code. These are the places where a promise holds only under a
condition; each has a theorem that says exactly when.

- `client-pool/src/pool.rs:463`: a drain waits for live clients, not for the queue. After it
  returns, `waiting` may still count futures that have not been polled again.
  Such a run exists if and only if the options allow queueing
  (`ClientPoolRuns.DrainMayReturnWithWaitersIff`), and `ClientPoolRuns.DrainedForEver` says
  when all counts are zero.
- `arena/src/lib.rs:79`: an error for pins is documented as having written nothing. A `put`
  that fails so has already retired the record its key named, and its searches have retired
  what they met. `ArenaCost.RefusalKeepsViewIff` says exactly when nothing is lost;
  `ArenaCost.RefusalEmptiesRing` says that, when no bytes are found, every record that no
  living reader pins is lost, but for empty ones and those near the end of the ring. An
  oversized record really changes nothing.
- `arena/src/lib.rs:977`: a pinned span of no bytes that lies strictly inside a window blocks
  it (`ArenaIndex.MeetsIff`), so a record of two bytes or more can be refused although no
  byte of the ring is pinned, and a shorter one cannot (`ArenaCost.BlockedByNothingIff`). The
  completeness theorem is stated with the code's own overlap test, so it covers this.
- `arena/src/lib.rs:641`: the walk of a lock-free `get` loads the two key words of a slot one
  after the other, so beside a slot that is being rewritten it may take one word of the old
  record and one of the new for its key, stop there and miss a key that was live throughout.
  But for a full pin counter or a death that is the only way to miss it
  (`ArenaWalk.GetFindsKeyIff`), and it happens (`ArenaTornWalk.TornWalkMisses`). A wrong
  record is never returned (`ArenaPinsRuns.EntryIsExact`).
- `cache/src/local.rs:164`: recovery drops the slots without raising the floor over them.
  The history stays accounted for exactly when the given floor reaches every resident slot
  (`LocalCacheModel.RecoveryCoversIff`), and a stale hit becomes possible exactly when a
  resident key is left far enough above it for an older revision to fit in between
  (`LocalCacheModel.RecoveryServesStaleIff`). It is a limit of this operation alone: its only
  caller passes the last sequence the ring has handed out (`cache/src/lib.rs:250-255`), which
  reaches every slot, so a low floor is not reachable through `Cache`.
- `cache/src/local.rs:305`: the floor compares sequences only, so a reset and a put that tie
  on the sequence can turn a value the replay keeps into a miss (never into a wrong hit).
  `LocalCacheModel.AgreesUnlessTied` says that nothing else can. It is a limit of `apply`
  alone: sequences come from one atomic counter of the ring (`core/src/ring/mod.rs:261-266`,
  `cache/src/transport.rs:112-153`), so no two publications on one ring tie.
- `auth/src/table.rs:478`: with a capacity that does not divide 2^64 a probe chain that wraps
  skips slots. A table may report itself full with a vacant slot if and only if that is so
  (`AuthTable.FullWithVacancyIff`).
- `auth/src/fleet.rs:635`: one-use admission remembers a `jti` until the expiry of the
  credential first admitted under it. Another credential with the same `jti` may follow if
  and only if it expires later (`AuthFleet.JtiReturnsIff`). A `jti` is 16 random bytes
  (`auth/src/lib.rs:126-136`), so two credentials share one only by a collision.
- `cell/src/lib.rs:743`: a canceller whose handle has gone stale returns without waking
  anybody. No wake is lost by it, because the release that retired the handle wakes, except
  for a wait that began before the cell had reached its version. A wait can be stranded if and
  only if it began so (`CellWakeStranded.StrandedIff`).
- `link/src/inbox.rs:1492`: a bell that cannot be sent leaves a sleeping receiver on a
  committed frame. The theorem assumes that sends succeed, and says what happens otherwise.

## Model

| member | source | states |
|---|---|---|
| ArenaPinsRuns.EntryIsExact | arena/src/lib.rs:662-692 | In every interleaving of lock-free lookups, one locked writer, process deaths, reclaims and writer crashes, what a held entry reads is exactly the record published under the slot, generation and key that were asked for: torn bytes and torn words are impossible. |
| ArenaPinsRuns.HeldEntryNeverChanges | arena/src/lib.rs:956-1009 | From the moment an entry is obtained until its drop, the bytes it reads, and the words of its slot, stay the same, and no writer has chosen that slot, copies for it or rewrites it. |
| ArenaPinsRuns.LookupHitsIff | arena/src/lib.rs:662-692 | The call at one slot, left alone, ends holding an entry exactly when the slot offers that generation (and key) in the right state and the pin counter has room; otherwise the arena is as it was, with the pin given back. |
| ArenaPinsRuns.GoneAddressAlwaysMisses | arena/src/lib.rs:655-692 | Once a published address is no longer offered, no lookup of it begun afterwards ever yields an entry, across reuse of its slot, resets and crashes. |
| ArenaPinsRuns.GoneForever | arena/src/lib.rs:751-801 | A published generation that its slot stopped offering is never offered again. |
| ArenaPinsRuns.GenerationsIncrease | arena/src/lib.rs:751-763 | Each publication takes a generation above every generation published before it. |
| ArenaPinsRuns.HistoryGrows | arena/src/lib.rs:783-801 | What was published under a generation is never forgotten or altered. |
| ArenaPinsRuns.CallsPersist | arena/src/lib.rs:662-692 | A lookup keeps its slot, generation and key, and once it holds an entry keeps that entry, until it ends for good. |
| ArenaPins.CleanRow | arena/src/lib.rs:447-455 | A pin row read as inactive or zero after the slot was retired really has nobody relying on that slot, although the flag and the counter are read at different moments. |
| ArenaPins.CopyLeavesIntact | arena/src/lib.rs:764-781 | A byte copied into a cleared window leaves intact every record that is published or that a reader relies on. |
| ArenaPins.StoreKeeps | arena/src/lib.rs:783-801 | The ten words and the state of a slot are written while nobody can rely on it, and publication makes the slot exactly the published record. |
| ArenaPins.StepKeepsInvariant | arena/src/lib.rs:662-1019 | Every atomic step of readers, writer, crash, death, reclaim and claim keeps the protocol invariant. |
| ArenaPinsRuns.ExecutionKeepsInvariant | arena/src/lib.rs:662-1019 | The invariant holds in every reachable state, for any geometry and any number of threads. |
| ArenaPlan.StepKeepsIndexed | arena/src/lib.rs:714-801 | Every atomic step of a writer that names its slots as the code does, beside readers, deaths and reclaims, keeps the raw slots an index: chains, unique keys, separate spans, fresh generations. |
| ArenaPlanRuns.IndexStaysWellFormed | arena/src/lib.rs:714-801 | In every interleaving of lookups, deaths, reclaims, writer crashes and such writes, the slots are at every instant a well formed index in the sense of `ArenaIndex`, and the pins that readers rely on are the ones it holds. |
| ArenaWalk.WalkReachesKey | arena/src/lib.rs:626-652 | A lock-free walk never goes past a key that is live throughout it: it ends neither at an EMPTY slot nor at the end of the chain. |
| ArenaWalk.WalkFindsKeyUnlessTorn | arena/src/lib.rs:626-652 | Such a walk ends at the slot that holds the key, or at an earlier one that never held it meanwhile and whose state and two key words were not loaded from one record. |
| ArenaWalk.CallFindsKey | arena/src/lib.rs:645-692 | The call at the slot of a key live throughout never fails at a look, although pins, evictions and writes go on around it: only a full pin counter or a death ends it without its entry. |
| ArenaWalk.CallElsewhereMisses | arena/src/lib.rs:662-692 | While a key is live in one slot, a call for it at another slot never comes to an entry, whatever is written there meanwhile. |
| ArenaWalk.GetFindsKeyIff | arena/src/lib.rs:626-692 | A `get` of a key live throughout, over and not ended by a full pin counter or a death, has its entry if and only if its walk came to the slot of the key; otherwise an earlier slot was torn. |
| ArenaTornWalk.TornWalkMisses | arena/src/lib.rs:641-649 | That happens: in an execution of two slots a walk meets the low word of the record that comes and the high word of the one that leaves, stops there, and the call ends without an entry while the key is live in the second slot. |
| ArenaIndex.RetiringOnlyForgets | arena/src/lib.rs:1011-1019 | Retiring slots only removes answers: whatever is still answered is answered as before. |
| ArenaIndex.EvictingForgetsItsName | arena/src/lib.rs:830-842 | Retiring one published slot removes exactly its name from what the arena answers. |
| ArenaIndex.InstallKeepsWellFormed | arena/src/lib.rs:783-801 | Installing into a slot of the key's probe chain keeps one live slot per key, no EMPTY slot before a live key, and the spans of all published and pinned slots inside the ring and apart. |
| ArenaIndex.InstallAddsItsName | arena/src/lib.rs:764-801 | After the bytes and the words are written, the new record is answered under its name and every other name answers exactly as before. |
| ArenaIndex.DeathMidPutIsHarmless | arena/src/lib.rs:756-800 | A writer that dies between its reservation and its publication, with any bytes of its window and any words of its slot written, leaves the index well formed, every answer as it was and every held entry intact. |
| ArenaIndex.RetiringKeepsWellFormed | arena/src/lib.rs:1011-1019 | Retiring any slots keeps the probe chains, the uniqueness of keys and the separation of spans. |
| ArenaIndex.PinsKeepWellFormed | arena/src/lib.rs:457-469 | Pins on published slots, and the loss of any pins, keep the separation of spans. |
| ArenaIndex.EmptyRecordAlwaysFits | arena/src/lib.rs:956-1009 | A record of no bytes is never refused for pinned spans, whatever is pinned. |
| ArenaIndex.MeetsIff | arena/src/lib.rs:977-985 | The overlap test says that the window and the span share a byte, or that one of them is empty and lies strictly inside the other. |
| ArenaSearch.SearchAdvances | arena/src/lib.rs:970-1005 | Each blocked attempt is charged to a different pinned span whose end the cursor moved to, or else every window is already known to be blocked. |
| ArenaSearch.SearchExhausted | arena/src/lib.rs:965-969 | More attempts than slots is proof that every window of the ring is blocked, so the bound on attempts gives up nothing. |
| ArenaCost.FailedSearchPassesAll | arena/src/lib.rs:956-1009 | Whatever is pinned and wherever the cursor stands, the attempts of a search that must fail leave no window unseen: each was passed by a pinned span that an attempted window met. |
| ArenaSearch.RetiringKeepsTried | arena/src/lib.rs:964-1005 | Where a search looks depends on the pinned spans alone, so retiring records on the way, or before it, never sends it elsewhere. |
| ArenaObject.Arena.Sweep | arena/src/lib.rs:977-1001 | One attempt retires exactly the unpinned slots the window meets, and reports the furthest end of a pinned one. |
| ArenaObject.Arena.Place | arena/src/lib.rs:970-975 | The absolute cursor stands for its remainder in the ring, or for the front when the record would wrap. |
| ArenaObject.Arena.Allocate | arena/src/lib.rs:956-1009 | Allocation fails if and only if every window of that length meets a pinned span; otherwise it takes the first window in ring order from the cursor that meets none and moves the cursor past the record. Either way it retires every unpinned slot that an attempted window met, and nothing else. |
| ArenaObject.Arena.FindLocked | arena/src/lib.rs:895-911 | The probe finds the slot that names the key, and stopping at an EMPTY slot proves that none does. |
| ArenaObject.Arena.FreeSlotLocked | arena/src/lib.rs:915-951 | The first empty or unpinned retired slot of the chain, or else, under index pressure, the unpinned record of the least generation; none if and only if every slot is pinned; the slot returned is reachable on the chain. |
| ArenaObject.Arena.Reclaim | arena/src/lib.rs:470-488 | Clears exactly the rows of dead owners and returns the pins they held; the caller's row and every living owner's row are untouched. |
| ArenaObject.ReclaimLeavesLivingPins | arena/src/lib.rs:470-488 | After a reclaim the slots held are exactly those pinned by living owners. |
| ArenaObject.Arena.AllocateOrReclaim | arena/src/lib.rs:733-740 | With the retry, allocation fails if and only if the pins of living readers alone block every window; what it retires is exactly what the first search, and after its failure the second, swept away. |
| ArenaObject.Arena.Room | arena/src/lib.rs:733-750 | Room for a record is refused if and only if living readers' pins block every window or hold every slot; what is returned is a slot on the chain and a window no reader can see. |
| ArenaObject.Arena.MakeRoom | arena/src/lib.rs:724-750 | Before it writes, a put has retired exactly the record its key named and what its searches met, and has a reachable slot and a window nobody reads, or has found that living readers leave neither. |
| ArenaObject.Arena.Install | arena/src/lib.rs:764-801 | Writing and publishing adds exactly one name to what the arena answers and leaves every held entry's bytes alone. |
| ArenaObject.Arena.WriteRecord | arena/src/lib.rs:714-801 | After a successful put or store the name answers the record and every other name answers as before or misses; it is refused for size, for pins or for exhausted generations exactly when it should be; an oversized record changes nothing. After a success or a refusal for pins every slot, but the one written, is retired exactly when it carried the key or lay in the way of the searches, and is otherwise as it was; entries of living readers keep their words and bytes, and a record such a reader holds is not even retired by a put under another key. |
| ArenaCost.RefusalKeepsViewIff | arena/src/lib.rs:714-750 | A put refused for pins leaves every answer as it was if and only if no published record carries its key or lies in the way of its searches. |
| ArenaCost.RefusalEmptiesRing | arena/src/lib.rs:732-739 | A put that finds no bytes retires every record that no living reader pins, wherever the cursor stood, but for empty records and those closer to the end of the ring than the length asked for. |
| ArenaCost.RefusedPutLosesAnother | arena/src/lib.rs:732-739 | Such a state exists: a put of two bytes into a ring of eight is refused and the record of another key is lost. |
| ArenaCost.BlockedByNothingIff | arena/src/lib.rs:977-1001 | In a ring of any size, well formed pins without a single byte among them can refuse a reservation if and only if it asks for two bytes or more. |
| ArenaObject.Arena.Get | arena/src/lib.rs:626-692 | Returns the record the key names and pins it once more; it misses only an absent key or one whose pin counter is exhausted. |
| ArenaObject.Arena.GetAddress | arena/src/lib.rs:655-692 | Returns exactly the record stored at that slot and generation, pinned, or nothing. |
| ArenaObject.Arena.Release | arena/src/lib.rs:1143-1151 | Dropping an entry gives back exactly its own pin. |
| ArenaObject.Arena.Forget | arena/src/lib.rs:828-842 | Removes exactly the key's name and says whether there was one. |
| ArenaObject.Arena.ForgetAddress | arena/src/lib.rs:803-819 | Removes exactly the addressed generation and nothing else. |
| ArenaObject.Arena.Reset | arena/src/lib.rs:844-860 | Everything misses afterwards, held entries keep what they read, and the count returned is the number of records there were. |
| ArenaObject.Arena.constructor | arena/src/lib.rs:1022-1045 | A new arena is well formed, answers nothing and pins nothing. |
| CacheReplay.SortByRevision | cache/src/observer.rs:94-100 | The collected mutations in revision order: a sorted permutation. |
| CacheReplay.ReplayMutations | cache/src/observer.rs:94-121 | The sort and the pass that inserts, removes or clears compute the replay function. |
| CacheReplay.ReplayIsLastWriteWins | cache/src/observer.rs:94-121 | The replay gives each key exactly what its latest put, delete or reset wrote. |
| CacheReplay.ReplayIgnoresOrder | cache/src/observer.rs:94-121 | The replay does not depend on the order or the multiplicity in which mutations were collected. |
| LocalCacheModel.HitIsLastWriteWins | cache/src/local.rs:103-135 | In every run of puts, deletes, resets, expiring reads, evictions, resyncs and covered recoveries, a hit carries exactly the entry that the sorted replay of all mutations applied since the last transport reset gives for the key. |
| LocalCacheModel.RecoveryCoversIff | cache/src/local.rs:160-177 | A recovery keeps every mutation accounted for if and only if the floor it is given reaches every resident slot; a floor at or above everything applied does. |
| LocalCacheModel.RecoveryServesStaleIff | cache/src/local.rs:160-177 | After a recovery some delayed put can be served as a stale hit if and only if a resident key was left two or more sequences above the new floor, or one above it with an older revision of that sequence still free for the key. |
| LocalCacheModel.UncoveredRecoveryServesStale | cache/src/local.rs:160-177 | When the recovery floor is below a resident slot, any delayed older put above it is served as a hit. |
| LocalCacheModel.OrderIndependent | cache/src/local.rs:187-260 | The same mutations, in any order and with any duplicates, give the same floor and the same slots, when the keys fit the capacity. |
| LocalCacheModel.AgreesUnlessTied | cache/src/local.rs:187-260 | When the keys fit and payloads resolve, the cache agrees with the replay on a key if and only if the put that decides the key does not share its sequence with a reset. |
| LocalCacheModel.FullAgreement | cache/src/local.rs:187-260 | When the keys fit, sequences are distinct, as those one ring hands out are, and payloads resolve, the cache holds a value exactly when the replay does, and the same one. |
| LocalCacheModel.TiedSequenceIsAMiss | cache/src/local.rs:305-358 | Every reset and put of one sequence and a greater identity leave the replay with the value and the cache with a miss. |
| LocalCacheModel.PutSlotKeeps | cache/src/local.rs:305-340 | Storing a slot, with the eviction and the floor it causes, keeps every applied mutation accounted for. |
| LocalCacheModel.StepKeepsInvariant | cache/src/local.rs:103-358 | Every operation on the local cache keeps the coherence invariant. |
| LocalCacheModel.RunKeepsInvariant | cache/src/local.rs:103-358 | The coherence invariant holds along every run. |
| LocalCacheObject.LocalCache.constructor | cache/src/local.rs:82-94 | A new cache is empty, coherent with its empty history and has no floor. |
| LocalCacheObject.LocalCache.AdvanceFloor | cache/src/local.rs:341-358 | Raising the floor pops exactly the slots it covers. |
| LocalCacheObject.LocalCache.PutSlot | cache/src/local.rs:312-340 | Stores a newer slot, evicts the least recently used one at capacity and raises the floor to the evicted revision. |
| LocalCacheObject.LocalCache.Apply | cache/src/local.rs:187-260 | Applies one delivered mutation, reports whether it was applied, ignored or left without payload, and stays coherent with the history it extends. |
| LocalCacheObject.LocalCache.InstallLocal | cache/src/local.rs:262-302 | Installs a local put, delete or reset under the same acceptance rule and stays coherent. |
| LocalCacheObject.LocalCache.ReadAt | cache/src/local.rs:103-135 | A read promotes its key, leaves a marker where the entry has expired or its payload is gone, and in a coherent cache hits only on what the latest mutation of the key put there. |
| LocalCacheObject.LocalCache.RequireResync | cache/src/local.rs:156-162 | Drops every slot, keeps their greatest sequence as floor, refuses reads and stays coherent. |
| LocalCacheObject.LocalCache.RecoverFromBacking | cache/src/local.rs:164-177 | A coherent cache is still accountable for its whole history after a recovery if and only if the new floor reaches every slot that was resident; a floor read from the ring always does. |
| LocalCacheObject.LocalCache.ResetAfterTransportReset | cache/src/local.rs:179-185 | Returns the cache to its empty state. |
| AuthSlot.ReadIsWhatWasPublished | auth/src/table.rs:249-266 | In every interleaving of word stores, word loads and writer crashes, the wire a reader returns under a revision is the wire whose store published that revision, complete and current at one instant of the read. |
| AuthSlot.PublishedOnce | auth/src/table.rs:267-286 | A revision is published at most once, so equal revisions mean equal wires. |
| AuthSlot.CrashLeavesPreviousReadable | auth/src/table.rs:267-286 | Wherever a writer dies before publishing, an undisturbed read still returns the record that was current when the store began. |
| AuthSlot.StepKeepsInvariant | auth/src/table.rs:249-286 | Every word access keeps the two-bank invariant. |
| AuthTable.WordsRoundTrip | auth/src/table.rs:182-217 | Decoding inverts encoding on sound records and accepts exactly the encodings of sound records. |
| AuthTable.FindIsExact | auth/src/table.rs:505-516 | A locked find returns the slot of a key if and only if one holds it. |
| AuthTable.PublishKeepsChained | auth/src/table.rs:550-573 | Publication never makes a slot vacant, changes the key of a slot only once its record has expired, and keeps every key findable. |
| AuthTable.MissMeansAbsentAtSomeInstant | auth/src/table.rs:478-503 | A lock-free scan that misses proves that the key was absent at some instant between its first and last slot read. |
| AuthTable.PresentThroughoutIsSeen | auth/src/table.rs:478-503 | A key present throughout the scan is never missed. |
| AuthTable.LookupIsLinearizable | auth/src/table.rs:428-441 | A lookup, however it ends, answers what the locked table answers at one instant of the call. |
| AuthTable.ProbesEverySlotIff | auth/src/table.rs:478-516 | The wrapping probe chain visits every slot if and only if the capacity divides 2^64 or the chain does not wrap. |
| AuthTable.FullIff | auth/src/table.rs:550-573 | An insertion finds no room exactly when no probed slot is vacant or expired. |
| AuthTable.FullWithVacancyIff | auth/src/table.rs:478-516 | For every first key word and every capacity, some sound table reports itself full for the key with a vacant slot left if and only if the capacity does not divide 2^64 and the chain wraps. |
| AuthTable.WrappedChainSkipsSlot | auth/src/table.rs:478-516 | With three slots and a first key word at the top of its range the chain visits two of them only, and a table with the third vacant reports itself full. |
| AuthTableObject.Table.constructor | auth/src/table.rs:305-341 | A new table is chained and holds nothing. |
| AuthTableObject.Table.Find | auth/src/table.rs:505-516 | The probing loop computes the find function. |
| AuthTableObject.Table.Store | auth/src/table.rs:267-286 | Validates, then publishes under the next revision; a refused store changes nothing. |
| AuthTableObject.Table.Insert | auth/src/table.rs:550-573 | Stores into the first vacant or expired slot of the chain, or reports a full table and changes nothing. |
| AuthTableObject.Table.SubjectSessions | auth/src/table.rs:520-548 | Collects the live sessions of one subject in slot order, or refuses one from the future. |
| AuthFleet.ViewCacheIsTransparent | auth/src/fleet.rs:504-591 | Whatever was published before, between and after its two steps, even halfway through an operation, a check through the local view cache answers as a fresh table lookup does at one instant of the check. |
| AuthFleet.RevokedForEver | auth/src/fleet.rs:554-570 | Once a session's record is revoked, by whichever operation, no check of any of its credentials ever succeeds. |
| AuthFleet.RevokedNeverValidates | auth/src/fleet.rs:313-337 | After a completed revocation the session never validates again. |
| AuthFleet.RevokedSubjectNeverValidates | auth/src/fleet.rs:231-258 | After a completed revocation of a subject, however its writes were spread, no session it had live when it began validates again. |
| AuthFleet.SubjectRevocationLands | auth/src/fleet.rs:231-258 | It revokes every live session of the subject and touches nothing else. |
| AuthFleet.HorizonAndGenerationNeverFall | auth/src/fleet.rs:367-441 | While a session's record stands its expiry and its refresh generation never decrease, and its creation time and subject never change. |
| AuthFleet.RefreshSucceedsOnce | auth/src/fleet.rs:407-441 | Of all refreshes that present the same session and generation, at most one completes. |
| AuthFleet.AdmittedAgainOnlyAfterExpiry | auth/src/fleet.rs:635-680 | A jti is admitted a second time only after the credential first admitted under it has expired. |
| AuthFleet.AdmittedAtMostOnce | auth/src/fleet.rs:635-680 | A credential, or any that shares its jti and does not outlive it, is admitted at most once although its slot may be reused. |
| AuthFleet.JtiReturnsIff | auth/src/fleet.rs:635-680 | In a table of any size in which another jti has the same first slot, some run admits one credential and later another of its jti if and only if the other outlives it. |
| AuthFleet.SessionLimitHolds | auth/src/fleet.rs:173-227 | After a limited creation the subject has at most the limit of live sessions, the new one among them, and every session revoked is older than every one kept. |
| AuthFleet.SessionLimitHoldsInRuns | auth/src/fleet.rs:173-227 | The limit holds in a run when a limited creation completes, whatever happened between its writes. |
| AuthFleet.CompletedPublishes | auth/src/fleet.rs:173-441 | An operation whose writes are spread over a run, with checks in between, has at its completion done exactly what it does at once. |
| AuthFleet.SessionsOnlyAge | auth/src/fleet.rs:173-441 | A session's record only evolves, or disappears for good once it has expired. |
| AuthFleet.PlanShape | auth/src/fleet.rs:173-441 | Every operation begins with an update of a held key that its record allows, or with an insertion of its fresh key into a reusable slot, and goes on with updates of distinct other records. |
| AuthFleet.RunKeepsInvariant | auth/src/fleet.rs:173-680 | The table and view invariants hold along every run, including operations still under way or cut off between two writes. |
| AuthFleet.SubjectIsExact | auth/src/table.rs:520-548 | The subject scan returns exactly the live sessions of the subject, each once, and fails exactly when one lies in the future. |
| AuthFleetObject.RanPublishes | auth/src/fleet.rs:173-441 | What each locked operation does in place is its publication in the run model, and it reports success exactly when that publication succeeded. |
| AuthFleetObject.Fleet.Create | auth/src/fleet.rs:173-227 | Stores the new session first and then revokes the oldest excess ones; a refused creation revokes nothing. |
| AuthFleetObject.Fleet.RevokeSession | auth/src/fleet.rs:313-337 | Publishes the revocation of one session, or refuses it and changes nothing. |
| AuthFleetObject.Fleet.RevokeSubject | auth/src/fleet.rs:231-258 | Writes back every live session of the subject as revoked and returns how many. |
| AuthFleetObject.Fleet.ExtendSession | auth/src/fleet.rs:367-400 | Moves one live session's expiry forward, never back. |
| AuthFleetObject.Fleet.ExtendSubject | auth/src/fleet.rs:262-308 | Validates every target before writing any, then writes exactly the ones that move and counts them. |
| AuthFleetObject.Fleet.Refresh | auth/src/fleet.rs:407-441 | Consumes the presented generation by writing the next one. |
| AuthFleetObject.Fleet.Admit | auth/src/fleet.rs:635-680 | Checks the session and stores the one-use mark under one lock. |
| Gcra.New | quota/src/gcra.rs:100-111 | An algorithm is built exactly when one burst fits the integer width, and is then well formed. |
| Gcra.Prepare | quota/src/gcra.rs:113-125 | A cost is charged exactly when it fits the burst, and the charge is between one tick and one capacity. |
| Gcra.NewPolicy | quota/src/contract.rs:76-87 | A policy is refused exactly when its period is zero. |
| Gcra.WindowBound | quota/src/gcra.rs:151-168 | In every run with a non-decreasing clock, whatever was denied or failed in between, the charges admitted by requests i to j sum to at most one burst plus the scaled time between them. |
| Gcra.RefusalsLeaveNoTrace | quota/src/gcra.rs:113-168 | Removing every denied or failed request from a run changes neither the final state nor what is admitted. |
| Gcra.SimulatesTokenBucket | quota/src/gcra.rs:151-168 | The algorithm admits exactly the requests an integer token bucket admits. |
| Gcra.RetryAfterIsLeastDelay | quota/src/gcra.rs:136-145 | Waiting d whole nanoseconds with no other charge admits the same charge if and only if d is at least the reported delay; the delay fails to be reported exactly when it does not fit a Duration. |
| Gcra.RemainingIsLargestAdmissible | quota/src/gcra.rs:89-99 | The reported remainder is the largest cost still admissible at the same instant, never underflows and loses nothing in its narrowing. |
| Gcra.FailureIsExactlyRange | quota/src/gcra.rs:113-168 | A request fails exactly when its cost exceeds the burst or a sum leaves the integer width. |
| Gcra.ForgettingReplenishedDebtIsTransparent | quota/src/memory.rs:419-464 | Dropping a record changes no evaluation if and only if its arrival time is not in the future or a sum is out of width; it changes the decision itself unless, moreover, the burst has room for the recorded debt and the charge, or no room for the charge alone. |
| ClientPoolRuns.CountersAreExact | client-pool/src/pool.rs:159-253 | In every reachable state, wherever futures were dropped, live is idle plus creating plus checked out, in flight is checked out plus admitted creates, waiting is the queued futures, the four limits hold, and no saturating subtraction of the next step saturates. |
| ClientPoolRuns.NothingLeaks | client-pool/src/reservation.rs:26-103 | When every future has finished or been dropped, only idle clients are counted. |
| ClientPool.NothingSaturates | client-pool/src/pool.rs:680-774 | In a state whose books balance no step subtracts more than is there. |
| ClientPool.StepConserves | client-pool/src/pool.rs:159-774 | Every critical section keeps the books balanced and the limits. |
| ClientPool.StepKeepsInvariant | client-pool/src/pool.rs:159-774 | Every critical section of every future keeps the books, the limits and the cancellations, and no subtraction of it saturates. |
| ClientPool.AdmitBalances | client-pool/src/pool.rs:159-253 | One turn of the acquire loop moves the counters exactly as the phase it leads to owns them. |
| ClientPool.AdmitDecides | client-pool/src/pool.rs:174-212 | An expired client is never handed out, the longest idle fresh one is reused, a client is created only when none is fresh and there is room, and a request waits or is refused for the queue only when neither is possible. |
| ClientPool.ExpiredIff | client-pool/src/pool.rs:1036-1059 | A client is expired exactly when its idle time or its lifetime has run out. |
| ClientPoolRuns.DrainedForEver | client-pool/src/pool.rs:463-512 | Once a drain has returned nothing is live, idle, creating or in flight for ever, and all counts are zero exactly when every queued future has been polled again or dropped. |
| ClientPoolRuns.DrainMayReturnWithWaitersIff | client-pool/src/pool.rs:463-512 | Some execution has a drain return while a queued future is still counted if and only if the options allow queueing. |
| ClientPoolRuns.DrainSignalsLeases | client-pool/src/pool.rs:566-611 | After a drain has begun, a lease to be cancelled on drain is cancelled or about to be by the drain that took its token; a preserved one, or any before a drain, never is. |
| ClientPoolRuns.DrainSignalsAfterGrace | client-pool/src/pool.rs:993-1019 | A lease whose grace is over is signalled at the drain's next look. |
| ClientPool.StepKeepsCancellations | client-pool/src/pool.rs:566-611 | Registration, release and every drain keep each lease tracked by its registration or its issued cancellation. |
| ClientPoolWakeRuns.NoSleeperForgotten | client-pool/src/pool.rs:159-253 | In every reachable world, an acquire, a wait for a paused pool or a drain that is asleep although a look now would serve it has been notified since it began to listen, or some critical section has yet to notify; creations, warm creations, idle acquires and polls need not notify. |
| ClientPoolWake.QuietSectionServesNobody | client-pool/src/pool.rs:680-774 | A critical section that does not notify never turns a state with nothing for a sleeper into one with something for it. |
| ClientPoolWakeRuns.NotificationReachesAll | client-pool/src/pool.rs:785-822 | One notification lets every sleeper wake, the ones it does not serve included. |
| ClientPoolWake.EventKeepsInvariant | client-pool/src/pool.rs:159-253 | Listening, sleeping, waking, notifying and every critical section keep the invariant of sleepers, on top of the books. |
| ClientPoolObject.Pool.constructor | client-pool/src/pool.rs:115-140 | A new pool is open and empty, and its books balance with no futures around it. |
| ClientPoolObject.Pool.TryAdmit | client-pool/src/pool.rs:174-212 | One turn of the acquire loop is its future's step of the system: the books still balance, and the future owns what the answer says it got. |
| ClientPoolObject.Pool.TryOpen | client-pool/src/pool.rs:614-640 | The future waits again exactly when the pool is paused and it is queued or the queue has room; the queue grows by one only when it enters and shrinks by exactly one when it leaves, and the books balance. |
| ClientPoolObject.Pool.DropWaiter | client-pool/src/pool.rs:909-919 | A future dropped while queued gives back exactly its place in the queue. |
| ClientPoolObject.Pool.PruneExpired | client-pool/src/pool.rs:766-774 | The retained idle clients are exactly the unexpired ones and live falls by the rest. |
| ClientPoolObject.Pool.PruneNow | client-pool/src/pool.rs:761-774 | Exactly the expired idle clients leave, live falls by exactly as many, and the books balance. |
| ClientPoolObject.Pool.CreateNow | client-pool/src/pool.rs:273-299 | A direct creation is its future's step of the system: refused, or owned by the future that asked. |
| ClientPoolObject.Pool.AcquireIdleWhere | client-pool/src/pool.rs:327-350 | Takes the first idle client that matches and has not expired, and the books balance. |
| ClientPoolObject.Pool.DiscardIdleWhere | client-pool/src/pool.rs:370-387 | Retires exactly the first matching idle client, and says whether one matched; live falls by exactly one or not at all. |
| ClientPoolObject.Pool.ReserveWarmCreate | client-pool/src/pool.rs:719-730 | A reservation is owned by the future that asked, takes no concurrency slot and never takes the pool past its warm floor or its limit; it is refused only when it would, or when admission is not open. |
| ClientPoolObject.Pool.FinishCreation | client-pool/src/pool.rs:680-695 | Ending a creation gives back exactly what the reservation took unless the lease keeps it: no subtraction stops short at zero, and the books balance. |
| ClientPoolObject.Pool.FinishWarmCreation | client-pool/src/pool.rs:697-717 | A warm client joins the idle queue and stays counted, or is gone and no longer counted; it is gone exactly when the pool is full, draining or closed. |
| ClientPoolObject.Pool.Retire | client-pool/src/pool.rs:732-738 | A client given up or failed in recycling leaves live and in flight smaller by exactly one, and the books balance. |
| ClientPoolObject.Pool.Return | client-pool/src/pool.rs:740-759 | A returned lease frees exactly one concurrency slot, and its client is either idle again or no longer live. |
| ClientPoolObject.Pool.CloseAdmission | client-pool/src/pool.rs:450-460 | Afterwards no operation hands out, creates or reserves a client, nothing is idle and live counts exactly what futures still own. |
| ClientPoolObject.Pool.PauseAdmission | client-pool/src/pool.rs:515-525 | Afterwards no operation hands out, creates or reserves a client, and everything else is as it was; a draining or closed pool stays so. |
| ClientPoolObject.Pool.RegisterActive | client-pool/src/pool.rs:566-600 | The lease is from then on tracked, under an id nobody holds, or its cancellation is issued at once; the cancellation invariant of whole executions is kept. |
| ClientPoolObject.Pool.UnregisterActive | client-pool/src/pool.rs:602-611 | Every lease but the one that ends keeps its registration. |
| ClientPoolObject.Pool.TakeDueCancellations | client-pool/src/pool.rs:993-1019 | Takes exactly the registrations that are due and returns their tokens. |
| ClientPoolObject.Pool.StartDrain | client-pool/src/pool.rs:463-480 | Afterwards no operation hands out, creates or reserves a client, the start of the drain is fixed once, the idle clients are gone from live one for one, and the drain holds the tokens it must cancel. |
| ClientPoolObject.Pool.LookAtDrain | client-pool/src/pool.rs:486-500 | The drain returns exactly when nothing was live, and then nothing is idle, creating or in flight either; otherwise it holds the tokens due by now. |
| CellWakeRuns.NoLostWake | cell/src/wake.rs:26-71 | No reachable state has a thread parked while the version has moved or its interrupt flag is up, unless a notifier step is pending, although a canceller with a stale handle leaves without one; the one exception is a wait begun before a since released cell had reached its version. Saturation of the parking sequence is inside the statement. |
| CellWakeRuns.OwedWakeArrives | cell/src/wake.rs:26-47 | Four further steps of that notifier wake every parked thread. |
| CellWakeStranded.StrandedIff | cell/src/lib.rs:716-746 | A cell at a version can have a wait put to sleep through its interrupt for good if and only if the wait began for a version the cell had not reached. |
| CellWakeStranded.WaitAheadMayBeStranded | cell/src/lib.rs:716-746 | The exception is real for every version and every later one waited for: writes, a release and a canceller leave the wait parked with its flag up and nobody left to wake it. |
| CellWakeRuns.CountersExact | cell/src/wake.rs:49-71 | The waiter count is the number of registered threads, and no word ever wraps or moves back. |
| CellWake.StepKeepsInvariant | cell/src/lib.rs:665-746 | Every atomic step of waiters, writers, releases and cancellers keeps the wake invariant. |
| CellTableRuns.OperationTouchesItsOwnGeneration | cell/src/lib.rs:579-680 | However long an operation stalls after validating its handle, the slot it then touches is in its own generation and nobody is installing another, across release, reset, dead-owner reclaim and reuse of owner rows. |
| CellTableRuns.InstallNeedsNoLease | cell/src/lib.rs:441-489 | An install begins only once every lease of every owner on the slot is gone. |
| CellTableRuns.IdsAreIssuedOnce | cell/src/lib.rs:1014-1031 | No id is ever issued twice. |
| CellTableRuns.StaleForEver | cell/src/lib.rs:521-558 | An id that was released, reset or reclaimed never names a live cell again. |
| CellTableRuns.ExhaustedIsNeverReused | cell/src/lib.rs:441-489 | A slot whose generations have run out is never allocated again. |
| CellTableRuns.LeasesAreCounted | cell/src/lifetime.rs:26-128 | Every lease of a living owner is counted one for one, so no drop underflows. |
| CellTable.ScanKeeps | cell/src/lifetime.rs:38-51 | A scan of all owner rows that finds none pinned, row by row, proves that no handle is left, although handles are dropped meanwhile. |
| CellTable.StepKeepsInvariant | cell/src/lib.rs:441-556 | Every atomic step of the structural operations, unlocked operations, deaths, reclaims and claims keeps the fencing invariant. |
| CellTable.ClearPinKeeps | cell/src/lifetime.rs:74-102 | Clearing a dead owner's counters, in any order, keeps every fence. |
| CellTable.ClaimKeeps | cell/src/lifetime.rs:163-194 | Giving a cleared row to a new process keeps every fence. |
| CellClaim.NeverPassesTheLimit | cell/src/lib.rs:821-855 | However many callers race, the value never passes the limit, is exactly what was taken on top of where it began, and each answer is the amount and the total of one successful swap. |
| CellClaim.NothingLeftUnclaimed | cell/src/lib.rs:821-855 | Once any caller is told that the limit is reached, exactly the whole distance has been taken. |
| CellClaim.ClampingIsHarmless | cell/src/lib.rs:805-838 | Clamping the distance to the limit changes nothing and the sum never overflows. |
| LinkBell.NoLostBell | link/src/receiver.rs:69-106 | While bell sends succeed, a receiver asleep on its socket with a committed frame in its lane, or with the directory moved, has a datagram waiting or a writer that has yet to ring, for any number of writers and stale bells. |
| LinkBell.OwedBellArrives | link/src/inbox.rs:1121-1141 | Three further steps of that writer put a datagram in the socket. |
| LinkBell.WokenReceiverAnswers | link/src/receiver.rs:69-106 | A woken receiver drains stale bells and then reports the moved directory or takes the frame, never sleeping on either. |
| LinkBell.FailedSendStrands | link/src/inbox.rs:1492-1505 | One failed bell leaves a sleeping receiver on a committed frame with nobody left to ring. |
| LinkBell.StepKeepsInvariant | link/src/inbox.rs:1121-1209 | Every atomic step of writers, directory changes and the receiver keeps the bell invariant. |

## Left out

Shapes and widths

- The arena cursor is an unbounded integer; that adding to it near the end of its 64-bit
  range would overflow is not modelled. Generations, pins and record limits are bounded as in
  the source.
- Value versions of cells and change words of lanes do not wrap in `CellWake` and `LinkBell`;
  in `CellTable` the change count wraps as in the source. Waiter counts have no upper bound.
- Loads and stores that the source marks relaxed or acquire and release are steps of one
  sequentially consistent memory. The arguments use only the operations marked SeqCst for
  ordering between readers and the writer; weaker reorderings of the rest are not modelled.
- Durations and deadlines are natural numbers, so a deadline that overflows the clock is not
  modelled in the pool; registration ids of its leases do not wrap.
- Slot counts of the arena are any positive number; the source masks a power of two, which is
  the same remainder.

Arena

- The second look at the pins after a slot is retired, and the retry over victims in the slot
  search, matter only when a reader arrives in between; they are in `ArenaPins`, while
  `ArenaObject` runs each operation alone.
- The arena kept in process memory has one row and never reclaims; `ArenaObject` models the
  shared one.
- The locked probe of a put, `find_locked` and `free_slot_locked`, is one step in `ArenaPlan`:
  nobody else writes meanwhile, but a reader's pin may come or go between its looks.
- Process identity checks after fork, shared-memory naming, header validation, `unlink`,
  `len`, `ArenaReader` and the conversion of entries into owners.

Cache

- Layouts, wire codecs, the pump from the transport and `Cache::open_store` in mid-stream: the
  theorems are per local cache, about the mutations handed to it since the last transport
  reset.
- Arena payloads are a finite map that does not change during one operation.

Auth

- Encryption, message authentication and key derivation: derivation is abstract and injective
  and decoding is the inverse of encoding, so tampering and rollback by another writer of the
  segment are not modelled.
- `unchanged` compares revisions only; protected policies also compare the stored bytes.
- Eviction of session views by age: any view may be dropped at any time.
- `AuthFleet.JtiReturnsIff`: its run is built for credentials without a session, in a table of
  two slots or more; `AuthFleet.AdmittedAtMostOnce` is about all credentials and tables.
- Clocks of successive operations that run backwards; a check may bring any clock.
- Label validation, randomness failures, issuance of tokens, `Session` handles and
  `check_lapsed`.

Quota

- Stores, key hashing and contention: one record at a time.

Client pool

- `run` is not followed as one future; its prune, warm creation and drain steps are all in the
  model and may happen in any order.
- Timeouts and caller cancellation are not told apart: any future may be dropped or fail at any
  time. In `ClientPoolWake` a woken future listens before it looks again, as in the source; a
  waking is one event.
- `cancel_active`, which signals every lease on request, and the token hierarchy behind it.
- Poisoned mutexes and panics inside manager futures.

Cells

- Text cells, their owner rows and writer recovery: their files are not part of this model.
- The allocation hint, which only decides where a probe starts; the order in which slots are
  probed is free in the model.
- Deaths in `CellWake`: a waiter that dies leaves the count of waiters too high for good, which
  costs later writers a needless wake; a notifier that dies between its write, its flag or its
  release and its wake leaves the sleepers to the next one.
- Reads of the value through `f64`, `bool` and `u64` and the other arithmetic of a cell.

Link

- Death of a writer between its commit and its bell, which leaves the frame to the next bell.
- Reservation, commit and consumption of frames inside the inbox are one step each; the futex
  path of blocking receivers, watchers, the `consumers` check and producer recovery are left
  out.

Not modelled at all: counters, locks, pools of resources, streams, events, metrics, the
command line, benches and error texts; they are plumbing or simpler instances of the above.
