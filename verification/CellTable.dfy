/** Generation fencing of the cell table (`cell/src/lib.rs`, `cell/src/lifetime.rs`): slots
    are reused under one structural lock, operations on handles take no lock at all, and an
    operation may stall anywhere, its process may die, and a dead owner's row of pin counters
    may be cleared and given to a new process.  One atomic access is one step. */
module CellTable {

  const U32_MAX: nat := 0xFFFF_FFFF
  const TWO_TO_32: nat := 0x1_0000_0000

  datatype CellState = Empty | Occupied | Retired
  datatype Cell = Cell(state: CellState, tag: nat, generation: nat, value: nat, changes: nat)
  datatype Id = Id(slot: nat, generation: nat)

  /** One lease on a slot; every clone of an `Orbital` shares it. */
  datatype Handle = Handle(row: nat, id: Id)

  datatype Pc = CheckState | CheckGeneration | Acting | Finished(stale: bool)
  datatype Op = Op(handle: nat, row: nat, id: Id, pc: Pc)

  /** What a validated operation does next with its slot; `Again` is the loop of a wait. */
  datatype Access = Load | Write(value: nat) | Bump | Again | Return

  /** Who holds the structural lock and where it stands.  `install` stores the tag, the
      value, the change count, the parking word, the generation and last the state. */
  datatype Work =
    | Idle
    | Scanning(slot: nat, tag: nat, bits: nat, next: nat)
    | Leasing(slot: nat, tag: nat, bits: nat)
    | Installing(slot: nat, tag: nat, bits: nat, generation: nat, stage: nat)
    | Announcing(slot: nat)

  datatype Holder = Free | Held(row: nat, work: Work)

  const STAGES: nat := 5

  datatype State = State(
    cells: seq<Cell>,
    pins: seq<seq<nat>>,
    alive: seq<bool>,
    handles: map<nat, Handle>,
    ops: map<nat, Op>,
    holder: Holder,
    issued: seq<Id>)

  /** A segment just created: every slot empty, no owner, no lease, nothing issued. */
  ghost predicate IsInitial(s: State) {
    && (forall i :: 0 <= i < |s.cells| ==> s.cells[i].state.Empty? && s.cells[i].generation == 0)
    && |s.alive| == |s.pins|
    && (forall row :: 0 <= row < |s.pins| ==> !s.alive[row] && |s.pins[row]| == |s.cells|)
    && s.handles == map[] && s.ops == map[] && s.holder.Free? && s.issued == []
  }

  ghost predicate Shaped(s: State) {
    && |s.pins| == |s.alive|
    && (forall row :: 0 <= row < |s.pins| ==> |s.pins[row]| == |s.cells|)
    && (forall h :: h in s.handles ==> s.handles[h].row < |s.pins| && s.handles[h].id.slot < |s.cells|)
    && (forall t :: t in s.ops ==> s.ops[t].row < |s.pins| && s.ops[t].id.slot < |s.cells|)
    && (s.holder.Held? ==> s.holder.row < |s.pins| && WorkShaped(s, s.holder.work))
  }

  predicate WorkShaped(s: State, w: Work) {
    match w
    case Idle => true
    case Scanning(i, _, _, next) => i < |s.cells| && next <= |s.pins|
    case Leasing(i, _, _) => i < |s.cells|
    case Installing(i, _, _, _, stage) => i < |s.cells| && stage <= STAGES
    case Announcing(i) => i < |s.cells|
  }

  /** `CellSlot::is` */
  predicate Is(s: State, id: Id) {
    id.slot < |s.cells| && s.cells[id.slot].state.Occupied? && s.cells[id.slot].generation == id.generation
  }

  datatype Step =
    | Claim(row: nat)
    | Die(row: nat)
    | ClearPin(row: nat, slot: nat)
    | Lock(row: nat)
    | Unlock
    | Open(h: nat, id: Id, tag: nat)
    | Probe(slot: nat, tag: nat, bits: nat)
    | Release(id: Id)
    | Reset(slot: nat)
    | RunHolder(h: nat)
    | StartOp(t: nat, h: nat)
    | RunOp(t: nat, access: Access)
    | DropHandle(h: nat)

  predicate HolderIdle(s: State) { s.holder.Held? && s.holder.work.Idle? }

  ghost predicate Enabled(s: State, step: Step)
    requires Shaped(s)
  {
    match step
    case Claim(row) => row < |s.alive| && !s.alive[row] && forall i :: 0 <= i < |s.cells| ==> s.pins[row][i] == 0
    case Die(row) => row < |s.alive|
    case ClearPin(row, i) => row < |s.alive| && !s.alive[row] && i < |s.cells|
    case Lock(row) => s.holder.Free? && row < |s.alive| && s.alive[row]
    case Unlock => HolderIdle(s)
    case Open(h, _, _) => HolderIdle(s) && h !in s.handles
    case Probe(i, _, _) => HolderIdle(s) && i < |s.cells|
    case Release(_) => HolderIdle(s)
    case Reset(i) => HolderIdle(s) && i < |s.cells|
    case RunHolder(h) => s.holder.Held? && !s.holder.work.Idle? && h !in s.handles
    case StartOp(t, h) => t !in s.ops && h in s.handles
    case RunOp(t, _) => t in s.ops && !s.ops[t].pc.Finished?
    case DropHandle(h) => h in s.handles && forall t :: t in s.ops && s.ops[t].handle == h ==> s.ops[t].pc.Finished?
  }

  function WithPin(s: State, row: nat, slot: nat, count: nat): State
    requires row < |s.pins| && slot < |s.pins[row]|
  {
    var counts: seq<nat> := s.pins[row][slot := count];
    s.(pins := s.pins[row := counts])
  }

  function WithCell(s: State, i: nat, c: Cell): State
    requires i < |s.cells|
  {
    s.(cells := s.cells[i := c])
  }

  function WithWork(s: State, w: Work): State
    requires s.holder.Held?
  {
    s.(holder := Held(s.holder.row, w))
  }

  function Bumped(changes: nat): nat { (changes + 1) % TWO_TO_32 }

  function OpenStep(s: State, h: nat, id: Id, tag: nat): State
    requires Shaped(s) && HolderIdle(s)
  {
    var row := s.holder.row;
    if !Is(s, id) || s.cells[id.slot].tag != tag || s.pins[row][id.slot] >= U32_MAX then s
    else WithPin(s, row, id.slot, s.pins[row][id.slot] + 1).(handles := s.handles[h := Handle(row, id)])
  }

  function InstallStep(s: State, h: nat): State
    requires Shaped(s) && s.holder.Held? && s.holder.work.Installing?
  {
    var w := s.holder.work;
    var c := s.cells[w.slot];
    var further := Installing(w.slot, w.tag, w.bits, w.generation, w.stage + 1);
    match w.stage
    case 0 => WithWork(WithCell(s, w.slot, c.(tag := w.tag)), further)
    case 1 => WithWork(WithCell(s, w.slot, c.(value := w.bits)), further)
    case 2 => WithWork(WithCell(s, w.slot, c.(changes := 0)), further)
    case 3 => WithWork(s, further)
    case 4 => WithWork(WithCell(s, w.slot, c.(generation := w.generation)), further)
    case _ =>
      var id := Id(w.slot, w.generation);
      WithWork(WithCell(s, w.slot, c.(state := Occupied)), Idle).(
        issued := s.issued + [id], handles := s.handles[h := Handle(s.holder.row, id)])
  }

  function HolderStep(s: State, h: nat): State
    requires Shaped(s) && s.holder.Held? && !s.holder.work.Idle?
  {
    var row := s.holder.row;
    match s.holder.work
    case Scanning(i, tag, bits, next) =>
      if next == |s.pins| then WithWork(s, Leasing(i, tag, bits))
      else if s.pins[next][i] != 0 then WithWork(s, Idle)
      else WithWork(s, Scanning(i, tag, bits, next + 1))
    case Leasing(i, tag, bits) =>
      if s.pins[row][i] >= U32_MAX then WithWork(s, Idle)
      else WithWork(WithPin(s, row, i, s.pins[row][i] + 1), Installing(i, tag, bits, s.cells[i].generation + 1, 0))
    case Installing(_, _, _, _, _) => InstallStep(s, h)
    case Announcing(i) => WithWork(WithCell(s, i, s.cells[i].(changes := Bumped(s.cells[i].changes))), Idle)
  }

  function ProbeStep(s: State, i: nat, tag: nat, bits: nat): State
    requires HolderIdle(s) && i < |s.cells|
  {
    var c := s.cells[i];
    if !c.state.Occupied? && c.generation != U32_MAX then WithWork(s, Scanning(i, tag, bits, 0)) else s
  }

  function RetireStep(s: State, i: nat): State
    requires HolderIdle(s) && i < |s.cells|
  {
    WithWork(WithCell(s, i, s.cells[i].(state := Retired)), Announcing(i))
  }

  function WithOp(s: State, t: nat, pc: Pc): State
    requires t in s.ops
  {
    s.(ops := s.ops[t := s.ops[t].(pc := pc)])
  }

  function OpStep(s: State, t: nat, access: Access): State
    requires Shaped(s) && t in s.ops && !s.ops[t].pc.Finished?
  {
    var op := s.ops[t];
    var i := op.id.slot;
    var c := s.cells[i];
    match op.pc
    case CheckState => WithOp(s, t, if c.state.Occupied? then CheckGeneration else Finished(true))
    case CheckGeneration => WithOp(s, t, if c.generation == op.id.generation then Acting else Finished(true))
    case Acting =>
      match access {
        case Load => s
        case Write(v) => WithCell(s, i, c.(value := v))
        case Bump => WithCell(s, i, c.(changes := Bumped(c.changes)))
        case Again => WithOp(s, t, CheckState)
        case Return => WithOp(s, t, Finished(false))
      }
  }

  function Survivors(handles: map<nat, Handle>, row: nat): map<nat, Handle> {
    map h | h in handles && handles[h].row != row :: handles[h]
  }

  function Ended(ops: map<nat, Op>, row: nat): map<nat, Op> {
    map t | t in ops :: if ops[t].row == row then ops[t].(pc := Finished(true)) else ops[t]
  }

  function DropPin(count: nat): nat { if count == 0 then U32_MAX else count - 1 }

  ghost function Apply(s: State, step: Step): State
    requires Shaped(s) && Enabled(s, step)
  {
    match step
    case Claim(row) => s.(alive := s.alive[row := true])
    case Die(row) =>
      s.(alive := s.alive[row := false],
         handles := Survivors(s.handles, row),
         ops := Ended(s.ops, row),
         holder := if s.holder.Held? && s.holder.row == row then Free else s.holder)
    case ClearPin(row, i) => WithPin(s, row, i, 0)
    case Lock(row) => s.(holder := Held(row, Idle))
    case Unlock => s.(holder := Free)
    case Open(h, id, tag) => OpenStep(s, h, id, tag)
    case Probe(i, tag, bits) => ProbeStep(s, i, tag, bits)
    case Release(id) => if Is(s, id) then RetireStep(s, id.slot) else s
    case Reset(i) => RetireStep(s, i)
    case RunHolder(h) => HolderStep(s, h)
    case StartOp(t, h) => s.(ops := s.ops[t := Op(h, s.handles[h].row, s.handles[h].id, CheckState)])
    case RunOp(t, access) => OpStep(s, t, access)
    case DropHandle(h) =>
      var row, i := s.handles[h].row, s.handles[h].id.slot;
      WithPin(s, row, i, DropPin(s.pins[row][i])).(handles := s.handles - {h})
  }

  // --------------------------------------------------------------------- invariant

  ghost function Leases(handles: map<nat, Handle>, row: nat, i: nat): set<nat> {
    set h | h in handles && handles[h].row == row && handles[h].id.slot == i
  }

  /** The allocator's own lease, taken before the install and handed out after it. */
  datatype Taken = Nothing | Taken(row: nat, slot: nat)

  function HolderLease(holder: Holder): Taken {
    if holder.Held? && holder.work.Installing? then Taken(holder.row, holder.work.slot) else Nothing
  }

  ghost predicate RowExact(handles: map<nat, Handle>, taken: Taken, pins: seq<seq<nat>>, row: nat)
    requires row < |pins|
  {
    forall i :: 0 <= i < |pins[row]| ==>
      pins[row][i] == |Leases(handles, row, i)| + if taken == Taken(row, i) then 1 else 0
  }

  ghost predicate RowsExact(handles: map<nat, Handle>, taken: Taken, pins: seq<seq<nat>>, alive: seq<bool>) {
    forall row :: 0 <= row < |pins| && row < |alive| && alive[row] ==> RowExact(handles, taken, pins, row)
  }

  ghost predicate NoLease(handles: map<nat, Handle>, i: nat) { forall h :: h in handles ==> handles[h].id.slot != i }

  ghost predicate NoLeaseBelow(handles: map<nat, Handle>, i: nat, row: nat) {
    forall h :: h in handles && handles[h].row < row ==> handles[h].id.slot != i
  }

  predicate HandleCurrent(cells: seq<Cell>, id: Id) {
    id.slot < |cells| && cells[id.slot].generation == id.generation && !cells[id.slot].state.Empty?
  }

  ghost predicate HandlesInvariant(cells: seq<Cell>, alive: seq<bool>, handles: map<nat, Handle>, ops: map<nat, Op>) {
    && (forall h :: h in handles ==>
        handles[h].row < |alive| && alive[handles[h].row] && HandleCurrent(cells, handles[h].id))
    && (forall t :: t in ops && !ops[t].pc.Finished? ==>
          ops[t].handle in handles && handles[ops[t].handle] == Handle(ops[t].row, ops[t].id))
  }

  /** Not live, with generations left. */
  predicate Reusable(cells: seq<Cell>, i: nat) {
    i < |cells| && !cells[i].state.Occupied? && cells[i].generation < U32_MAX
  }

  ghost predicate WorkInvariant(cells: seq<Cell>, handles: map<nat, Handle>, issued: seq<Id>, work: Work) {
    match work
    case Idle => true
    case Announcing(i) => true
    case Scanning(i, _, _, next) => Reusable(cells, i) && NoLeaseBelow(handles, i, next)
    case Leasing(i, _, _) => Reusable(cells, i) && NoLease(handles, i)
    case Installing(i, _, _, generation, stage) =>
      && i < |cells| && !cells[i].state.Occupied? && NoLease(handles, i)
      && generation <= U32_MAX && Id(i, generation) !in issued
      && cells[i].generation == if stage <= 4 then generation - 1 else generation
  }

  ghost predicate IssuedInvariant(cells: seq<Cell>, issued: seq<Id>) {
    && (forall k, l :: 0 <= k < l < |issued| ==> issued[k] != issued[l])
    && (forall id :: id in issued ==> id.slot < |cells| && id.generation <= cells[id.slot].generation)
    && (forall i :: 0 <= i < |cells| && cells[i].state.Occupied? ==> Id(i, cells[i].generation) in issued)
  }

  ghost predicate Invariant(s: State) {
    && Shaped(s)
    && (forall i :: 0 <= i < |s.cells| ==> s.cells[i].generation <= U32_MAX)
    && RowsExact(s.handles, HolderLease(s.holder), s.pins, s.alive)
    && HandlesInvariant(s.cells, s.alive, s.handles, s.ops)
    && (s.holder.Held? ==> s.alive[s.holder.row] && WorkInvariant(s.cells, s.handles, s.issued, s.holder.work))
    && IssuedInvariant(s.cells, s.issued)
  }

  /** Tags, values and change counts may move without any fence moving. */
  predicate SameFences(a: seq<Cell>, b: seq<Cell>) {
    |a| == |b| && forall i :: 0 <= i < |a| ==> a[i].state == b[i].state && a[i].generation == b[i].generation
  }

  lemma SameFencesKeep(s: State, cells: seq<Cell>)
    requires Invariant(s) && SameFences(s.cells, cells)
    ensures Invariant(s.(cells := cells))
  {
    assert forall id :: HandleCurrent(s.cells, id) ==> HandleCurrent(cells, id);
  }

  lemma LeasesAfter(handles: map<nat, Handle>, h: nat, handle: Handle, row: nat, i: nat)
    requires h !in handles
    ensures |Leases(handles[h := handle], row, i)|
         == |Leases(handles, row, i)| + if handle.row == row && handle.id.slot == i then 1 else 0
  {
    var before := Leases(handles, row, i);
    assert Leases(handles[h := handle], row, i) ==
      if handle.row == row && handle.id.slot == i then before + {h} else before;
  }

  lemma LeasesWithout(handles: map<nat, Handle>, h: nat, row: nat, i: nat)
    requires h in handles
    ensures |Leases(handles - {h}, row, i)|
         == |Leases(handles, row, i)| - if handles[h].row == row && handles[h].id.slot == i then 1 else 0
  {
    var before := Leases(handles, row, i);
    assert Leases(handles - {h}, row, i) == before - {h};
  }

  lemma RowsAfterOpen(s: State, h: nat, id: Id)
    requires Shaped(s) && RowsExact(s.handles, Nothing, s.pins, s.alive)
    requires s.holder.Held? && h !in s.handles && id.slot < |s.cells|
    ensures
      var row := s.holder.row;
      RowsExact(s.handles[h := Handle(row, id)], Nothing,
        WithPin(s, row, id.slot, s.pins[row][id.slot] + 1).pins, s.alive)
  {
    forall row, i ensures |Leases(s.handles[h := Handle(s.holder.row, id)], row, i)|
      == |Leases(s.handles, row, i)| + if s.holder.row == row && id.slot == i then 1 else 0
    {
      LeasesAfter(s.handles, h, Handle(s.holder.row, id), row, i);
    }
    assert forall row :: 0 <= row < |s.pins| && s.alive[row] ==> RowExact(s.handles, Nothing, s.pins, row);
  }

  lemma OpenKeeps(s: State, h: nat, id: Id, tag: nat)
    requires Invariant(s) && Enabled(s, Open(h, id, tag))
    ensures Invariant(OpenStep(s, h, id, tag))
  {
    if OpenStep(s, h, id, tag) != s {
      RowsAfterOpen(s, h, id);
    }
  }

  lemma RowsAfterDrop(s: State, h: nat)
    requires Shaped(s) && h in s.handles && s.alive[s.handles[h].row]
    requires RowsExact(s.handles, HolderLease(s.holder), s.pins, s.alive)
    ensures
      var row, i := s.handles[h].row, s.handles[h].id.slot;
      && s.pins[row][i] > 0
      && RowsExact(s.handles - {h}, HolderLease(s.holder), WithPin(s, row, i, s.pins[row][i] - 1).pins, s.alive)
  {
    var row0, i0 := s.handles[h].row, s.handles[h].id.slot;
    assert h in Leases(s.handles, row0, i0);
    assert RowExact(s.handles, HolderLease(s.holder), s.pins, row0);
    forall row, i ensures |Leases(s.handles - {h}, row, i)|
         == |Leases(s.handles, row, i)| - if row0 == row && i0 == i then 1 else 0
    {
      LeasesWithout(s.handles, h, row, i);
    }
    assert forall row :: 0 <= row < |s.pins| && s.alive[row] ==>
      RowExact(s.handles, HolderLease(s.holder), s.pins, row);
  }

  lemma DropKeeps(s: State, h: nat)
    requires Invariant(s) && Enabled(s, DropHandle(h))
    ensures Invariant(Apply(s, DropHandle(h)))
  {
    RowsAfterDrop(s, h);
  }

  lemma DieKeeps(s: State, row: nat)
    requires Invariant(s) && Enabled(s, Die(row))
    ensures Invariant(Apply(s, Die(row)))
  {
    var s' := Apply(s, Die(row));
    forall r, i | r != row ensures Leases(s'.handles, r, i) == Leases(s.handles, r, i) {
    }
  }

  lemma ClaimKeeps(s: State, row: nat)
    requires Invariant(s) && Enabled(s, Claim(row))
    ensures Invariant(Apply(s, Claim(row)))
  {
    forall i ensures Leases(s.handles, row, i) == {} {
    }
  }

  lemma ClearPinKeeps(s: State, row: nat, i: nat)
    requires Invariant(s) && Enabled(s, ClearPin(row, i))
    ensures Invariant(WithPin(s, row, i, 0))
  {
  }

  lemma ScanKeeps(s: State, h: nat)
    requires Invariant(s) && s.holder.Held? && s.holder.work.Scanning?
    ensures Invariant(HolderStep(s, h))
  {
    var w := s.holder.work;
    var s' := HolderStep(s, h);
    if w.next < |s.pins| && s.pins[w.next][w.slot] == 0 {
      forall x | x in s.handles && s.handles[x].row == w.next ensures s.handles[x].id.slot != w.slot {
        assert RowExact(s.handles, HolderLease(s.holder), s.pins, w.next);
        assert x in Leases(s.handles, w.next, s.handles[x].id.slot);
      }
    }
  }

  lemma LeaseKeeps(s: State, h: nat)
    requires Invariant(s) && s.holder.Held? && s.holder.work.Leasing?
    ensures Invariant(HolderStep(s, h))
  {
    var s' := HolderStep(s, h);
  }

  lemma StoreKeeps(s: State, h: nat)
    requires Invariant(s) && s.holder.Held? && s.holder.work.Installing? && s.holder.work.stage < 4
    ensures Invariant(HolderStep(s, h))
  {
    var s1 := s.(cells := HolderStep(s, h).cells);
    SameFencesKeep(s, s1.cells);
    StageMoves(s1);
  }

  lemma StageMoves(s: State)
    requires Invariant(s) && s.holder.Held? && s.holder.work.Installing? && s.holder.work.stage < 4
    ensures Invariant(WithWork(s, s.holder.work.(stage := s.holder.work.stage + 1)))
  {
  }

  /** The generation moves while nobody holds the slot. */
  lemma FenceMoves(s: State, h: nat)
    requires Invariant(s) && s.holder.Held? && s.holder.work.Installing? && s.holder.work.stage == 4
    ensures Invariant(HolderStep(s, h))
  {
    var cells := HolderStep(s, h).cells;
    assert forall id: Id :: id.slot != s.holder.work.slot && HandleCurrent(s.cells, id) ==> HandleCurrent(cells, id);
  }

  /** The allocator's lease becomes the new handle's; no count moves. */
  lemma RowsAfterHandOver(s: State, h: nat, handle: Handle)
    requires Shaped(s) && h !in s.handles
    requires RowsExact(s.handles, Taken(handle.row, handle.id.slot), s.pins, s.alive)
    ensures RowsExact(s.handles[h := handle], Nothing, s.pins, s.alive)
  {
    forall row, i ensures |Leases(s.handles[h := handle], row, i)|
      == |Leases(s.handles, row, i)| + if handle.row == row && handle.id.slot == i then 1 else 0
    {
      LeasesAfter(s.handles, h, handle, row, i);
    }
    assert forall row :: 0 <= row < |s.pins| && s.alive[row] ==>
      RowExact(s.handles, Taken(handle.row, handle.id.slot), s.pins, row);
  }

  lemma IssueKeeps(cells: seq<Cell>, issued: seq<Id>, i: nat)
    requires IssuedInvariant(cells, issued) && i < |cells|
    requires !cells[i].state.Occupied? && Id(i, cells[i].generation) !in issued
    ensures IssuedInvariant(cells[i := cells[i].(state := Occupied)], issued + [Id(i, cells[i].generation)])
  {
  }

  lemma HandedOutKeeps(
      cells: seq<Cell>, alive: seq<bool>, handles: map<nat, Handle>, ops: map<nat, Op>, i: nat, h: nat, row: nat)
    requires HandlesInvariant(cells, alive, handles, ops) && i < |cells| && h !in handles && row < |alive| && alive[row]
    ensures
      var handle := Handle(row, Id(i, cells[i].generation));
      HandlesInvariant(cells[i := cells[i].(state := Occupied)], alive, handles[h := handle], ops)
  {
  }

  lemma PublishShape(s: State, h: nat)
    requires Shaped(s) && s.holder.Held? && s.holder.work.Installing? && s.holder.work.stage == STAGES
    ensures
      var w := s.holder.work;
      var id := Id(w.slot, w.generation);
      && Shaped(HolderStep(s, h))
      && HolderStep(s, h) == State(
           s.cells[w.slot := s.cells[w.slot].(state := Occupied)], s.pins, s.alive,
           s.handles[h := Handle(s.holder.row, id)], s.ops, Held(s.holder.row, Idle), s.issued + [id])
  {
  }

  lemma PublishKeeps(s: State, h: nat)
    requires Invariant(s) && Enabled(s, RunHolder(h)) && s.holder.work.Installing? && s.holder.work.stage == STAGES
    ensures Invariant(HolderStep(s, h))
  {
    var w := s.holder.work;
    PublishShape(s, h);
    PublishedPieces(s, h, HolderStep(s, h));
  }

  lemma PublishedPieces(s: State, h: nat, s': State)
    requires Invariant(s) && h !in s.handles && s.holder.Held? &&
        s.holder.work.Installing? && s.holder.work.stage == STAGES
    requires Shaped(s')
    requires
      var w := s.holder.work;
      var id := Id(w.slot, w.generation);
      s' == State(
        s.cells[w.slot := s.cells[w.slot].(state := Occupied)], s.pins, s.alive,
        s.handles[h := Handle(s.holder.row, id)], s.ops, Held(s.holder.row, Idle), s.issued + [id])
    ensures Invariant(s')
  {
    var w := s.holder.work;
    RowsAfterHandOver(s, h, Handle(s.holder.row, Id(w.slot, w.generation)));
    IssueKeeps(s.cells, s.issued, w.slot);
    HandedOutKeeps(s.cells, s.alive, s.handles, s.ops, w.slot, h, s.holder.row);
  }

  lemma RetireKeeps(s: State, i: nat)
    requires Invariant(s) && HolderIdle(s) && i < |s.cells|
    ensures Invariant(RetireStep(s, i))
  {
    var s' := RetireStep(s, i);
  }

  lemma OpKeeps(s: State, t: nat, access: Access)
    requires Invariant(s) && Enabled(s, RunOp(t, access))
    ensures Invariant(OpStep(s, t, access))
  {
    if s.ops[t].pc.Acting? && (access.Write? || access.Bump?) {
      SameFencesKeep(s, OpStep(s, t, access).cells);
    } else {
      OpMoves(s, t, if s.ops[t].pc == Acting && access.Load? then Acting else OpStep(s, t, access).ops[t].pc);
    }
  }

  lemma OpMoves(s: State, t: nat, pc: Pc)
    requires Invariant(s) && t in s.ops && !s.ops[t].pc.Finished?
    ensures Invariant(WithOp(s, t, pc))
  {
  }

  lemma LockKeeps(s: State, step: Step)
    requires Invariant(s) && Enabled(s, step) && (step.Lock? || step.Unlock? || step.Probe? || step.StartOp?)
    ensures Invariant(Apply(s, step))
  {
    var s' := Apply(s, step);
  }

  lemma AnnounceKeeps(s: State, h: nat)
    requires Invariant(s) && s.holder.Held? && s.holder.work.Announcing?
    ensures Invariant(HolderStep(s, h))
  {
    SameFencesKeep(s, HolderStep(s, h).cells);
  }

  lemma StepKeepsInvariant(s: State, step: Step)
    requires Invariant(s) && Enabled(s, step)
    ensures Invariant(Apply(s, step))
  {
    match step
    case Claim(row) => ClaimKeeps(s, row);
    case Die(row) => DieKeeps(s, row);
    case ClearPin(row, i) => ClearPinKeeps(s, row, i);
    case Open(h, id, tag) => OpenKeeps(s, h, id, tag);
    case Release(id) =>
      if Is(s, id) {
        RetireKeeps(s, id.slot);
      }
    case Reset(i) => RetireKeeps(s, i);
    case RunHolder(h) =>
      match s.holder.work {
        case Scanning(_, _, _, _) => ScanKeeps(s, h);
        case Leasing(_, _, _) => LeaseKeeps(s, h);
        case Installing(_, _, _, _, stage) =>
          if stage < 4 {
            StoreKeeps(s, h);
          } else if stage == 4 {
            FenceMoves(s, h);
          } else {
            PublishKeeps(s, h);
          }
        case Announcing(_) => AnnounceKeeps(s, h);
      }
    case RunOp(t, access) => OpKeeps(s, t, access);
    case DropHandle(h) => DropKeeps(s, h);
    case _ => LockKeeps(s, step);
  }
}
