/**
 The volume under names of every kind.  A stored name ends at its first NUL byte, so that
 names need not be unique; what a caller then sees is a table of slots, searched from the
 front.  Over every run the volume is such a table: chains stay acyclic, disjoint and of the
 right length, and no cluster gets lost but by a create that runs out of them.
 */
module KagSlots {
  import opened Bytes
  import opened KagLayout
  import opened KagVolume
  import opened KagChains
  import opened KagRefinement

  // ---------------------------------------------------------------- the table a caller sees

  datatype File = File(name: Name, contents: seq<byte>)

  type Slots = s: seq<Option<File>> | |s| == DIR_ENTRIES witness seq(DIR_ENTRIES, _ => None)

  datatype Table = Table(slots: Slots, free: nat)

  predicate Carries(slot: Option<File>, name: Name) {
    slot.Some? && slot.value.name == name
  }

  function Find(slots: Slots, name: Name, from: nat): (r: Option<nat>)
    requires from <= DIR_ENTRIES
    ensures r.Some? ==> from <= r.value < DIR_ENTRIES && Carries(slots[r.value], name)
    ensures forall i | from <= i < (if r.Some? then r.value else DIR_ENTRIES) :: !Carries(slots[i], name)
    decreases DIR_ENTRIES - from
  {
    if from == DIR_ENTRIES then None
    else if Carries(slots[from], name) then Some(from)
    else Find(slots, name, from + 1)
  }

  function FindEmpty(slots: Slots, from: nat): (r: Option<nat>)
    requires from <= DIR_ENTRIES
    ensures r.Some? ==> from <= r.value < DIR_ENTRIES && slots[r.value].None?
    ensures forall i | from <= i < (if r.Some? then r.value else DIR_ENTRIES) :: slots[i].Some?
    decreases DIR_ENTRIES - from
  {
    if from == DIR_ENTRIES then None else if slots[from].None? then Some(from) else FindEmpty(slots, from + 1)
  }

  function SizeOf(slot: Option<File>): nat {
    if slot.Some? then ClustersFor(|slot.value.contents|) else 0
  }

  function Vacate(t: Table, i: nat): Table
    requires i < DIR_ENTRIES
  {
    Table(t.slots[i := None], t.free + SizeOf(t.slots[i]))
  }

  /** The table without the first file that carries the name. */
  function Dropped(t: Table, name: Name): Table {
    var i := Find(t.slots, name, 0);
    if i.Some? then Vacate(t, i.value) else t
  }

  /** What is stored is the name up to its first NUL; a create that runs out keeps every cluster it took. */
  function TableCreate(t: Table, name: Name, payload: seq<byte>): (Table, FsResult<()>) {
    if !NameLengthOk(name) then (t, Err(InvalidArgument))
    else
      var u, need := Dropped(t, name), ClustersFor(|payload|);
      var i := FindEmpty(u.slots, 0);
      if i.None? then (u, Err(NoSpace))
      else if need > u.free then (Table(u.slots, 0), Err(InvalidArgument))
      else (Table(u.slots[i.value := Some(File(NulPrefix(name), payload))], u.free - need), Ok(()))
  }

  function TableRead(t: Table, name: Name): FsResult<seq<byte>> {
    if !NameLengthOk(name) then Err(InvalidArgument)
    else
      var i := Find(t.slots, name, 0);
      if i.Some? then Ok(t.slots[i.value].value.contents) else Err(FileNotFound)
  }

  function TableDelete(t: Table, name: Name): (Table, FsResult<()>) {
    if !NameLengthOk(name) then (t, Err(InvalidArgument))
    else if Find(t.slots, name, 0).Some? then (Dropped(t, name), Ok(()))
    else (t, Err(FileNotFound))
  }

  function TableStep(t: Table, op: Op): (Table, Outcome) {
    match op
    case CreateFile(name, payload) => var r := TableCreate(t, name, payload); (r.0, Done(r.1))
    case ReadFile(name) => (t, Contents(TableRead(t, name)))
    case DeleteFile(name) => var r := TableDelete(t, name); (r.0, Done(r.1))
  }

  function TableRun(t: Table, ops: seq<Op>): (Table, seq<Outcome>)
    decreases |ops|
  {
    if ops == [] then (t, [])
    else
      var first := TableStep(t, ops[0]);
      var rest := TableRun(first.0, ops[1..]);
      (rest.0, [first.1] + rest.1)
  }

  // ---------------------------------------------------------------- the volume is such a table

  ghost predicate Stores(v: Volume, e: DirEntry, cs: seq<nat>, f: File) {
    && NulPrefix(e.name) == f.name && e.size == |f.contents|
    && e.firstCluster == (if cs == [] then 0 else cs[0])
    && |cs| == ClustersFor(e.size)
    && IsChain(v.fat, cs)
    && e.size as nat <= |Flatten(v.data, cs)|
    && Flatten(v.data, cs)[..e.size] == f.contents
  }

  ghost predicate SlotIs(v: Volume, e: DirEntry, cs: seq<nat>, slot: Option<File>) {
    match slot
    case None => e.inUse == 0 && cs == []
    case Some(f) => e.inUse == 1 && Stores(v, e, cs, f)
  }

  /** Slot by slot, the directory is the table; chains are acyclic, ended, as long as needed, and disjoint. */
  ghost predicate IsTable(v: Volume, chains: seq<seq<nat>>, t: Table) {
    && Formatted(v.boot) && NoSharing(chains) && |chains| == DIR_ENTRIES
    && (forall i | 0 <= i < DIR_ENTRIES :: SlotIs(v, v.dir[i], chains[i], t.slots[i]))
    && |FreeSet(v.fat)| == t.free
  }

  ghost predicate HoldsTable(v: Volume, t: Table) {
    exists chains :: IsTable(v, chains, t)
  }

  lemma SlotStays(v: Volume, w: Volume, e: DirEntry, cs: seq<nat>, slot: Option<File>)
    requires SlotIs(v, e, cs, slot)
    requires forall k | 0 <= k < |cs| :: 2 <= cs[k] < FAT_ENTRIES ==>
               w.fat[cs[k]] == v.fat[cs[k]] && ClusterAt(w.data, cs[k]) == ClusterAt(v.data, cs[k])
    ensures SlotIs(w, e, cs, slot)
  {
    if slot.Some? {
      FlattenSame(v.data, w.data, cs);
    }
  }

  lemma SlotChain(v: Volume, chains: seq<seq<nat>>, t: Table, i: nat)
    requires IsTable(v, chains, t) && i < DIR_ENTRIES
    ensures IsChain(v.fat, chains[i]) && Distinct(chains[i]) && |chains[i]| == SizeOf(t.slots[i])
    ensures t.slots[i].Some? ==> v.dir[i].firstCluster == if chains[i] == [] then 0 else chains[i][0]
  {
    assert SlotIs(v, v.dir[i], chains[i], t.slots[i]);
  }

  lemma VacateRefines(v: Volume, chains: seq<seq<nat>>, t: Table, i: nat)
    requires IsTable(v, chains, t) && i < DIR_ENTRIES && t.slots[i].Some?
    ensures Remove(v, i).1 == Ok(()) && IsTable(Remove(v, i).0, chains[i := []], Vacate(t, i))
  {
    SlotChain(v, chains, t, i);
    RemoveClears(v, i, chains[i]);
    FreeingAddsToFreeSet(v.fat, chains[i]);
    NoSharingAfterRemove(chains, i);
    var w := Remove(v, i).0;
    forall j | 0 <= j < DIR_ENTRIES
      ensures SlotIs(w, w.dir[j], chains[i := []][j], Vacate(t, i).slots[j])
    {
      if j != i {
        OtherSlotStays(v, w, chains, t, i, j);
      }
    }
    hide SlotIs, NoSharing, FreeSet, Cleared;
  }

  lemma OtherSlotStays(v: Volume, w: Volume, chains: seq<seq<nat>>, t: Table, i: nat, j: nat)
    requires IsTable(v, chains, t) && i < DIR_ENTRIES && j < DIR_ENTRIES && i != j
    requires w.data == v.data && w.fat == Cleared(v.fat, chains[i])
    ensures SlotIs(w, v.dir[j], chains[j], t.slots[j])
  {
    assert SlotIs(v, v.dir[j], chains[j], t.slots[j]);
    assert Apart(chains[j], chains[i]);
    SlotStays(v, w, v.dir[j], chains[j], t.slots[j]);
  }

  lemma SlotAgrees(v: Volume, chains: seq<seq<nat>>, t: Table, name: Name, i: nat)
    requires IsTable(v, chains, t) && i < DIR_ENTRIES
    ensures Holds(v.dir[i], name) <==> Carries(t.slots[i], name)
    ensures v.dir[i].inUse == 0 <==> t.slots[i].None?
  {
    assert SlotIs(v, v.dir[i], chains[i], t.slots[i]);
    hide Flatten, IsChain, NoSharing;
  }

  lemma SameSearch(dir: Dir, slots: Slots, name: Name)
    requires forall i | 0 <= i < DIR_ENTRIES :: Holds(dir[i], name) <==> Carries(slots[i], name)
    requires forall i | 0 <= i < DIR_ENTRIES :: dir[i].inUse == 0 <==> slots[i].None?
    ensures FindFile(dir, name, 0) == Find(slots, name, 0) && FreeSlot(dir, 0) == FindEmpty(slots, 0)
  {
    hide Holds, Carries, FindFile, Find, FreeSlot, FindEmpty;
    var i, j := FindFile(dir, name, 0), Find(slots, name, 0);
    assert i.Some? ==> Holds(dir[i.value], name);
    assert j.Some? ==> Carries(slots[j.value], name);
  }

  lemma SearchesAgree(v: Volume, chains: seq<seq<nat>>, t: Table, name: Name)
    requires IsTable(v, chains, t)
    ensures FindFile(v.dir, name, 0) == Find(t.slots, name, 0) && FreeSlot(v.dir, 0) == FindEmpty(t.slots, 0)
    ensures |chains| == DIR_ENTRIES
  {
    hide SlotIs, Holds, Carries, FindFile, Find, FreeSlot, FindEmpty;
    forall i | 0 <= i < DIR_ENTRIES
      ensures Holds(v.dir[i], name) <==> Carries(t.slots[i], name)
      ensures v.dir[i].inUse == 0 <==> t.slots[i].None?
    {
      SlotAgrees(v, chains, t, name, i);
    }
    SameSearch(v.dir, t.slots, name);
  }

  lemma DropRefines(v: Volume, chains: seq<seq<nat>>, t: Table, name: Name) returns (chains': seq<seq<nat>>)
    requires IsTable(v, chains, t)
    ensures RemoveExisting(v, name).1 == Ok(()) && IsTable(RemoveExisting(v, name).0, chains', Dropped(t, name))
  {
    hide IsTable, Remove;
    SearchesAgree(v, chains, t, name);
    var i := Find(t.slots, name, 0);
    chains' := chains;
    if i.Some? {
      VacateRefines(v, chains, t, i.value);
      chains' := chains[i.value := []];
    }
  }

  lemma {:induction false} PaddingKeepsPrefix(name: Name, pad: nat)
    requires pad > 0
    ensures NulPrefix(name + Zeros(pad)) == NulPrefix(name)
  {
    if name != [] && name[0] != 0 {
      assert (name + Zeros(pad))[1..] == name[1..] + Zeros(pad);
      PaddingKeepsPrefix(name[1..], pad);
    }
  }

  lemma NewEntryStores(v: Volume, w: Volume, name: Name, payload: seq<byte>, cs: seq<nat>)
    requires NameLengthOk(name) && |payload| < 0x1_0000_0000 && w.fat == v.fat && w.data == v.data
    requires IsChain(v.fat, cs) && |cs| == ClustersFor(|payload|)
    requires |payload| <= |Flatten(v.data, cs)| && Flatten(v.data, cs)[..|payload|] == payload
    ensures var e := NewEntry(name, if cs == [] then 0 else cs[0], |payload|);
            SlotIs(w, e, cs, Some(File(NulPrefix(name), payload)))
  {
    hide Flatten, IsChain, NulPrefix, ClustersFor;
    PaddingKeepsPrefix(name, 22 - |name|);
  }

  /** Whatever happens in free clusters leaves every slot as it is. */
  lemma FreeChangesKeepSlots(v: Volume, w: Volume, chains: seq<seq<nat>>, t: Table, i: nat)
    requires IsTable(v, chains, t) && ChangesOnlyFree(v, w) && i < DIR_ENTRIES
    ensures SlotIs(w, v.dir[i], chains[i], t.slots[i])
  {
    SlotChain(v, chains, t, i);
    ChainsAvoidFree(v.fat, chains[i]);
    SlotStays(v, w, v.dir[i], chains[i], t.slots[i]);
  }

  lemma NewChainShares(v: Volume, chains: seq<seq<nat>>, t: Table, slot: nat, cs: seq<nat>)
    requires IsTable(v, chains, t) && slot < DIR_ENTRIES
    requires Distinct(cs) && forall k | 0 <= k < |cs| :: cs[k] in FreeSet(v.fat)
    ensures NoSharing(chains[slot := cs])
  {
    forall j | 0 <= j < DIR_ENTRIES
      ensures Apart(chains[j], cs) && Apart(cs, chains[j])
    {
      SlotChain(v, chains, t, j);
      ChainsAvoidFree(v.fat, chains[j]);
    }
  }

  lemma OccupyRefines(v: Volume, w: Volume, chains: seq<seq<nat>>, t: Table, slot: nat, cs: seq<nat>, f: File)
    requires IsTable(v, chains, t) && slot < DIR_ENTRIES && ChangesOnlyFree(v, w)
    requires w.boot == v.boot && w.dir == v.dir[slot := w.dir[slot]] && SlotIs(w, w.dir[slot], cs, Some(f))
    requires Distinct(cs) && forall k | 0 <= k < |cs| :: cs[k] in FreeSet(v.fat)
    ensures IsTable(w, chains[slot := cs], Table(t.slots[slot := Some(f)], |FreeSet(w.fat)|))
  {
    NewChainShares(v, chains, t, slot, cs);
    forall j | 0 <= j < DIR_ENTRIES
      ensures SlotIs(w, w.dir[j], chains[slot := cs][j], t.slots[slot := Some(f)][j])
    {
      if j != slot {
        FreeChangesKeepSlots(v, w, chains, t, j);
      }
    }
  }

  /** `filled` is `v` with the payload in the fresh chain `cs`. */
  ghost predicate FilledWith(v: Volume, filled: Volume, payload: seq<byte>, cs: seq<nat>) {
    && filled.boot == v.boot && filled.dir == v.dir
    && Distinct(cs) && (forall k | 0 <= k < |cs| :: cs[k] in FreeSet(v.fat))
    && (forall x | 0 <= x < FAT_ENTRIES && x !in cs :: filled.fat[x] == v.fat[x])
    && (forall x | 2 <= x < FAT_ENTRIES && x !in cs :: ClusterAt(filled.data, x) == ClusterAt(v.data, x))
    && FreeSet(filled.fat) == FreeSet(v.fat) - Elements(cs)
    && IsChain(filled.fat, cs) && |cs| == ClustersFor(|payload|)
    && |payload| <= |Flatten(filled.data, cs)| && Flatten(filled.data, cs)[..|payload|] == payload
  }

  lemma PayloadFits(v: Volume, payload: seq<byte>) returns (filled: Volume, cs: seq<nat>)
    requires ClustersFor(|payload|) <= |FreeSet(v.fat)|
    ensures FilledWith(v, filled, payload, cs)
    ensures (filled, Ok(if cs == [] then 0 else cs[0])) == if payload == [] then (v, Ok(0)) else Fill(v, payload, None)
  {
    if payload == [] {
      filled, cs := v, [];
      assert Elements(cs) == {};
    } else {
      hide Flatten, ClusterAt, FreeSet, IsChain, Elements, ClustersFor;
      cs := FillSucceeds(v, payload, None);
      filled := Fill(v, payload, None).0;
    }
  }

  lemma FilledIsTable(v: Volume, filled: Volume, chains: seq<seq<nat>>, t: Table, slot: nat, name: Name,
                      payload: seq<byte>, cs: seq<nat>)
    requires IsTable(v, chains, t) && slot < DIR_ENTRIES && NameLengthOk(name) && |payload| < 0x1_0000_0000
    requires FilledWith(v, filled, payload, cs) && ClustersFor(|payload|) <= t.free == |FreeSet(v.fat)|
    ensures var w := filled.(dir := v.dir[slot := NewEntry(name, if cs == [] then 0 else cs[0], |payload|)]);
            IsTable(w, chains[slot := cs], Table(t.slots[slot := Some(File(NulPrefix(name), payload))],
                                                 t.free - ClustersFor(|payload|)))
  {
    hide IsTable, SlotIs, ChangesOnlyFree, Flatten, NewEntry, FreeSet, Elements, ClustersFor, NulPrefix;
    var w := filled.(dir := v.dir[slot := NewEntry(name, if cs == [] then 0 else cs[0], |payload|)]);
    NewEntryStores(filled, w, name, payload, cs);
    FillChangesOnlyFree(v, filled, w, cs);
    OccupyRefines(v, w, chains, t, slot, cs, File(NulPrefix(name), payload));
    FreeSetAfterFill(v.fat, filled.fat, cs);
  }

  lemma TableFree(v: Volume, chains: seq<seq<nat>>, t: Table)
    requires IsTable(v, chains, t)
    ensures |FreeSet(v.fat)| == t.free && |chains| == DIR_ENTRIES && Formatted(v.boot)
  {
  }

  lemma StoreFits(v: Volume, chains: seq<seq<nat>>, t: Table, slot: nat, name: Name, payload: seq<byte>)
    returns (chains': seq<seq<nat>>)
    requires IsTable(v, chains, t) && slot < DIR_ENTRIES && NameLengthOk(name) && ClustersFor(|payload|) <= t.free
    ensures var r := StoreIn(v, slot, name, payload);
            && r.1 == Ok(())
            && IsTable(r.0, chains', Table(t.slots[slot := Some(File(NulPrefix(name), payload))],
                                           t.free - ClustersFor(|payload|)))
  {
    hide IsTable, NewEntry, FreeSet, FilledWith, Fill, ClustersFor, NulPrefix;
    TableFree(v, chains, t);
    StoredSizeFits(v.fat, |payload|);
    var filled, cs := PayloadFits(v, payload);
    FilledIsTable(v, filled, chains, t, slot, name, payload, cs);
    DirectoryKept(v, filled, payload, cs);
    chains' := chains[slot := cs];
  }

  lemma DirectoryKept(v: Volume, filled: Volume, payload: seq<byte>, cs: seq<nat>)
    requires FilledWith(v, filled, payload, cs)
    ensures filled.dir == v.dir
  {
  }

  lemma StoreRunsOut(v: Volume, chains: seq<seq<nat>>, t: Table, slot: nat, name: Name, payload: seq<byte>)
    requires IsTable(v, chains, t) && slot < DIR_ENTRIES && NameLengthOk(name) && ClustersFor(|payload|) > t.free
    ensures var r := StoreIn(v, slot, name, payload);
            r.1 == Err(InvalidArgument) && IsTable(r.0, chains, Table(t.slots, 0))
  {
    FillExhausts(v, payload, None);
    var w := Fill(v, payload, None).0;
    forall j | 0 <= j < DIR_ENTRIES
      ensures SlotIs(w, w.dir[j], chains[j], t.slots[j])
    {
      FreeChangesKeepSlots(v, w, chains, t, j);
    }
  }

  lemma CreateIsTableCreate(v: Volume, chains: seq<seq<nat>>, t: Table, name: Name, payload: seq<byte>)
    returns (chains': seq<seq<nat>>)
    requires IsTable(v, chains, t)
    ensures Create(v, name, payload).1 == TableCreate(t, name, payload).1
    ensures IsTable(Create(v, name, payload).0, chains', TableCreate(t, name, payload).0)
  {
    hide IsTable, StoreIn, RemoveExisting, Formatted, Dropped;
    TableFree(v, chains, t);
    chains' := chains;
    if NameLengthOk(name) {
      chains' := DropRefines(v, chains, t, name);
      var w, u := RemoveExisting(v, name).0, Dropped(t, name);
      SearchesAgree(w, chains', u, name);
      var i := FindEmpty(u.slots, 0);
      if i.Some? && ClustersFor(|payload|) <= u.free {
        chains' := StoreFits(w, chains', u, i.value, name, payload);
      } else if i.Some? {
        StoreRunsOut(w, chains', u, i.value, name, payload);
      }
    }
  }

  lemma ReadIsTableRead(v: Volume, chains: seq<seq<nat>>, t: Table, name: Name)
    requires IsTable(v, chains, t)
    ensures Read(v, name) == TableRead(t, name)
  {
    SearchesAgree(v, chains, t, name);
    var i := Find(t.slots, name, 0);
    if i.Some? {
      assert SlotIs(v, v.dir[i.value], chains[i.value], t.slots[i.value]);
      ReadChainReadsChain(v, chains[i.value], v.dir[i.value].size);
    }
  }

  lemma DeleteIsTableDelete(v: Volume, chains: seq<seq<nat>>, t: Table, name: Name) returns (chains': seq<seq<nat>>)
    requires IsTable(v, chains, t)
    ensures Delete(v, name).1 == TableDelete(t, name).1
    ensures IsTable(Delete(v, name).0, chains', TableDelete(t, name).0)
  {
    hide IsTable, Remove;
    SearchesAgree(v, chains, t, name);
    chains' := chains;
    if NameLengthOk(name) && Find(t.slots, name, 0).Some? {
      chains' := DropRefines(v, chains, t, name);
    }
  }

  // ---------------------------------------------------------------- whole runs

  const EMPTY_TABLE := Table(seq(DIR_ENTRIES, _ => None), FAT_ENTRIES - 2)

  lemma {:induction false} RunIsTableRun(v: Volume, chains: seq<seq<nat>>, t: Table, ops: seq<Op>)
    requires IsTable(v, chains, t)
    ensures VolumeRun(v, ops).1 == TableRun(t, ops).1
    ensures HoldsTable(VolumeRun(v, ops).0, TableRun(t, ops).0)
    decreases |ops|
  {
    hide IsTable, Create, Read, Delete, TableCreate, TableRead, TableDelete;
    if ops != [] {
      var chains' := chains;
      match ops[0] {
        case CreateFile(name, payload) => chains' := CreateIsTableCreate(v, chains, t, name, payload);
        case ReadFile(name) => ReadIsTableRead(v, chains, t, name);
        case DeleteFile(name) => chains' := DeleteIsTableDelete(v, chains, t, name);
      }
      RunIsTableRun(VolumeStep(v, ops[0]).0, chains', TableStep(t, ops[0]).0, ops[1..]);
    }
  }

  lemma FormatIsEmptyTable(v: Volume) returns (chains: seq<seq<nat>>)
    ensures IsTable(Format(v), chains, EMPTY_TABLE)
  {
    BootRoundTrip(BOOT);
    chains := seq(DIR_ENTRIES, _ => []);
    var w := Format(v);
    assert forall i | 0 <= i < DIR_ENTRIES :: w.dir[i] == EMPTY_ENTRY;
    FormattedFree(w.fat);
  }

  /**
   Main theorem for names of every kind: after a format every run gives the answers of the
   table, call by call, and the volume still is a table.
   */
  lemma VolumeIsATable(v: Volume, ops: seq<Op>)
    ensures VolumeRun(Format(v), ops).1 == TableRun(EMPTY_TABLE, ops).1
    ensures HoldsTable(VolumeRun(Format(v), ops).0, TableRun(EMPTY_TABLE, ops).0)
  {
    var chains := FormatIsEmptyTable(v);
    RunIsTableRun(Format(v), chains, EMPTY_TABLE, ops);
  }

  // ---------------------------------------------------------------- clusters

  function InSlots(slots: seq<Option<File>>): nat {
    if slots == [] then 0 else SizeOf(slots[0]) + InSlots(slots[1..])
  }

  lemma {:induction false} InSlotsUpdate(slots: seq<Option<File>>, i: nat, f: Option<File>)
    requires i < |slots|
    ensures InSlots(slots[i := f]) + SizeOf(slots[i]) == InSlots(slots) + SizeOf(f)
  {
    if i > 0 {
      assert slots[i := f][1..] == slots[1..][i - 1 := f];
      InSlotsUpdate(slots[1..], i - 1, f);
    } else {
      assert slots[i := f][1..] == slots[1..];
    }
  }

  /** Clusters that a step leaves neither free nor in a file: all those a create took before it ran out. */
  function Wasted(t: Table, op: Op): nat {
    if op.CreateFile? && NameLengthOk(op.name) && FindEmpty(Dropped(t, op.name).slots, 0).Some? &&
       ClustersFor(|op.payload|) > Dropped(t, op.name).free
    then Dropped(t, op.name).free
    else 0
  }

  lemma DropConserves(t: Table, name: Name)
    ensures InSlots(Dropped(t, name).slots) + Dropped(t, name).free == InSlots(t.slots) + t.free
  {
    var i := Find(t.slots, name, 0);
    if i.Some? {
      InSlotsUpdate(t.slots, i.value, None);
    }
  }

  lemma TableStepConserves(t: Table, op: Op)
    ensures var u := TableStep(t, op).0; InSlots(u.slots) + u.free + Wasted(t, op) == InSlots(t.slots) + t.free
  {
    hide Dropped, InSlots;
    DropConserves(t, op.name);
    if op.CreateFile? {
      var u := Dropped(t, op.name);
      var i := FindEmpty(u.slots, 0);
      if i.Some? {
        InSlotsUpdate(u.slots, i.value, Some(File(NulPrefix(op.name), op.payload)));
      }
    }
  }

  function WastedInRun(t: Table, ops: seq<Op>): nat
    decreases |ops|
  {
    if ops == [] then 0 else Wasted(t, ops[0]) + WastedInRun(TableStep(t, ops[0]).0, ops[1..])
  }

  lemma {:induction false} TableRunConserves(t: Table, ops: seq<Op>)
    ensures var u := TableRun(t, ops).0; InSlots(u.slots) + u.free + WastedInRun(t, ops) == InSlots(t.slots) + t.free
    decreases |ops|
  {
    hide Wasted, TableStep, InSlots;
    if ops != [] {
      TableStepConserves(t, ops[0]);
      TableRunConserves(TableStep(t, ops[0]).0, ops[1..]);
    }
  }

  lemma {:induction false} EmptySlots(n: nat)
    ensures InSlots(seq(n, _ => None)) == 0
  {
    if n > 0 {
      EmptySlots(n - 1);
      assert seq<Option<File>>(n, _ => None)[1..] == seq<Option<File>>(n - 1, _ => None);
    }
  }

  /** Over every run, whatever the names, free, stored and lost clusters add up to all 16382. */
  lemma ClustersAlwaysAddUp(v: Volume, ops: seq<Op>)
    ensures |FreeSet(VolumeRun(Format(v), ops).0.fat)| + InSlots(TableRun(EMPTY_TABLE, ops).0.slots)
            + WastedInRun(EMPTY_TABLE, ops) == FAT_ENTRIES - 2
  {
    VolumeIsATable(v, ops);
    TableRunConserves(EMPTY_TABLE, ops);
    EmptySlots(DIR_ENTRIES);
    assert EMPTY_TABLE.slots == seq<Option<File>>(DIR_ENTRIES, _ => None);
  }

  const NUL_NAME: Name := [65, 0]
  const ITS_FILE := File([65], [])

  lemma AnotherOne(t: Table, k: nat)
    requires k < DIR_ENTRIES && forall i | 0 <= i < DIR_ENTRIES :: t.slots[i] == if i < k then Some(ITS_FILE) else None
    ensures TableCreate(t, NUL_NAME, []) == (Table(t.slots[k := Some(ITS_FILE)], t.free), Ok(()))
  {
    assert NUL_NAME[1..] == [0];
    assert NulPrefix(NUL_NAME) == [65];
    var i := Find(t.slots, NUL_NAME, 0);
    assert i.Some? ==> Carries(t.slots[i.value], NUL_NAME);
    hide Find, NulPrefix;
    var e := FindEmpty(t.slots, 0);
    assert t.slots[k].None?;
    assert e.Some? && t.slots[e.value].None?;
  }

  /** What does break is that names are unique: the same create twice leaves two files of one name. */
  lemma NulNamesRepeat(v: Volume)
    ensures !UniqueNames(VolumeRun(Format(v), [CreateFile(NUL_NAME, []), CreateFile(NUL_NAME, [])]).0.dir)
  {
    hide TableCreate, IsTable, UniqueNames, VolumeRun, Format;
    var create := CreateFile(NUL_NAME, []);
    AnotherOne(EMPTY_TABLE, 0);
    var t1 := TableStep(EMPTY_TABLE, create).0;
    AnotherOne(t1, 1);
    var t2, ops := TableStep(t1, create).0, [create, create];
    assert ops[1..] == [create] && [create][1..] == [];
    assert TableRun(t2, []).0 == t2;
    assert TableRun(t1, [create]).0 == t2;
    VolumeIsATable(v, ops);
    SameNameTwice(VolumeRun(Format(v), ops).0, t2);
  }

  lemma SameNameTwice(v: Volume, t: Table)
    requires HoldsTable(v, t) && t.slots[0] == t.slots[1] == Some(ITS_FILE)
    ensures !UniqueNames(v.dir)
  {
    var chains :| IsTable(v, chains, t);
    assert SlotIs(v, v.dir[0], chains[0], t.slots[0]) && SlotIs(v, v.dir[1], chains[1], t.slots[1]);
    hide Flatten, IsChain, NoSharing;
  }
}
