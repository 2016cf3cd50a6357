/**
 The volume, driven by any run of create, read and delete calls after a format,
 behaves as a finite map from names to bytes with a budget of free clusters.
 */
module KagRefinement {
  import opened Bytes
  import opened KagLayout
  import opened KagVolume
  import opened KagChains

  type Name = seq<byte>
  type Files = map<Name, seq<byte>>

  // ---------------------------------------------------------------- the file store a caller sees

  datatype Op = CreateFile(name: Name, payload: seq<byte>) | ReadFile(name: Name) | DeleteFile(name: Name)

  datatype Outcome = Done(status: FsResult<()>) | Contents(contents: FsResult<seq<byte>>)

  datatype Store = Store(files: Files, free: nat)

  function ClustersOf(files: Files, name: Name): nat {
    if name in files then ClustersFor(|files[name]|) else 0
  }

  /**
   A create that finds too few clusters has already removed the old file, and it
   leaves no cluster free: everything it took is lost.
   */
  function StoreCreate(s: Store, name: Name, payload: seq<byte>): (Store, FsResult<()>) {
    var room := s.free + ClustersOf(s.files, name);
    if !NameLengthOk(name) then (s, Err(InvalidArgument))
    else if name !in s.files && |s.files| == DIR_ENTRIES then (s, Err(NoSpace))
    else if ClustersFor(|payload|) > room then (Store(s.files - {name}, 0), Err(InvalidArgument))
    else (Store(s.files[name := payload], room - ClustersFor(|payload|)), Ok(()))
  }

  function StoreRead(s: Store, name: Name): FsResult<seq<byte>> {
    if !NameLengthOk(name) then Err(InvalidArgument)
    else if name in s.files then Ok(s.files[name])
    else Err(FileNotFound)
  }

  function StoreDelete(s: Store, name: Name): (Store, FsResult<()>) {
    if !NameLengthOk(name) then (s, Err(InvalidArgument))
    else if name in s.files then (Store(s.files - {name}, s.free + ClustersOf(s.files, name)), Ok(()))
    else (s, Err(FileNotFound))
  }

  function StoreStep(s: Store, op: Op): (Store, Outcome) {
    match op
    case CreateFile(name, payload) => var r := StoreCreate(s, name, payload); (r.0, Done(r.1))
    case ReadFile(name) => (s, Contents(StoreRead(s, name)))
    case DeleteFile(name) => var r := StoreDelete(s, name); (r.0, Done(r.1))
  }

  function VolumeStep(v: Volume, op: Op): (Volume, Outcome) {
    match op
    case CreateFile(name, payload) => var r := Create(v, name, payload); (r.0, Done(r.1))
    case ReadFile(name) => (v, Contents(Read(v, name)))
    case DeleteFile(name) => var r := Delete(v, name); (r.0, Done(r.1))
  }

  function StoreRun(s: Store, ops: seq<Op>): (Store, seq<Outcome>)
    decreases |ops|
  {
    if ops == [] then (s, [])
    else
      var first := StoreStep(s, ops[0]);
      var rest := StoreRun(first.0, ops[1..]);
      (rest.0, [first.1] + rest.1)
  }

  function VolumeRun(v: Volume, ops: seq<Op>): (Volume, seq<Outcome>)
    decreases |ops|
  {
    if ops == [] then (v, [])
    else
      var first := VolumeStep(v, ops[0]);
      var rest := VolumeRun(first.0, ops[1..]);
      (rest.0, [first.1] + rest.1)
  }

  // ---------------------------------------------------------------- the volume invariant

  /** No chain visits a cluster twice and no two chains share one. */
  ghost predicate NoSharing(chains: seq<seq<nat>>) {
    && (forall i | 0 <= i < |chains| :: Distinct(chains[i]))
    && (forall i, j {:trigger chains[i], chains[j]} | 0 <= i < |chains| && 0 <= j < |chains| && i != j ::
          Apart(chains[i], chains[j]))
  }

  ghost predicate Apart(a: seq<nat>, b: seq<nat>) {
    forall x | x in a :: x !in b
  }

  ghost predicate StoredAs(v: Volume, e: DirEntry, cs: seq<nat>, files: Files) {
    var name := NulPrefix(e.name);
    && NameLengthOk(name)
    && name in files
    && e.size == |files[name]|
    && e.firstCluster == (if cs == [] then 0 else cs[0])
    && |cs| == ClustersFor(e.size)
    && IsChain(v.fat, cs)
    && e.size as nat <= |Flatten(v.data, cs)|
    && Flatten(v.data, cs)[..e.size] == files[name]
  }

  ghost predicate SlotOk(v: Volume, e: DirEntry, cs: seq<nat>, files: Files) {
    || (e.inUse == 0 && cs == [])
    || (e.inUse == 1 && StoredAs(v, e, cs, files))
  }

  ghost predicate SlotsOk(v: Volume, chains: seq<seq<nat>>, files: Files) {
    && |chains| == DIR_ENTRIES
    && forall i | 0 <= i < DIR_ENTRIES :: SlotOk(v, v.dir[i], chains[i], files)
  }

  ghost predicate UniqueNames(dir: Dir) {
    forall i, j | 0 <= i < DIR_ENTRIES && 0 <= j < DIR_ENTRIES && dir[i].inUse == 1 && dir[j].inUse == 1 ::
      NulPrefix(dir[i].name) == NulPrefix(dir[j].name) ==> i == j
  }

  ghost predicate AllFound(dir: Dir, files: Files) {
    forall n | n in files :: FindFile(dir, n, 0).Some?
  }

  /**
   The volume invariant.  Slot `i`'s clusters are `chains[i]`: each chain is
   acyclic, ends in EOC and has exactly the clusters its file size needs, chains are
   disjoint, names are unique, and together the slots hold `files`.
   */
  ghost predicate Represents(v: Volume, chains: seq<seq<nat>>, files: Files) {
    && Formatted(v.boot)
    && NoSharing(chains)
    && SlotsOk(v, chains, files)
    && UniqueNames(v.dir)
    && AllFound(v.dir, files)
  }

  /** The volume holds the store's files and has exactly its budget of free clusters. */
  ghost predicate Models(v: Volume, chains: seq<seq<nat>>, s: Store) {
    Represents(v, chains, s.files) && |FreeSet(v.fat)| == s.free
  }

  ghost predicate IsStore(v: Volume, s: Store) {
    exists chains :: Models(v, chains, s)
  }

  // ---------------------------------------------------------------- removing a file

  lemma SlotKept(v: Volume, w: Volume, e: DirEntry, cs: seq<nat>, files: Files, files': Files)
    requires SlotOk(v, e, cs, files)
    requires forall k | 0 <= k < |cs| :: 2 <= cs[k] < FAT_ENTRIES ==>
               w.fat[cs[k]] == v.fat[cs[k]] && ClusterAt(w.data, cs[k]) == ClusterAt(v.data, cs[k])
    requires e.inUse == 1 ==> var n := NulPrefix(e.name); n in files ==> n in files' && files'[n] == files[n]
    ensures SlotOk(w, e, cs, files')
  {
    if e.inUse == 1 {
      FlattenSame(v.data, w.data, cs);
    }
  }

  lemma FoundAfter(dir: Dir, dir': Dir, files: Files, files': Files, i: nat)
    requires AllFound(dir, files) && i < DIR_ENTRIES && dir' == dir[i := dir'[i]]
    requires forall n | n in files' :: (n in files && !Holds(dir[i], n)) || Holds(dir'[i], n)
    ensures AllFound(dir', files')
  {
    forall n | n in files'
      ensures FindFile(dir', n, 0).Some?
    {
      if !Holds(dir'[i], n) {
        var k := FindFile(dir, n, 0).value;
        assert Holds(dir'[k], n);
      }
    }
  }

  lemma SlotsAfterRemove(v: Volume, w: Volume, chains: seq<seq<nat>>, files: Files, i: nat, name: Name)
    requires SlotsOk(v, chains, files) && NoSharing(chains) && UniqueNames(v.dir)
    requires i < DIR_ENTRIES && v.dir[i].inUse == 1 && name == NulPrefix(v.dir[i].name)
    requires w.data == v.data && w.fat == Cleared(v.fat, chains[i]) && w.dir == v.dir[i := EMPTY_ENTRY]
    ensures SlotsOk(w, chains[i := []], files - {name})
  {
    forall j | 0 <= j < DIR_ENTRIES
      ensures SlotOk(w, w.dir[j], chains[i := []][j], files - {name})
    {
      if j != i {
        assert SlotOk(v, v.dir[j], chains[j], files);
        assert Apart(chains[j], chains[i]);
        SlotKept(v, w, v.dir[j], chains[j], files, files - {name});
      }
    }
  }

  lemma RemoveClears(v: Volume, i: nat, cs: seq<nat>)
    requires i < DIR_ENTRIES && IsChain(v.fat, cs) && Distinct(cs)
    requires v.dir[i].firstCluster == (if cs == [] then 0 else cs[0])
    ensures Remove(v, i) == (v.(fat := Cleared(v.fat, cs), dir := v.dir[i := EMPTY_ENTRY]), Ok(()))
  {
    if cs != [] {
      FreeChainFreesChain(v.fat, cs);
    } else {
      assert Cleared(v.fat, cs) == v.fat;
    }
  }

  lemma RemoveSlot(v: Volume, chains: seq<seq<nat>>, files: Files, i: nat)
    requires Represents(v, chains, files) && i < DIR_ENTRIES && v.dir[i].inUse == 1
    ensures var r := Remove(v, i);
            && r.1 == Ok(())
            && Represents(r.0, chains[i := []], files - {NulPrefix(v.dir[i].name)})
            && |FreeSet(r.0.fat)| == |FreeSet(v.fat)| + |chains[i]|
  {
    assert SlotOk(v, v.dir[i], chains[i], files);
    RemoveClears(v, i, chains[i]);
    FreeingAddsToFreeSet(v.fat, chains[i]);
    var w, name := Remove(v, i).0, NulPrefix(v.dir[i].name);
    hide Remove, NoSharing, SlotsOk, UniqueNames, AllFound, FreeSet, Cleared;
    SlotsAfterRemove(v, w, chains, files, i, name);
    FoundAfter(v.dir, w.dir, files, files - {name}, i);
    UniqueAfterRemove(v.dir, i);
    NoSharingAfterRemove(chains, i);
  }

  lemma UniqueAfterRemove(dir: Dir, i: nat)
    requires UniqueNames(dir) && i < DIR_ENTRIES
    ensures UniqueNames(dir[i := EMPTY_ENTRY])
  {
  }

  lemma NoSharingAfterRemove(chains: seq<seq<nat>>, i: nat)
    requires NoSharing(chains) && i < |chains|
    ensures NoSharing(chains[i := []])
  {
  }

  // ---------------------------------------------------------------- storing a file

  lemma {:induction false} NulPrefixOfPadded(name: Name, pad: nat)
    requires 0 !in name && pad > 0
    ensures NulPrefix(name + Zeros(pad)) == name
  {
    if name != [] {
      assert (name + Zeros(pad))[1..] == name[1..] + Zeros(pad);
      NulPrefixOfPadded(name[1..], pad);
    }
  }

  lemma ChainsAvoidFree(fat: Fat, cs: seq<nat>)
    requires IsChain(fat, cs)
    ensures forall b | 0 <= b < |cs| :: cs[b] !in FreeSet(fat)
  {
    forall b | 0 <= b < |cs|
      ensures cs[b] !in FreeSet(fat)
    {
      assert fat[cs[b]] == if b + 1 < |cs| then cs[b + 1] else EOC;
    }
  }

  /** `w` differs from `v` only in clusters that were free. */
  ghost predicate ChangesOnlyFree(v: Volume, w: Volume) {
    && (forall x | 0 <= x < FAT_ENTRIES && x !in FreeSet(v.fat) :: w.fat[x] == v.fat[x])
    && (forall x | 2 <= x < FAT_ENTRIES && x !in FreeSet(v.fat) :: ClusterAt(w.data, x) == ClusterAt(v.data, x))
  }

  lemma KeptOutsideFree(v: Volume, w: Volume, e: DirEntry, cs: seq<nat>, files: Files, files': Files)
    requires SlotOk(v, e, cs, files) && ChangesOnlyFree(v, w)
    requires forall n | n in files :: n in files' && files'[n] == files[n]
    ensures SlotOk(w, e, cs, files')
  {
    ChainsAvoidFree(v.fat, cs);
    SlotKept(v, w, e, cs, files, files');
  }

  lemma StoreFails(v: Volume, chains: seq<seq<nat>>, files: Files, slot: nat, name: Name, payload: seq<byte>)
    requires Represents(v, chains, files) && slot < DIR_ENTRIES && NameLengthOk(name)
    requires ClustersFor(|payload|) > |FreeSet(v.fat)|
    ensures var r := StoreIn(v, slot, name, payload);
            && r.1 == Err(InvalidArgument)
            && Represents(r.0, chains, files)
            && FreeSet(r.0.fat) == {}
  {
    FillExhausts(v, payload, None);
    var w := Fill(v, payload, None).0;
    forall j | 0 <= j < DIR_ENTRIES
      ensures SlotOk(w, w.dir[j], chains[j], files)
    {
      KeptOutsideFree(v, w, v.dir[j], chains[j], files, files);
    }
  }

  lemma SlotsAfterInsert(v: Volume, w: Volume, chains: seq<seq<nat>>, files: Files, slot: nat, name: Name,
                         payload: seq<byte>, cs: seq<nat>)
    requires SlotsOk(v, chains, files) && slot < DIR_ENTRIES && name !in files
    requires ChangesOnlyFree(v, w) && w.dir == v.dir[slot := w.dir[slot]]
    requires SlotOk(w, w.dir[slot], cs, files[name := payload])
    ensures SlotsOk(w, chains[slot := cs], files[name := payload])
  {
    forall j | 0 <= j < DIR_ENTRIES
      ensures SlotOk(w, w.dir[j], chains[slot := cs][j], files[name := payload])
    {
      if j != slot {
        KeptOutsideFree(v, w, v.dir[j], chains[j], files, files[name := payload]);
      }
    }
  }

  lemma NoSharingAfterInsert(v: Volume, chains: seq<seq<nat>>, files: Files, slot: nat, cs: seq<nat>)
    requires SlotsOk(v, chains, files) && NoSharing(chains) && slot < DIR_ENTRIES
    requires Distinct(cs) && forall k | 0 <= k < |cs| :: cs[k] in FreeSet(v.fat)
    ensures NoSharing(chains[slot := cs])
  {
    forall j | 0 <= j < DIR_ENTRIES
      ensures Apart(chains[j], cs) && Apart(cs, chains[j])
    {
      assert SlotOk(v, v.dir[j], chains[j], files);
      ChainsAvoidFree(v.fat, chains[j]);
    }
  }

  lemma NamesAfterInsert(v: Volume, chains: seq<seq<nat>>, files: Files, slot: nat, name: Name, e: DirEntry)
    requires SlotsOk(v, chains, files) && UniqueNames(v.dir)
    requires slot < DIR_ENTRIES && name !in files && NulPrefix(e.name) == name
    ensures UniqueNames(v.dir[slot := e])
  {
    forall j | 0 <= j < DIR_ENTRIES && v.dir[j].inUse == 1
      ensures NulPrefix(v.dir[j].name) != name
    {
      assert SlotOk(v, v.dir[j], chains[j], files);
    }
  }

  /** Adding a chain `cs` of formerly free clusters and an entry `e` for it. */
  lemma InsertSlot(v: Volume, w: Volume, chains: seq<seq<nat>>, files: Files,
                   slot: nat, name: Name, payload: seq<byte>, cs: seq<nat>, e: DirEntry)
    requires Represents(v, chains, files) && slot < DIR_ENTRIES && v.dir[slot].inUse == 0
    requires name !in files && Holds(e, name)
    requires w.boot == v.boot && w.dir == v.dir[slot := e]
    requires StoredAs(w, e, cs, files[name := payload])
    requires Distinct(cs) && forall k | 0 <= k < |cs| :: cs[k] in FreeSet(v.fat)
    requires ChangesOnlyFree(v, w)
    ensures Represents(w, chains[slot := cs], files[name := payload])
  {
    SlotsAfterInsert(v, w, chains, files, slot, name, payload, cs);
    NoSharingAfterInsert(v, chains, files, slot, cs);
    NamesAfterInsert(v, chains, files, slot, name, e);
    FoundAfter(v.dir, w.dir, files, files[name := payload], slot);
  }

  ghost function Below(n: nat): (s: set<nat>)
    ensures forall c: nat :: c in s <==> c < n
    ensures |s| == n
  {
    if n == 0 then {} else Below(n - 1) + {n - 1}
  }

  lemma SubsetCount(a: set<nat>, b: set<nat>)
    requires a <= b
    ensures |a| <= |b|
    ensures a != b ==> |a| < |b|
  {
    assert b == a + (b - a);
  }

  lemma BoundedCount(a: set<nat>, n: nat)
    requires forall x | x in a :: x < n
    ensures |a| <= n
    ensures (forall x: nat | x < n :: x in a) <==> |a| == n
  {
    SubsetCount(a, Below(n));
    assert |a| == n <==> a == Below(n);
  }

  /** Nothing that fits on the disk is too long for the 32-bit size field. */
  lemma StoredSizeFits(fat: Fat, n: nat)
    requires ClustersFor(n) <= |FreeSet(fat)|
    ensures n < 0x1_0000_0000
  {
    BoundedCount(FreeSet(fat), FAT_ENTRIES);
  }

  lemma FilledIsStored(v: Volume, w: Volume, files: Files, name: Name, payload: seq<byte>, cs: seq<nat>)
    requires NameLengthOk(name) && 0 !in name && |payload| < 0x1_0000_0000
    requires w.fat == v.fat && w.data == v.data
    requires IsChain(v.fat, cs) && |cs| == ClustersFor(|payload|)
    requires |payload| <= |Flatten(v.data, cs)| && Flatten(v.data, cs)[..|payload|] == payload
    ensures var e := NewEntry(name, if cs == [] then 0 else cs[0], |payload|);
            Holds(e, name) && StoredAs(w, e, cs, files[name := payload])
  {
    NulPrefixOfPadded(name, 22 - |name|);
  }

  lemma StoreSucceeds(v: Volume, chains: seq<seq<nat>>, files: Files, slot: nat, name: Name, payload: seq<byte>)
    returns (cs: seq<nat>)
    requires Represents(v, chains, files) && slot < DIR_ENTRIES && v.dir[slot].inUse == 0
    requires NameLengthOk(name) && 0 !in name && name !in files
    requires ClustersFor(|payload|) <= |FreeSet(v.fat)|
    ensures var r := StoreIn(v, slot, name, payload);
            && r.1 == Ok(())
            && Represents(r.0, chains[slot := cs], files[name := payload])
            && |FreeSet(r.0.fat)| == |FreeSet(v.fat)| - ClustersFor(|payload|)
  {
    hide Represents, StoredAs, ChangesOnlyFree, Flatten;
    StoredSizeFits(v.fat, |payload|);
    var filled := v;
    if payload == [] {
      cs := [];
    } else {
      cs := FillSucceeds(v, payload, None);
      filled := Fill(v, payload, None).0;
    }
    var e := NewEntry(name, if cs == [] then 0 else cs[0], |payload|);
    var w := filled.(dir := v.dir[slot := e]);
    FilledIsStored(filled, w, files, name, payload, cs);
    FillChangesOnlyFree(v, filled, w, cs);
    InsertSlot(v, w, chains, files, slot, name, payload, cs, e);
    FreeSetAfterFill(v.fat, filled.fat, cs);
  }

  lemma FillChangesOnlyFree(v: Volume, filled: Volume, w: Volume, cs: seq<nat>)
    requires forall k | 0 <= k < |cs| :: cs[k] in FreeSet(v.fat)
    requires forall x | 0 <= x < FAT_ENTRIES && x !in cs :: filled.fat[x] == v.fat[x]
    requires forall x | 2 <= x < FAT_ENTRIES && x !in cs :: ClusterAt(filled.data, x) == ClusterAt(v.data, x)
    requires w.fat == filled.fat && w.data == filled.data
    ensures ChangesOnlyFree(v, w)
  {
  }

  lemma FreeSetAfterFill(fat: Fat, fat': Fat, cs: seq<nat>)
    requires Distinct(cs) && (forall k | 0 <= k < |cs| :: cs[k] in FreeSet(fat))
    requires FreeSet(fat') == FreeSet(fat) - Elements(cs)
    ensures |FreeSet(fat')| == |FreeSet(fat)| - |cs|
  {
    DistinctCount(cs);
    assert Elements(cs) <= FreeSet(fat);
  }

  // ---------------------------------------------------------------- counting directory slots

  ghost function UsedSlots(dir: Dir): set<nat> {
    set i: nat | i < DIR_ENTRIES && dir[i].inUse == 1
  }

  lemma {:induction false} NamesMatchSlots(dir: Dir, slots: set<nat>, names: set<Name>)
    requires forall i | i in slots :: i < DIR_ENTRIES && dir[i].inUse == 1 && NulPrefix(dir[i].name) in names
    requires UniqueNames(dir)
    requires forall n | n in names :: exists i | i in slots :: NulPrefix(dir[i].name) == n
    ensures |slots| == |names|
    decreases slots
  {
    if slots == {} {
      assert names == {};
    } else {
      var i :| i in slots;
      NamesMatchSlots(dir, slots - {i}, names - {NulPrefix(dir[i].name)});
    }
  }

  lemma FilesMatchSlots(v: Volume, chains: seq<seq<nat>>, files: Files)
    requires Represents(v, chains, files)
    ensures |UsedSlots(v.dir)| == |files|
  {
    var used := UsedSlots(v.dir);
    forall i | i in used
      ensures NulPrefix(v.dir[i].name) in files.Keys
    {
      assert SlotOk(v, v.dir[i], chains[i], files);
    }
    forall n | n in files.Keys
      ensures exists i | i in used :: NulPrefix(v.dir[i].name) == n
    {
      assert FindFile(v.dir, n, 0).value in used;
    }
    NamesMatchSlots(v.dir, used, files.Keys);
  }

  lemma UsedOrUnused(v: Volume, chains: seq<seq<nat>>, files: Files, i: nat)
    requires Represents(v, chains, files) && i < DIR_ENTRIES
    ensures i in UsedSlots(v.dir) <==> v.dir[i].inUse != 0
  {
    assert SlotOk(v, v.dir[i], chains[i], files);
    hide StoredAs, NoSharing, UniqueNames, AllFound;
  }

  /** The directory is full exactly when it holds 256 files. */
  lemma FullDirectory(v: Volume, chains: seq<seq<nat>>, files: Files)
    requires Represents(v, chains, files)
    ensures FreeSlot(v.dir, 0).None? <==> |files| == DIR_ENTRIES
  {
    hide Represents, UsedSlots, FreeSlot;
    FilesMatchSlots(v, chains, files);
    UsedAreSlots(v.dir);
    BoundedCount(UsedSlots(v.dir), DIR_ENTRIES);
    forall i: nat | i < DIR_ENTRIES
      ensures i in UsedSlots(v.dir) <==> v.dir[i].inUse != 0
    {
      UsedOrUnused(v, chains, files, i);
    }
  }

  lemma UsedAreSlots(dir: Dir)
    ensures forall i | i in UsedSlots(dir) :: i < DIR_ENTRIES
  {
  }

  // ---------------------------------------------------------------- one step

  /** A name is found exactly when the map has it, and its slot holds what the map says. */
  lemma Lookup(v: Volume, chains: seq<seq<nat>>, files: Files, name: Name)
    requires Represents(v, chains, files)
    ensures FindFile(v.dir, name, 0).Some? <==> name in files
    ensures name in files ==> var i := FindFile(v.dir, name, 0).value;
              v.dir[i].inUse == 1 && NulPrefix(v.dir[i].name) == name && |chains[i]| == ClustersOf(files, name)
  {
    var slot := FindFile(v.dir, name, 0);
    if slot.Some? {
      assert SlotOk(v, v.dir[slot.value], chains[slot.value], files);
    }
  }

  lemma ReadRefines(v: Volume, chains: seq<seq<nat>>, s: Store, name: Name)
    requires Models(v, chains, s)
    ensures Read(v, name) == StoreRead(s, name)
  {
    Lookup(v, chains, s.files, name);
    if NameLengthOk(name) && name in s.files {
      var i := FindFile(v.dir, name, 0).value;
      assert SlotOk(v, v.dir[i], chains[i], s.files);
      ReadChainReadsChain(v, chains[i], v.dir[i].size);
    }
  }

  /** The store after removing `name`, whether or not it was there. */
  ghost function Without(s: Store, name: Name): Store {
    Store(s.files - {name}, s.free + ClustersOf(s.files, name))
  }

  lemma ExistingRemoved(v: Volume, chains: seq<seq<nat>>, s: Store, name: Name) returns (chains': seq<seq<nat>>)
    requires Models(v, chains, s)
    ensures RemoveExisting(v, name).1 == Ok(())
    ensures Models(RemoveExisting(v, name).0, chains', Without(s, name))
  {
    Lookup(v, chains, s.files, name);
    chains' := chains;
    if name in s.files {
      var i := FindFile(v.dir, name, 0).value;
      RemoveSlot(v, chains, s.files, i);
      chains' := chains[i := []];
    } else {
      assert s.files - {name} == s.files;
    }
  }

  lemma DeleteRefines(v: Volume, chains: seq<seq<nat>>, s: Store, name: Name) returns (chains': seq<seq<nat>>)
    requires Models(v, chains, s)
    ensures Delete(v, name).1 == StoreDelete(s, name).1
    ensures Models(Delete(v, name).0, chains', StoreDelete(s, name).0)
  {
    Lookup(v, chains, s.files, name);
    if NameLengthOk(name) && name in s.files {
      chains' := ExistingRemoved(v, chains, s, name);
    } else {
      chains' := chains;
    }
  }

  /** Create, from the point where the old file is gone and `slot` is free. */
  lemma StoreRefines(v: Volume, chains: seq<seq<nat>>, s: Store, slot: nat, name: Name, payload: seq<byte>)
    returns (chains': seq<seq<nat>>)
    requires Models(v, chains, s) && slot < DIR_ENTRIES && v.dir[slot].inUse == 0
    requires NameLengthOk(name) && 0 !in name && name !in s.files
    ensures var r, need := StoreIn(v, slot, name, payload), ClustersFor(|payload|);
            if need <= s.free
            then r.1 == Ok(()) && Models(r.0, chains', Store(s.files[name := payload], s.free - need))
            else r.1 == Err(InvalidArgument) && Models(r.0, chains', Store(s.files, 0))
  {
    if ClustersFor(|payload|) <= s.free {
      var cs := StoreSucceeds(v, chains, s.files, slot, name, payload);
      chains' := chains[slot := cs];
    } else {
      StoreFails(v, chains, s.files, slot, name, payload);
      chains' := chains;
    }
  }

  lemma MapFacts(files: Files, name: Name, payload: seq<byte>)
    ensures (files - {name})[name := payload] == files[name := payload]
    ensures name in files ==> |files - {name}| == |files| - 1
    ensures name !in files ==> files - {name} == files
  {
    assert (files - {name}).Keys == files.Keys - {name};
  }

  lemma FilesBound(v: Volume, chains: seq<seq<nat>>, files: Files)
    requires Represents(v, chains, files)
    ensures |files| <= DIR_ENTRIES
  {
    FilesMatchSlots(v, chains, files);
    BoundedCount(UsedSlots(v.dir), DIR_ENTRIES);
  }

  /** Create fails for want of a slot exactly when a new file meets 256 others. */
  lemma SlotRunsOut(v: Volume, chains: seq<seq<nat>>, v1: Volume, chains1: seq<seq<nat>>, s: Store, name: Name)
    requires Models(v, chains, s) && Models(v1, chains1, Without(s, name))
    ensures FreeSlot(v1.dir, 0).None? <==> name !in s.files && |s.files| == DIR_ENTRIES
  {
    FullDirectory(v1, chains1, s.files - {name});
    FilesBound(v, chains, s.files);
    MapFacts(s.files, name, []);
  }

  lemma CreateUnfolds(v: Volume, chains: seq<seq<nat>>, s: Store, name: Name, payload: seq<byte>)
    requires Models(v, chains, s) && NameLengthOk(name) && RemoveExisting(v, name).1 == Ok(())
    ensures var v1 := RemoveExisting(v, name).0;
            var slot := FreeSlot(v1.dir, 0);
            Create(v, name, payload) ==
            if slot.None? then (v1, Err(NoSpace)) else StoreIn(v1, slot.value, name, payload)
  {
  }

  lemma StoreCreateUnfolds(s: Store, name: Name, payload: seq<byte>)
    requires NameLengthOk(name)
    ensures name !in Without(s, name).files
    ensures var u, need := Without(s, name), ClustersFor(|payload|);
            StoreCreate(s, name, payload) ==
            if name !in s.files && |s.files| == DIR_ENTRIES then (u, Err(NoSpace))
            else if need <= u.free then (Store(u.files[name := payload], u.free - need), Ok(()))
            else (Store(u.files, 0), Err(InvalidArgument))
  {
    MapFacts(s.files, name, payload);
  }

  lemma NamedCreateRefines(v: Volume, chains: seq<seq<nat>>, s: Store, name: Name, payload: seq<byte>)
    returns (chains': seq<seq<nat>>)
    requires Models(v, chains, s) && NameLengthOk(name) && 0 !in name
    ensures Create(v, name, payload).1 == StoreCreate(s, name, payload).1
    ensures Models(Create(v, name, payload).0, chains', StoreCreate(s, name, payload).0)
  {
    hide *;
    var v1 := RemoveExisting(v, name).0;
    chains' := ExistingRemoved(v, chains, s, name);
    SlotRunsOut(v, chains, v1, chains', s, name);
    CreateUnfolds(v, chains, s, name, payload);
    StoreCreateUnfolds(s, name, payload);
    if FreeSlot(v1.dir, 0).Some? {
      chains' := StoreRefines(v1, chains', Without(s, name), FreeSlot(v1.dir, 0).value, name, payload);
    }
  }

  lemma CreateRefines(v: Volume, chains: seq<seq<nat>>, s: Store, name: Name, payload: seq<byte>)
    returns (chains': seq<seq<nat>>)
    requires Models(v, chains, s) && 0 !in name
    ensures Create(v, name, payload).1 == StoreCreate(s, name, payload).1
    ensures Models(Create(v, name, payload).0, chains', StoreCreate(s, name, payload).0)
  {
    if NameLengthOk(name) {
      chains' := NamedCreateRefines(v, chains, s, name, payload);
    } else {
      chains' := chains;
    }
  }

  // ---------------------------------------------------------------- whole runs

  lemma FormattedFree(fat: Fat)
    requires fat == FORMATTED_FAT
    ensures |FreeSet(fat)| == FAT_ENTRIES - 2
  {
    var all := FreeSet(fat) + {0, 1};
    BoundedCount(all, FAT_ENTRIES);
    assert FreeSet(fat) !! {0, 1};
  }

  const EMPTY_STORE := Store(map[], FAT_ENTRIES - 2)

  lemma FormatIsEmpty(v: Volume) returns (chains: seq<seq<nat>>)
    ensures Models(Format(v), chains, EMPTY_STORE)
  {
    BootRoundTrip(BOOT);
    chains := seq(DIR_ENTRIES, _ => []);
    var w := Format(v);
    assert forall i | 0 <= i < DIR_ENTRIES :: w.dir[i] == EMPTY_ENTRY;
    FormattedFree(w.fat);
  }

  /**
   A formatted disk byte by byte: magic number, sector and cluster size, places and sizes of
   the regions, number of clusters; the two reserved FAT entries; zeros up to the data.
   */
  lemma FormattedBytes(disk: DiskImage, v: Volume)
    requires View(disk) == Format(v)
    ensures disk[..8] == [0x36, 0x31, 0x54, 0x41, 0x46, 0x47, 0x41, 0x4B]
    ensures disk[8..10] == [0, 2] && disk[10..14] == [8, 0, 0, 0] && disk[14..18] == [1, 0, 0, 0]
    ensures disk[18..22] == [64, 0, 0, 0] && disk[22..26] == [65, 0, 0, 0] && disk[26..30] == [16, 0, 0, 0]
    ensures disk[30..34] == [81, 0, 0, 0] && disk[34..38] == [0xF5, 0xFF, 3, 0]
    ensures disk[512..516] == [0xF8, 0xFF, 0xFF, 0xFF]
    ensures forall k | 38 <= k < 41_472 && !(512 <= k < 516) :: disk[k] == 0
    ensures disk[41_472..] == v.data
  {
    hide View, Format, EncodeBoot;
    BootIsFormatted(disk, v);
    BootBytes(disk[..512]);
    ReservedEntries(disk, v);
    DataIsKept(disk, v);
    forall k | 38 <= k < 41_472 && !(512 <= k < 516)
      ensures disk[k] == 0
    {
      if k < 512 {
        assert disk[k] == disk[..512][k];
      } else if k < 33_280 {
        ZeroFatByte(disk, v, (k - 512) / 2, k);
      } else {
        ZeroDirByte(disk, v, (k - 33_280) / 32, k);
      }
    }
  }

  lemma BootIsFormatted(disk: DiskImage, v: Volume)
    requires View(disk) == Format(v)
    ensures disk[..512] == EncodeBoot(BOOT)
  {
    hide EncodeBoot, FatAt, DirAt;
  }

  lemma DataIsKept(disk: DiskImage, v: Volume)
    requires View(disk) == Format(v)
    ensures disk[41_472..] == v.data
  {
    hide EncodeBoot, FatAt, DirAt;
  }

  lemma FatIsFormatted(disk: DiskImage, v: Volume, c: nat)
    requires View(disk) == Format(v) && c < FAT_ENTRIES
    ensures FatAt(disk, c) == if c == 0 then 0xFFF8 else if c == 1 then 0xFFFF else 0
  {
    hide EncodeBoot, DirAt, FatAt;
    assert View(disk).fat[c] == FatAt(disk, c);
  }

  lemma ReservedEntries(disk: DiskImage, v: Volume)
    requires View(disk) == Format(v)
    ensures disk[512..516] == [0xF8, 0xFF, 0xFF, 0xFF]
  {
    hide View, Format;
    FatIsFormatted(disk, v, 0);
    FatIsFormatted(disk, v, 1);
    LittleEndian(disk[512..514], Zeros(4), Zeros(8));
    LittleEndian(disk[514..516], Zeros(4), Zeros(8));
    hide Decode16;
    assert disk[512..514][0] == 0xF8 && disk[512..514][1] == 0xFF;
    assert disk[514..516][0] == 0xFF && disk[514..516][1] == 0xFF;
  }

  lemma EncodedMagic()
    ensures Encode64(0x4B41_4746_4154_3136) == [0x36, 0x31, 0x54, 0x41, 0x46, 0x47, 0x41, 0x4B]
    ensures Encode16(512) == [0, 2]
  {
    EncodedHalves();
    hide Encode32;
  }

  lemma EncodedHalves()
    ensures Encode32(0x4154_3136) == [0x36, 0x31, 0x54, 0x41] && Encode32(0x4B41_4746) == [0x46, 0x47, 0x41, 0x4B]
  {
  }

  lemma EncodedWords()
    ensures Encode32(8) == [8, 0, 0, 0] && Encode32(1) == [1, 0, 0, 0] && Encode32(64) == [64, 0, 0, 0]
    ensures Encode32(65) == [65, 0, 0, 0] && Encode32(16) == [16, 0, 0, 0] && Encode32(81) == [81, 0, 0, 0]
    ensures Encode32(262_133) == [0xF5, 0xFF, 3, 0]
  {
  }

  lemma BootBytes(s: Sector)
    requires s == EncodeBoot(BOOT)
    ensures s[..8] == [0x36, 0x31, 0x54, 0x41, 0x46, 0x47, 0x41, 0x4B]
    ensures s[8..10] == [0, 2] && s[10..14] == [8, 0, 0, 0] && s[14..18] == [1, 0, 0, 0]
    ensures s[18..22] == [64, 0, 0, 0] && s[22..26] == [65, 0, 0, 0] && s[26..30] == [16, 0, 0, 0]
    ensures s[30..34] == [81, 0, 0, 0] && s[34..38] == [0xF5, 0xFF, 3, 0]
    ensures forall k | 38 <= k < 512 :: s[k] == 0
  {
    EncodedMagic();
    EncodedWords();
    hide Encode16, Encode32, Encode64;
    assert s[..8] == Encode64(BOOT.magic) && s[8..10] == Encode16(BOOT.bytesPerSector);
    assert s[10..14] == Encode32(BOOT.sectorsPerCluster) && s[14..18] == Encode32(BOOT.fatStartLba);
    assert s[18..22] == Encode32(BOOT.fatSectors) && s[22..26] == Encode32(BOOT.rootDirStartLba);
    assert s[26..30] == Encode32(BOOT.rootDirSectors) && s[30..34] == Encode32(BOOT.dataStartLba);
    assert s[34..38] == Encode32(BOOT.totalClusters);
  }

  lemma ZeroFatByte(disk: DiskImage, v: Volume, c: nat, k: nat)
    requires View(disk) == Format(v) && 2 <= c < FAT_ENTRIES && 512 + 2 * c <= k < 514 + 2 * c
    ensures disk[k] == 0
  {
    hide View, Format;
    FatIsFormatted(disk, v, c);
    LittleEndian(disk[512 + 2 * c..514 + 2 * c], Zeros(4), Zeros(8));
  }

  lemma DirIsFormatted(disk: DiskImage, v: Volume, i: nat)
    requires View(disk) == Format(v) && i < DIR_ENTRIES
    ensures DirAt(disk, i) == EMPTY_ENTRY
  {
    hide EncodeBoot, FatAt, DirAt;
    assert View(disk).dir[i] == DirAt(disk, i);
  }

  lemma ZeroDirByte(disk: DiskImage, v: Volume, i: nat, k: nat)
    requires View(disk) == Format(v) && i < DIR_ENTRIES && 33_280 + 32 * i <= k < 33_312 + 32 * i
    ensures disk[k] == 0
  {
    DirIsFormatted(disk, v, i);
    hide View, Format;
    var lo := 33_280 + 32 * i;
    var s := disk[lo..lo + 32];
    EntryRoundTrip(EMPTY_ENTRY, s);
    assert s == EncodeEntry(EMPTY_ENTRY);
    assert s[k - lo] == 0;
  }

  /** Nothing is created under a name with a NUL byte. */
  ghost predicate NulFree(ops: seq<Op>) {
    forall k | 0 <= k < |ops| :: ops[k].CreateFile? ==> 0 !in ops[k].name
  }

  lemma StepRefines(v: Volume, chains: seq<seq<nat>>, s: Store, op: Op) returns (chains': seq<seq<nat>>)
    requires Models(v, chains, s) && (op.CreateFile? ==> 0 !in op.name)
    ensures VolumeStep(v, op).1 == StoreStep(s, op).1
    ensures Models(VolumeStep(v, op).0, chains', StoreStep(s, op).0)
  {
    match op {
      case CreateFile(name, payload) => chains' := CreateRefines(v, chains, s, name, payload);
      case ReadFile(name) => ReadRefines(v, chains, s, name); chains' := chains;
      case DeleteFile(name) => chains' := DeleteRefines(v, chains, s, name);
    }
  }

  lemma {:induction false} RunRefines(v: Volume, chains: seq<seq<nat>>, s: Store, ops: seq<Op>)
    requires Models(v, chains, s) && NulFree(ops)
    ensures VolumeRun(v, ops).1 == StoreRun(s, ops).1
    ensures IsStore(VolumeRun(v, ops).0, StoreRun(s, ops).0)
    decreases |ops|
  {
    if ops != [] {
      var chains' := StepRefines(v, chains, s, ops[0]);
      RunRefines(VolumeStep(v, ops[0]).0, chains', StoreStep(s, ops[0]).0, ops[1..]);
    }
  }

  /**
   Main theorem.  Whatever was on the disk, after a format every run of calls that
   creates only NUL-free names gives the caller exactly the answers of the file store, call
   by call, and the volume still satisfies the invariant.
   */
  lemma VolumeIsAFileStore(v: Volume, ops: seq<Op>)
    requires NulFree(ops)
    ensures VolumeRun(Format(v), ops).1 == StoreRun(EMPTY_STORE, ops).1
    ensures IsStore(VolumeRun(Format(v), ops).0, StoreRun(EMPTY_STORE, ops).0)
  {
    var chains := FormatIsEmpty(v);
    RunRefines(Format(v), chains, EMPTY_STORE, ops);
  }

  // ---------------------------------------------------------------- no cluster is lost, but for exhaustion

  ghost function Total(files: Files): nat
    decreases |files|
  {
    if files == map[] then 0
    else
      var n :| n in files;
      assert |files - {n}| < |files| by {
        MapFacts(files, n, []);
      }
      ClustersFor(|files[n]|) + Total(files - {n})
  }

  lemma {:induction false} TotalRemove(files: Files, n: Name)
    requires n in files
    ensures Total(files) == ClustersFor(|files[n]|) + Total(files - {n})
    decreases |files|
  {
    var m :| m in files && Total(files) == ClustersFor(|files[m]|) + Total(files - {m});
    if m != n {
      MapFacts(files, m, []);
      TotalRemove(files - {m}, n);
      MapFacts(files, n, []);
      TotalRemove(files - {n}, m);
      assert files - {m} - {n} == files - {n} - {m};
    }
  }

  /** Clusters that a step leaves neither free nor in any file: all those a create took before it ran out. */
  function Lost(s: Store, op: Op): nat {
    if op.CreateFile? && NameLengthOk(op.name) && (op.name in s.files || |s.files| != DIR_ENTRIES) &&
       ClustersFor(|op.payload|) > s.free + ClustersOf(s.files, op.name)
    then s.free + ClustersOf(s.files, op.name)
    else 0
  }

  lemma StepConserves(s: Store, op: Op)
    ensures var t := StoreStep(s, op).0;
            Total(t.files) + t.free + Lost(s, op) == Total(s.files) + s.free
  {
    hide Total, ClustersFor;
    var n := op.name;
    if n in s.files {
      TotalRemove(s.files, n);
    } else {
      assert s.files - {n} == s.files;
    }
    if op.CreateFile? {
      var grown := s.files[n := op.payload];
      TotalRemove(grown, n);
      assert grown - {n} == s.files - {n};
    }
  }

  function LostInRun(s: Store, ops: seq<Op>): nat
    decreases |ops|
  {
    if ops == [] then 0 else Lost(s, ops[0]) + LostInRun(StoreStep(s, ops[0]).0, ops[1..])
  }

  lemma {:induction false} RunConserves(s: Store, ops: seq<Op>)
    ensures var t := StoreRun(s, ops).0;
            Total(t.files) + t.free + LostInRun(s, ops) == Total(s.files) + s.free
    decreases |ops|
  {
    if ops != [] {
      StepConserves(s, ops[0]);
      RunConserves(StoreStep(s, ops[0]).0, ops[1..]);
    }
  }

  /**
   Over every run from a formatted disk, free clusters, clusters in files and
   clusters lost to exhausted creates add up to all 16382.
   */
  lemma ClustersAddUp(v: Volume, ops: seq<Op>)
    requires NulFree(ops)
    ensures |FreeSet(VolumeRun(Format(v), ops).0.fat)| + Total(StoreRun(EMPTY_STORE, ops).0.files)
            + LostInRun(EMPTY_STORE, ops) == FAT_ENTRIES - 2
  {
    VolumeIsAFileStore(v, ops);
    RunConserves(EMPTY_STORE, ops);
  }

  // ---------------------------------------------------------------- names with a NUL byte

  /**
   Reading back what was just created works exactly for names without a NUL byte:
   the stored name is cut at the first NUL, so a name that has one is never found.
   */
  lemma ReadBackIffNulFree(v: Volume, chains: seq<seq<nat>>, s: Store, name: Name, payload: seq<byte>)
    requires Models(v, chains, s)
    requires Create(v, name, payload).1 == Ok(())
    ensures Read(Create(v, name, payload).0, name) == Ok(payload) <==> 0 !in name
  {
    var w := Create(v, name, payload).0;
    if 0 in name {
      assert FindFile(w.dir, name, 0).None?;
    } else {
      var chains' := CreateRefines(v, chains, s, name, payload);
      ReadRefines(w, chains', StoreCreate(s, name, payload).0, name);
    }
  }

  lemma NulNeverFound(dir: Dir, name: Name)
    requires 0 in name
    ensures FindFile(dir, name, 0).None?
  {
    hide FindFile;
    assert forall i | 0 <= i < DIR_ENTRIES :: !Holds(dir[i], name);
  }

  lemma EmptyCreate(v: Volume, name: Name)
    requires Formatted(v.boot) && NameLengthOk(name) && 0 in name && FreeSlot(v.dir, 0).Some?
    ensures Create(v, name, []).1 == Ok(())
  {
    NulNeverFound(v.dir, name);
    hide FindFile, FreeSlot, Formatted, NewEntry;
  }

  /** A name with a NUL byte: the create succeeds, and the file cannot be found under its name. */
  lemma NulNameIsLost(v: Volume)
    ensures var r := Create(Format(v), [65, 0], []);
            r.1 == Ok(()) && Read(r.0, [65, 0]) == Err(FileNotFound)
  {
    var name: Name := [65, 0];
    assert name[1] == 0;
    var chains := FormatIsEmpty(v);
    ModelIsFormatted(Format(v), chains);
    FormattedDirectory(v, name);
    hide Create, FindFile, FreeSlot, Format, Models, Formatted;
    EmptyCreate(Format(v), name);
    NulNeverFound(Create(Format(v), name, []).0.dir, name);
  }

  lemma ModelIsFormatted(v: Volume, chains: seq<seq<nat>>)
    requires Models(v, chains, EMPTY_STORE)
    ensures Formatted(v.boot)
  {
  }

  lemma FormattedDirectory(v: Volume, name: Name)
    ensures FindFile(Format(v).dir, name, 0) == None && FreeSlot(Format(v).dir, 0) == Some(0)
  {
  }

  /** A file larger than the volume: the error is not the one for want of space. */
  lemma FullVolumeIsInvalidArgument(v: Volume, payload: seq<byte>)
    requires |payload| > (FAT_ENTRIES - 2) * CLUSTER_BYTES
    ensures Create(Format(v), [65], payload).1 == Err(InvalidArgument)
  {
    hide Create, Models;
    var chains := FormatIsEmpty(v);
    var chains' := CreateRefines(Format(v), chains, EMPTY_STORE, [65], payload);
  }
}
