/**
 What kef-tool does to a disk image.  The tool repeats the kernel's filesystem code
 without the FAT-range guard, so it reads FAT entries past the FAT from whatever bytes
 follow it.
 */
module HostImage {
  import opened Bytes
  import opened KagLayout
  import opened KagVolume
  import opened KagChains
  import opened KagRefinement

  /** The 16-bit word the tool takes for FAT entry `c`, in or beyond the FAT. */
  function RawEntry(disk: DiskImage, c: nat): u16
    requires c < 0x1_0000
  {
    Decode16(disk[FAT_START + 2 * c..FAT_START + 2 * c + 2])
  }

  ghost function RawUsed(disk: DiskImage): set<nat> {
    set c: nat | c < 0x1_0000 && RawEntry(disk, c) != FREE
  }

  lemma RawEntryInFat(disk: DiskImage, c: nat)
    requires c < FAT_ENTRIES
    ensures RawEntry(disk, c) == View(disk).fat[c]
  {
    assert View(disk).fat[c] == FatAt(disk, c);
  }

  lemma RawWrite(disk: DiskImage, c: nat, v: u16)
    requires c < 0x1_0000
    ensures var d := Splice(disk, FAT_START + 2 * c, Encode16(v));
            && RawEntry(d, c) == v
            && (forall x: nat | x < 0x1_0000 && x != c :: RawEntry(d, x) == RawEntry(disk, x))
  {
    var d := Splice(disk, FAT_START + 2 * c, Encode16(v));
    RoundTrip16(v, Zeros(2));
    forall x: nat | x < 0x1_0000 && x != c
      ensures RawEntry(d, x) == RawEntry(disk, x)
    {
      assert d[FAT_START + 2 * x..FAT_START + 2 * x + 2] == disk[FAT_START + 2 * x..FAT_START + 2 * x + 2];
    }
  }

  /** The first zero word at or after entry `from`. */
  ghost function LeastRaw(disk: DiskImage, from: nat, max: nat): (r: Option<nat>)
    requires max < 0x1_0000
    ensures r.Some? ==> from <= r.value <= max && RawEntry(disk, r.value) == FREE
    ensures forall c | from <= c < (if r.Some? then r.value else max + 1) :: RawEntry(disk, c) != FREE
    decreases if from <= max then max - from + 1 else 0, |disk|
  {
    if from > max then None
    else if RawEntry(disk, from) == FREE then Some(from)
    else LeastRaw(disk, from + 1, max)
  }

  /** Up to its limit the tool picks what the kernel picks; with a full FAT it looks further. */
  lemma LeastRawInFat(disk: DiskImage, max: nat)
    requires max < 0x1_0000
    ensures match LeastFree(View(disk).fat, 2)
            case Some(c) => LeastRaw(disk, 2, max) == if c <= max then Some(c) else None
            case None => LeastRaw(disk, 2, max) == LeastRaw(disk, FAT_ENTRIES, max)
  {
    var fat := View(disk).fat;
    forall c | 2 <= c < FAT_ENTRIES
      ensures RawEntry(disk, c) == fat[c]
    {
      RawEntryInFat(disk, c);
    }
  }

  /**
   Once the FAT is full, an unused directory slot looks like sixteen free FAT
   entries to the tool: it allocates a "cluster" that is really part of the
   directory, where the kernel reports an error and changes nothing.
   */
  lemma FullFatSpillsIntoDirectory(disk: DiskImage, slot: nat)
    requires slot < DIR_ENTRIES && View(disk).dir[slot] == EMPTY_ENTRY
    requires LeastFree(View(disk).fat, 2).None?
    ensures var r := LeastRaw(disk, 2, 65_526);
            && r.Some? && FAT_ENTRIES <= r.value <= FAT_ENTRIES + 16 * slot
            && View(Splice(disk, FAT_START + 2 * r.value, Encode16(EOC))).dir != View(disk).dir
  {
    var c := FAT_ENTRIES + 16 * slot;
    ZeroSlotIsRawFree(disk, slot);
    LeastRawInFat(disk, 65_526);
    var r := LeastRaw(disk, 2, 65_526).value;
    var d := Splice(disk, FAT_START + 2 * r, Encode16(EOC));
    var i, lo := (r - FAT_ENTRIES) / 16, FAT_START + 2 * r;
    if View(d).dir == View(disk).dir {
      DirBytesAgree(disk, d, i);
      assert false;
    }
  }

  lemma ZeroSlotIsRawFree(disk: DiskImage, slot: nat)
    requires slot < DIR_ENTRIES && View(disk).dir[slot] == EMPTY_ENTRY
    ensures RawEntry(disk, FAT_ENTRIES + 16 * slot) == FREE
  {
    var lo := DIR_START + 32 * slot;
    assert View(disk).dir[slot] == DirAt(disk, slot);
    assert disk[lo..lo + 32][..22] == Zeros(22);
    assert disk[lo] == disk[lo..lo + 32][..22][0] == 0;
    assert disk[lo + 1] == disk[lo..lo + 32][..22][1] == 0;
    assert disk[lo..lo + 2] == [0, 0];
  }

  // ---------------------------------------------------------------- the tool's operations on an image

  ghost function SetWord(disk: DiskImage, c: nat, v: u16): DiskImage
    requires c < 0x1_0000
  {
    Splice(disk, FAT_START + 2 * c, Encode16(v))
  }

  ghost function SetEntry(disk: DiskImage, i: nat, e: DirEntry): DiskImage
    requires i < DIR_ENTRIES
  {
    Splice(disk, DIR_START + 32 * i, EncodeEntry(e))
  }

  lemma SetWordFrees(disk: DiskImage, c: nat)
    requires 2 <= c < 0x1_0000
    ensures RawUsed(SetWord(disk, c, FREE)) == RawUsed(disk) - {c}
    ensures RawEntry(disk, c) != FREE ==> c in RawUsed(disk)
  {
    RawWrite(disk, c, FREE);
  }

  /** Free words along a chain until it ends, wherever it leads. */
  ghost function RawFree(disk: DiskImage, current: u16): DiskImage
    decreases RawUsed(disk), if 2 <= current < RESERVED then 1 else 0
  {
    if current < 2 || current >= RESERVED then disk
    else
      SetWordFrees(disk, current);
      var next := RawEntry(disk, current);
      var disk1 := SetWord(disk, current, FREE);
      if next >= RESERVED then disk1 else RawFree(disk1, next)
  }

  /** On a chain that stays inside the FAT the tool does what the kernel does. */
  lemma {:induction false} RawFreeInFat(disk: DiskImage, current: u16)
    requires FreeChain(View(disk).fat, current).1.Ok?
    ensures View(RawFree(disk, current)) == View(disk).(fat := FreeChain(View(disk).fat, current).0)
    decreases RawUsed(disk), if 2 <= current < RESERVED then 1 else 0
  {
    if 2 <= current < RESERVED {
      assert current < FAT_ENTRIES;
      SetWordFrees(disk, current);
      RawEntryInFat(disk, current);
      FatWriteInView(disk, current, FREE);
      hide View, Splice, RawEntry;
      var next := RawEntry(disk, current);
      if next < RESERVED {
        RawFreeInFat(SetWord(disk, current, FREE), next);
      }
    }
  }

  ghost function RawRemove(disk: DiskImage, name: seq<byte>): DiskImage {
    var slot := FindFile(View(disk).dir, name, 0);
    if slot.None? then disk
    else
      var first := View(disk).dir[slot.value].firstCluster;
      SetEntry(if first >= 2 then RawFree(disk, first) else disk, slot.value, EMPTY_ENTRY)
  }

  lemma RawRemoveAgrees(disk: DiskImage, name: seq<byte>)
    requires RemoveExisting(View(disk), name).1.Ok?
    ensures View(RawRemove(disk, name)) == RemoveExisting(View(disk), name).0
  {
    hide View, Splice, RawFree;
    var v := View(disk);
    var slot := FindFile(v.dir, name, 0);
    if slot.Some? {
      var first := v.dir[slot.value].firstCluster;
      if first >= 2 {
        RawFreeInFat(disk, first);
      }
      DirWriteInView(if first >= 2 then RawFree(disk, first) else disk, slot.value, EMPTY_ENTRY);
    }
  }

  /** Use word `c` for a cluster: mark it, link it, and write its data. */
  ghost function RawAttach(disk: DiskImage, c: nat, chunk: seq<byte>, prev: Option<nat>): DiskImage
    requires 2 <= c < 0x1_0000 && |chunk| <= CLUSTER_BYTES && (prev.Some? ==> prev.value < 0x1_0000)
  {
    var disk1 := SetWord(disk, c, EOC);
    var disk2 := if prev.Some? then SetWord(disk1, prev.value, c) else disk1;
    Splice(disk2, BLOCK_SIZE * ClusterToLba(c), Padded(chunk))
  }

  ghost function RawFill(disk: DiskImage, payload: seq<byte>, prev: Option<nat>, max: nat)
    : (r: (DiskImage, Option<nat>))
    requires payload != [] && max < 0x1_0000 && (prev.Some? ==> prev.value < 0x1_0000)
    ensures r.1.Some? ==> r.1.value < 0x1_0000
    decreases |payload|
  {
    var c := LeastRaw(disk, 2, max);
    if c.None? then (disk, None)
    else
      var disk1 := RawAttach(disk, c.value, payload[..Min(|payload|, CLUSTER_BYTES)], prev);
      if |payload| <= CLUSTER_BYTES then (disk1, c)
      else
        var rest := RawFill(disk1, payload[CLUSTER_BYTES..], Some(c.value), max);
        (rest.0, if rest.1.Some? then c else None)
  }

  ghost function RawCreate(disk: DiskImage, name: seq<byte>, data: seq<byte>, max: nat): (DiskImage, bool)
    requires max < 0x1_0000
  {
    if !NameLengthOk(name) then (disk, false)
    else
      var disk1 := RawRemove(disk, name);
      var slot := FreeSlot(View(disk1).dir, 0);
      if slot.None? then (disk1, false)
      else
        RawStore(disk1, slot.value, name, data, max)
  }

  ghost function RawStore(disk: DiskImage, slot: nat, name: seq<byte>, data: seq<byte>, max: nat): (DiskImage, bool)
    requires slot < DIR_ENTRIES && NameLengthOk(name) && max < 0x1_0000
  {
    var filled := if data == [] then (disk, Some(0)) else RawFill(disk, data, None, max);
    if filled.1.None? then (filled.0, false)
    else (SetEntry(filled.0, slot, NewEntry(name, filled.1.value, |data|)), true)
  }

  /** The last cluster number the tool tries: a 16-bit cast of the volume's count. */
  function LastCluster(totalClusters: u32): (max: nat)
    ensures max < 0x1_0000
  {
    (1 + totalClusters) % 0x1_0000
  }

  /** The count is the one in the image's own boot sector. */
  ghost function Limit(disk: DiskImage): (max: nat)
    ensures max < 0x1_0000
  {
    LastCluster(DecodeBoot(View(disk).boot).totalClusters)
  }

  ghost function Inserted(disk: DiskImage, name: seq<byte>, data: seq<byte>): (DiskImage, bool) {
    if Formatted(View(disk).boot) then RawCreate(disk, name, data, Limit(disk)) else (disk, false)
  }

  // ---------------------------------------------------------------- where tool and kernel agree

  lemma RawAttachAgrees(disk: DiskImage, c: nat, chunk: seq<byte>, prev: Option<nat>)
    requires 2 <= c < FAT_ENTRIES && |chunk| <= CLUSTER_BYTES && (prev.Some? ==> prev.value < FAT_ENTRIES)
    ensures View(RawAttach(disk, c, chunk, prev)) == Attach(View(disk), c, chunk, prev)
  {
    hide View, Splice;
    FatWriteInView(disk, c, EOC);
    var disk1 := SetWord(disk, c, EOC);
    if prev.Some? {
      FatWriteInView(disk1, prev.value, c);
    }
    var disk2 := if prev.Some? then SetWord(disk1, prev.value, c) else disk1;
    DataWriteInView(disk2, BLOCK_SIZE * ClusterToLba(c), Padded(chunk));
  }

  lemma {:induction false} RawFillAgrees(disk: DiskImage, payload: seq<byte>, prev: Option<nat>, max: nat)
    requires payload != [] && FAT_ENTRIES - 1 <= max < 0x1_0000 && (prev.Some? ==> prev.value < FAT_ENTRIES)
    requires Fill(View(disk), payload, prev).1.Ok?
    ensures var f := Fill(View(disk), payload, prev);
            View(RawFill(disk, payload, prev, max).0) == f.0 && RawFill(disk, payload, prev, max).1 == Some(f.1.value)
    decreases |payload|
  {
    hide View, Attach, RawAttach, LeastFree, LeastRaw;
    LeastRawInFat(disk, max);
    var c := LeastFree(View(disk).fat, 2).value;
    var chunk := payload[..Min(|payload|, CLUSTER_BYTES)];
    RawAttachAgrees(disk, c, chunk, prev);
    if |payload| > CLUSTER_BYTES {
      RawFillAgrees(RawAttach(disk, c, chunk, prev), payload[CLUSTER_BYTES..], Some(c), max);
    }
  }

  lemma RawStoreAgrees(disk: DiskImage, slot: nat, name: seq<byte>, data: seq<byte>, max: nat)
    requires slot < DIR_ENTRIES && NameLengthOk(name) && FAT_ENTRIES - 1 <= max < 0x1_0000
    requires StoreIn(View(disk), slot, name, data).1.Ok?
    ensures RawStore(disk, slot, name, data, max).1
    ensures View(RawStore(disk, slot, name, data, max).0) == StoreIn(View(disk), slot, name, data).0
  {
    hide View, Fill, RawFill, Splice;
    if data != [] {
      RawFillAgrees(disk, data, None, max);
    }
    var filled := if data == [] then (disk, Some(0)) else RawFill(disk, data, None, max);
    DirWriteInView(filled.0, slot, NewEntry(name, filled.1.value, |data|));
  }

  /** The stages of a kernel create that is not stopped by InvalidArgument. */
  lemma CreateStages(v: Volume, name: seq<byte>, data: seq<byte>)
    requires Formatted(v.boot) && Create(v, name, data).1 != Err(InvalidArgument)
    ensures NameLengthOk(name) && RemoveExisting(v, name).1 == Ok(())
    ensures var v1 := RemoveExisting(v, name).0;
            match FreeSlot(v1.dir, 0)
            case None => Create(v, name, data) == (v1, Err(NoSpace))
            case Some(slot) =>
              StoreIn(v1, slot, name, data).1.Ok? && Create(v, name, data) == StoreIn(v1, slot, name, data)
  {
    hide Formatted;
  }

  /** On every image: unless the kernel would report InvalidArgument, the tool leaves the kernel's volume. */
  lemma RawCreateAgrees(disk: DiskImage, name: seq<byte>, data: seq<byte>, max: nat)
    requires FAT_ENTRIES - 1 <= max < 0x1_0000 && Formatted(View(disk).boot)
    requires Create(View(disk), name, data).1 != Err(InvalidArgument)
    ensures var k := Create(View(disk), name, data);
            View(RawCreate(disk, name, data, max).0) == k.0 && RawCreate(disk, name, data, max).1 == k.1.Ok?
  {
    hide RemoveExisting, Create, StoreIn, FreeSlot, View, Formatted, RawRemove, RawStore;
    CreateStages(View(disk), name, data);
    RawRemoveAgrees(disk, name);
    var disk1 := RawRemove(disk, name);
    var slot := FreeSlot(View(disk1).dir, 0);
    if slot.Some? {
      RawStoreAgrees(disk1, slot.value, name, data, max);
    }
  }

  // ---------------------------------------------------------------- where they part

  const DIR_END := FAT_ENTRIES + 16 * DIR_ENTRIES

  lemma DataSpares(disk: DiskImage, c: nat, buf: Cluster, w: nat)
    requires 2 <= c < 0x1_0000 && w < DIR_END
    ensures RawEntry(Splice(disk, BLOCK_SIZE * ClusterToLba(c), buf), w) == RawEntry(disk, w)
  {
    var d := Splice(disk, BLOCK_SIZE * ClusterToLba(c), buf);
    var lo := FAT_START + 2 * w;
    assert d[lo] == disk[lo] && d[lo + 1] == disk[lo + 1];
    assert d[lo..lo + 2] == disk[lo..lo + 2];
  }

  /** What attaching a cluster does to the words of FAT and directory. */
  lemma RawAttachWords(disk: DiskImage, c: nat, chunk: seq<byte>, prev: Option<nat>, w: nat)
    requires 2 <= c < 0x1_0000 && |chunk| <= CLUSTER_BYTES && (prev.Some? ==> prev.value < 0x1_0000) && w < DIR_END
    ensures RawEntry(RawAttach(disk, c, chunk, prev), w) ==
            if prev == Some(w) then c else if w == c then EOC else RawEntry(disk, w)
  {
    hide RawEntry, Splice;
    RawWrite(disk, c, EOC);
    var disk1 := SetWord(disk, c, EOC);
    if prev.Some? {
      RawWrite(disk1, prev.value, c);
    }
    DataSpares(if prev.Some? then SetWord(disk1, prev.value, c) else disk1, c, Padded(chunk), w);
  }

  /** A word once taken stays taken. */
  lemma {:induction false} TakenStaysTaken(disk: DiskImage, payload: seq<byte>, prev: Option<nat>, max: nat, w: nat)
    requires payload != [] && max < 0x1_0000 && (prev.Some? ==> prev.value < 0x1_0000)
    requires w < DIR_END && RawEntry(disk, w) != FREE
    ensures RawEntry(RawFill(disk, payload, prev, max).0, w) != FREE
    decreases |payload|
  {
    hide RawEntry, RawAttach;
    var c := LeastRaw(disk, 2, max);
    if c.Some? {
      var chunk := payload[..Min(|payload|, CLUSTER_BYTES)];
      RawAttachWords(disk, c.value, chunk, prev, w);
      if |payload| > CLUSTER_BYTES {
        TakenStaysTaken(RawAttach(disk, c.value, chunk, prev), payload[CLUSTER_BYTES..], Some(c.value), max, w);
      }
    }
  }

  /** The first zero word of the directory. */
  ghost predicate FirstZero(disk: DiskImage, w: nat) {
    && FAT_ENTRIES <= w < DIR_END && RawEntry(disk, w) == FREE
    && forall c | FAT_ENTRIES <= c < w :: RawEntry(disk, c) != FREE
  }

  lemma FullFatTakesFirstZero(disk: DiskImage, w: nat, max: nat)
    requires FirstZero(disk, w) && w <= max < 0x1_0000 && LeastFree(View(disk).fat, 2).None?
    ensures LeastRaw(disk, 2, max) == Some(w)
  {
    hide View, RawEntry;
    LeastRawInFat(disk, max);
  }

  /** A file that the kernel's FAT cannot hold makes the tool write into the directory. */
  lemma {:induction false} OverfullSpills(disk: DiskImage, payload: seq<byte>, prev: Option<nat>, max: nat, w: nat)
    requires payload != [] && FirstZero(disk, w) && w <= max < 0x1_0000 && (prev.Some? ==> prev.value < FAT_ENTRIES)
    requires Fill(View(disk), payload, prev).1.Err?
    ensures RawEntry(RawFill(disk, payload, prev, max).0, w) != FREE
    decreases |payload|
  {
    hide View, RawEntry, RawAttach, Attach, LeastFree, LeastRaw, FirstZero;
    var chunk := payload[..Min(|payload|, CLUSTER_BYTES)];
    ZeroIsInDirectory(disk, w);
    LeastRawInFat(disk, max);
    var c := LeastFree(View(disk).fat, 2);
    if c.Some? {
      RawAttachAgrees(disk, c.value, chunk, prev);
      ZeroStaysFirst(disk, c.value, chunk, prev, w);
      OverfullSpills(RawAttach(disk, c.value, chunk, prev), payload[CLUSTER_BYTES..], Some(c.value), max, w);
    } else {
      FullFatTakesFirstZero(disk, w, max);
      RawAttachWords(disk, w, chunk, prev, w);
      if |payload| > CLUSTER_BYTES {
        TakenStaysTaken(RawAttach(disk, w, chunk, prev), payload[CLUSTER_BYTES..], Some(w), max, w);
      }
    }
  }

  lemma ZeroIsInDirectory(disk: DiskImage, w: nat)
    requires FirstZero(disk, w)
    ensures FAT_ENTRIES <= w < DIR_END
  {
  }

  lemma ZeroStaysFirst(disk: DiskImage, c: nat, chunk: seq<byte>, prev: Option<nat>, w: nat)
    requires FirstZero(disk, w) && 2 <= c < FAT_ENTRIES && |chunk| <= CLUSTER_BYTES
    requires prev.Some? ==> prev.value < FAT_ENTRIES
    ensures FirstZero(RawAttach(disk, c, chunk, prev), w)
  {
    hide RawEntry, RawAttach;
    RawAttachWords(disk, c, chunk, prev, w);
    forall x | FAT_ENTRIES <= x < w
      ensures RawEntry(RawAttach(disk, c, chunk, prev), x) != FREE
    {
      RawAttachWords(disk, c, chunk, prev, x);
    }
  }

  lemma SlotHasFirstZero(disk: DiskImage, slot: nat) returns (w: nat)
    requires slot < DIR_ENTRIES && View(disk).dir[slot] == EMPTY_ENTRY
    ensures FirstZero(disk, w) && w <= FAT_ENTRIES + 16 * slot
  {
    hide View, RawEntry;
    ZeroSlotIsRawFree(disk, slot);
    w := LeastRaw(disk, FAT_ENTRIES, DIR_END - 1).value;
  }

  lemma SameDirectorySameWord(d: DiskImage, e: DiskImage, w: nat)
    requires FAT_ENTRIES <= w < DIR_END && View(d).dir == View(e).dir
    ensures RawEntry(d, w) == RawEntry(e, w)
  {
    var i, lo := (w - FAT_ENTRIES) / 16, FAT_START + 2 * w;
    DirBytesAgree(d, e, i);
    assert d[lo] == e[lo] && d[lo + 1] == e[lo + 1];
    assert d[lo..lo + 2] == e[lo..lo + 2];
  }

  /** A create that does not fit leaves the directory as it was once the old file is removed. */
  lemma OverfullKeepsDirectory(v: Volume, slot: nat, name: seq<byte>, data: seq<byte>)
    requires slot < DIR_ENTRIES && NameLengthOk(name) && StoreIn(v, slot, name, data).1.Err?
    ensures data != [] && Fill(v, data, None).1.Err? && StoreIn(v, slot, name, data).0.dir == v.dir
  {
  }

  /** Past the FAT: no image with the kernel's volume is the one the tool leaves. */
  lemma SpillParts(disk: DiskImage, kernel: DiskImage, slot: nat, name: seq<byte>, data: seq<byte>, max: nat, w: nat)
    requires slot < DIR_ENTRIES && NameLengthOk(name) && View(disk).dir[slot].inUse == 0
    requires FirstZero(disk, w) && w <= max < 0x1_0000
    requires StoreIn(View(disk), slot, name, data).1.Err? && View(kernel) == StoreIn(View(disk), slot, name, data).0
    ensures RawStore(disk, slot, name, data, max).0 != kernel
  {
    hide View, RawEntry, StoreIn, Fill, RawFill, Splice, FirstZero;
    OverfullKeepsDirectory(View(disk), slot, name, data);
    ZeroIsInDirectory(disk, w);
    OverfullSpills(disk, data, None, max, w);
    var filled := RawFill(disk, data, None, max);
    if filled.1.Some? {
      DirWriteInView(filled.0, slot, NewEntry(name, filled.1.value, |data|));
      assert View(RawStore(disk, slot, name, data, max).0).dir[slot].inUse == 1;
      assert View(kernel).dir[slot].inUse == 0;
    } else {
      SameDirectorySameWord(kernel, disk, w);
      ZeroIsZero(disk, w);
    }
  }

  lemma ZeroIsZero(disk: DiskImage, w: nat)
    requires FirstZero(disk, w)
    ensures RawEntry(disk, w) == FREE
  {
  }

  // ---------------------------------------------------------------- disks the kernel has worked on

  /** Slots not in use are blank, as formatting and deleting leave them. */
  ghost predicate CleanSlots(v: Volume) {
    forall i | 0 <= i < DIR_ENTRIES :: v.dir[i].inUse == 0 ==> v.dir[i] == EMPTY_ENTRY
  }

  lemma RemoveKeepsClean(v: Volume, name: seq<byte>)
    requires CleanSlots(v)
    ensures CleanSlots(RemoveExisting(v, name).0)
  {
  }

  lemma StoreKeepsClean(v: Volume, slot: nat, name: seq<byte>, data: seq<byte>)
    requires CleanSlots(v) && slot < DIR_ENTRIES && NameLengthOk(name)
    ensures CleanSlots(StoreIn(v, slot, name, data).0)
  {
    hide Fill;
  }

  lemma CreateKeepsClean(v: Volume, name: seq<byte>, data: seq<byte>)
    requires CleanSlots(v)
    ensures CleanSlots(Create(v, name, data).0)
  {
    hide CleanSlots, StoreIn, FreeSlot, RemoveExisting, Formatted;
    RemoveKeepsClean(v, name);
    var v1 := RemoveExisting(v, name).0;
    if NameLengthOk(name) && FreeSlot(v1.dir, 0).Some? {
      StoreKeepsClean(v1, FreeSlot(v1.dir, 0).value, name, data);
    }
  }

  lemma DeleteKeepsClean(v: Volume, name: seq<byte>)
    requires CleanSlots(v)
    ensures CleanSlots(Delete(v, name).0)
  {
    hide FindFile, FreeChain;
  }

  lemma StepKeepsClean(v: Volume, op: Op)
    requires CleanSlots(v)
    ensures CleanSlots(VolumeStep(v, op).0)
  {
    hide CleanSlots, Create, Delete, Read;
    match op {
      case CreateFile(name, data) => CreateKeepsClean(v, name, data);
      case ReadFile(_) =>
      case DeleteFile(name) => DeleteKeepsClean(v, name);
    }
  }

  /** Every disk the kernel formats and then works on has clean slots. */
  lemma {:induction false} RunsKeepClean(v: Volume, ops: seq<Op>)
    requires CleanSlots(v)
    ensures CleanSlots(VolumeRun(v, ops).0)
    decreases |ops|
  {
    hide VolumeStep;
    if ops != [] {
      StepKeepsClean(v, ops[0]);
      RunsKeepClean(VolumeStep(v, ops[0]).0, ops[1..]);
    }
  }

  /**
   Every disk the kernel formats and then works on: blank slots, the boot sector of the format,
   and a limit for the tool that lies beyond the directory.
   */
  lemma ReachableIsClean(v: Volume, ops: seq<Op>)
    ensures CleanSlots(VolumeRun(Format(v), ops).0) && VolumeRun(Format(v), ops).0.boot == EncodeBoot(BOOT)
    ensures forall disk: DiskImage | View(disk) == VolumeRun(Format(v), ops).0 :: Limit(disk) == 65_526
  {
    hide VolumeRun, View;
    RunsKeepClean(Format(v), ops);
    RunsKeepBoot(Format(v), ops);
    BootRoundTrip(BOOT);
    hide EncodeBoot, DecodeBoot;
  }

  lemma {:induction false} RunsKeepBoot(v: Volume, ops: seq<Op>)
    ensures VolumeRun(v, ops).0.boot == v.boot
    decreases |ops|
  {
    hide VolumeStep;
    if ops != [] {
      StepKeepsBoot(v, ops[0]);
      RunsKeepBoot(VolumeStep(v, ops[0]).0, ops[1..]);
    }
  }

  lemma StepKeepsBoot(v: Volume, op: Op)
    ensures VolumeStep(v, op).0.boot == v.boot
  {
    hide Fill, FreeChain, FindFile, FreeSlot, NewEntry, Read, Formatted;
  }

  // ---------------------------------------------------------------- with any limit

  /** The free clusters that a tool with this limit can use. */
  ghost function FreeUpTo(fat: Fat, max: nat): set<nat> {
    set c | c in FreeSet(fat) && c <= max
  }

  lemma AttachTakesOne(v: Volume, c: nat, chunk: seq<byte>, prev: Option<nat>, max: nat)
    requires FreshTail(v.fat, prev) && 2 <= c < FAT_ENTRIES && v.fat[c] == FREE && |chunk| <= CLUSTER_BYTES && c <= max
    ensures var fat := Attach(v, c, chunk, prev).fat;
            && FreshTail(fat, Some(c)) && FreeUpTo(fat, max) == FreeUpTo(v.fat, max) - {c}
            && |FreeUpTo(v.fat, max)| == |FreeUpTo(fat, max)| + 1
            && (FreeUpTo(fat, max) == FreeSet(fat) <==> FreeUpTo(v.fat, max) == FreeSet(v.fat))
  {
    AttachFacts(v, c, chunk, prev);
    hide FreeSet, Attach;
    var fat := Attach(v, c, chunk, prev).fat;
    FreeIsFree(v.fat, c);
    assert FreeUpTo(fat, max) == FreeUpTo(v.fat, max) - {c};
    assert FreeUpTo(v.fat, max) == FreeUpTo(fat, max) + {c};
    if FreeUpTo(fat, max) == FreeSet(fat) {
      assert forall x | x in FreeSet(v.fat) :: x == c || x in FreeSet(fat);
    }
  }

  lemma FreeIsFree(fat: Fat, c: nat)
    requires 2 <= c < FAT_ENTRIES && fat[c] == FREE
    ensures c in FreeSet(fat)
  {
  }

  lemma LeastIsInReach(fat: Fat, max: nat)
    ensures FreeUpTo(fat, max) != {} <==> LeastFree(fat, 2).Some? && LeastFree(fat, 2).value <= max
    ensures LeastFree(fat, 2).None? ==> FreeSet(fat) == {}
  {
    if LeastFree(fat, 2).Some? && LeastFree(fat, 2).value <= max {
      assert LeastFree(fat, 2).value in FreeUpTo(fat, max);
    }
  }

  /** Within reach of the limit the tool's loop is the kernel's. */
  lemma {:induction false} FillInReach(disk: DiskImage, payload: seq<byte>, prev: Option<nat>, max: nat)
    requires payload != [] && max < 0x1_0000 && FreshTail(View(disk).fat, prev)
    requires ClustersFor(|payload|) <= |FreeUpTo(View(disk).fat, max)|
    ensures var f := Fill(View(disk), payload, prev);
            && f.1.Ok? && View(RawFill(disk, payload, prev, max).0) == f.0
            && RawFill(disk, payload, prev, max).1 == Some(f.1.value)
    decreases |payload|
  {
    hide View, Attach, RawAttach, LeastFree, LeastRaw, FreeUpTo;
    LeastRawInFat(disk, max);
    LeastIsInReach(View(disk).fat, max);
    var c := LeastFree(View(disk).fat, 2).value;
    var chunk := payload[..Min(|payload|, CLUSTER_BYTES)];
    RawAttachAgrees(disk, c, chunk, prev);
    AttachTakesOne(View(disk), c, chunk, prev, max);
    if |payload| > CLUSTER_BYTES {
      FillInReach(RawAttach(disk, c, chunk, prev), payload[CLUSTER_BYTES..], Some(c), max);
    }
  }

  /** Where the limit hides nothing, and nothing beyond the FAT looks free, both run out alike. */
  lemma {:induction false} BothRunOut(disk: DiskImage, payload: seq<byte>, prev: Option<nat>, max: nat)
    requires payload != [] && max < DIR_END && FreshTail(View(disk).fat, prev)
    requires ClustersFor(|payload|) > |FreeUpTo(View(disk).fat, max)|
    requires FreeUpTo(View(disk).fat, max) == FreeSet(View(disk).fat) && LeastRaw(disk, FAT_ENTRIES, max).None?
    ensures var f := Fill(View(disk), payload, prev);
            f.1.Err? && View(RawFill(disk, payload, prev, max).0) == f.0 && RawFill(disk, payload, prev, max).1.None?
    decreases |payload|
  {
    hide View, Attach, RawAttach, LeastFree, LeastRaw, FreeUpTo, FreeSet;
    LeastRawInFat(disk, max);
    var c := LeastFree(View(disk).fat, 2);
    LeastIsInReach(View(disk).fat, max);
    if c.Some? {
      NonEmptyFree(View(disk).fat, c.value);
      var chunk := payload[..Min(|payload|, CLUSTER_BYTES)];
      RawAttachAgrees(disk, c.value, chunk, prev);
      AttachTakesOne(View(disk), c.value, chunk, prev, max);
      NothingFreeBeyond(disk, c.value, chunk, prev, max);
      BothRunOut(RawAttach(disk, c.value, chunk, prev), payload[CLUSTER_BYTES..], Some(c.value), max);
    }
  }

  lemma NonEmptyFree(fat: Fat, c: nat)
    requires LeastFree(fat, 2) == Some(c)
    ensures FreeSet(fat) != {}
  {
    assert c in FreeSet(fat);
  }

  lemma NothingFreeBeyond(disk: DiskImage, c: nat, chunk: seq<byte>, prev: Option<nat>, max: nat)
    requires 2 <= c < FAT_ENTRIES && |chunk| <= CLUSTER_BYTES && (prev.Some? ==> prev.value < FAT_ENTRIES)
    requires max < DIR_END && LeastRaw(disk, FAT_ENTRIES, max).None?
    ensures LeastRaw(RawAttach(disk, c, chunk, prev), FAT_ENTRIES, max).None?
  {
    hide RawEntry, RawAttach;
    forall w | FAT_ENTRIES <= w <= max
      ensures RawEntry(RawAttach(disk, c, chunk, prev), w) != FREE
    {
      RawAttachWords(disk, c, chunk, prev, w);
    }
  }

  lemma {:induction false} FillNeverFrees(v: Volume, payload: seq<byte>, prev: Option<nat>, x: nat)
    requires payload != [] && (prev.Some? ==> prev.value < FAT_ENTRIES) && x < FAT_ENTRIES && v.fat[x] != FREE
    ensures Fill(v, payload, prev).0.fat[x] != FREE
    decreases |payload|
  {
    var c := LeastFree(v.fat, 2);
    if c.Some? && |payload| > CLUSTER_BYTES {
      FillNeverFrees(Attach(v, c.value, payload[..CLUSTER_BYTES], prev), payload[CLUSTER_BYTES..], Some(c.value), x);
    }
  }

  /** The first cluster number that the limit hides. */
  function Beyond(max: nat): nat {
    if max < 1 then 2 else max + 1
  }

  lemma LeastIsHidden(fat: Fat, max: nat, x: nat)
    requires max < FAT_ENTRIES - 1 && LeastFree(fat, Beyond(max)) == Some(x)
    ensures LeastFree(fat, 2).Some? && (LeastFree(fat, 2).value <= max || LeastFree(fat, 2).value == x)
  {
  }

  /** Where the limit hides a free cluster that is needed, the tool stops and the kernel takes it. */
  lemma {:induction false} LimitStops(disk: DiskImage, payload: seq<byte>, prev: Option<nat>, max: nat, x: nat)
    requires payload != [] && max < FAT_ENTRIES - 1 && FreshTail(View(disk).fat, prev)
    requires ClustersFor(|payload|) > |FreeUpTo(View(disk).fat, max)|
             && LeastFree(View(disk).fat, Beyond(max)) == Some(x)
    ensures RawFill(disk, payload, prev, max).1.None?
    ensures View(RawFill(disk, payload, prev, max).0).fat[x] == FREE && Fill(View(disk), payload, prev).0.fat[x] != FREE
    decreases |payload|
  {
    hide View, Attach, RawAttach, LeastRaw, FreeUpTo;
    LeastRawInFat(disk, max);
    var v := View(disk);
    LeastIsHidden(v.fat, max, x);
    var c := LeastFree(v.fat, 2).value;
    LeastIsInReach(v.fat, max);
    var chunk := payload[..Min(|payload|, CLUSTER_BYTES)];
    if c <= max {
      RawAttachAgrees(disk, c, chunk, prev);
      AttachTakesOne(v, c, chunk, prev, max);
      HiddenStays(v, c, chunk, prev, max, x);
      LimitStops(RawAttach(disk, c, chunk, prev), payload[CLUSTER_BYTES..], Some(c), max, x);
    } else {
      AttachFacts(v, c, chunk, prev);
      if |payload| > CLUSTER_BYTES {
        FillNeverFrees(Attach(v, c, chunk, prev), payload[CLUSTER_BYTES..], Some(c), x);
      }
    }
  }

  lemma HiddenStays(v: Volume, c: nat, chunk: seq<byte>, prev: Option<nat>, max: nat, x: nat)
    requires FreshTail(v.fat, prev) && 2 <= c <= max < FAT_ENTRIES - 1 && v.fat[c] == FREE && |chunk| <= CLUSTER_BYTES
    requires LeastFree(v.fat, Beyond(max)) == Some(x)
    ensures LeastFree(Attach(v, c, chunk, prev).fat, Beyond(max)) == Some(x)
  {
    AttachFacts(v, c, chunk, prev);
    var fat := Attach(v, c, chunk, prev).fat;
    assert prev != Some(x);
    forall y | max < y < x
      ensures fat[y] != FREE
    {
      assert prev == Some(y) ==> fat[y] == c;
    }
    assert fat[x] == FREE;
  }

  // ---------------------------------------------------------------- the exact condition

  /**
   What can be seen once the old file is gone: the clusters that the tool can reach suffice,
   or its limit hides no free cluster and shows nothing beyond the FAT that looks free.
   */
  ghost predicate RunsAlike(disk: DiskImage, data: seq<byte>, max: nat)
    requires max < 0x1_0000
  {
    var fat := View(disk).fat;
    || ClustersFor(|data|) <= |FreeUpTo(fat, max)|
    || (FreeUpTo(fat, max) == FreeSet(fat) && LeastRaw(disk, FAT_ENTRIES, max).None?)
  }

  /** A bad name, a full directory, or loops that run alike. */
  ghost predicate Alike(disk: DiskImage, name: Name, data: seq<byte>, max: nat)
    requires max < 0x1_0000
  {
    NameLengthOk(name) && FreeSlot(View(RawRemove(disk, name)).dir, 0).Some? ==>
      RunsAlike(RawRemove(disk, name), data, max)
  }

  lemma StoresInReach(disk: DiskImage, slot: nat, name: seq<byte>, data: seq<byte>, max: nat)
    requires slot < DIR_ENTRIES && NameLengthOk(name) && max < 0x1_0000
    requires ClustersFor(|data|) <= |FreeUpTo(View(disk).fat, max)|
    ensures View(RawStore(disk, slot, name, data, max).0) == StoreIn(View(disk), slot, name, data).0
    ensures RawStore(disk, slot, name, data, max).1 && StoreIn(View(disk), slot, name, data).1.Ok?
  {
    hide View, Fill, RawFill, Splice, FreeUpTo;
    if data != [] {
      FillInReach(disk, data, None, max);
    }
    var filled := if data == [] then (disk, Some(0)) else RawFill(disk, data, None, max);
    DirWriteInView(filled.0, slot, NewEntry(name, filled.1.value, |data|));
  }

  lemma StoresAlike(disk: DiskImage, slot: nat, name: seq<byte>, data: seq<byte>, max: nat)
    requires slot < DIR_ENTRIES && NameLengthOk(name) && max < 0x1_0000 && RunsAlike(disk, data, max)
    requires max >= DIR_END - 1 ==> LeastRaw(disk, FAT_ENTRIES, max).Some?
    ensures View(RawStore(disk, slot, name, data, max).0) == StoreIn(View(disk), slot, name, data).0
    ensures RawStore(disk, slot, name, data, max).1 == StoreIn(View(disk), slot, name, data).1.Ok?
  {
    hide View, Fill, RawFill, Splice, FreeUpTo, FreeSet, LeastRaw;
    if ClustersFor(|data|) <= |FreeUpTo(View(disk).fat, max)| {
      StoresInReach(disk, slot, name, data, max);
    } else {
      BothRunOut(disk, data, None, max);
    }
  }

  lemma StoresPart(disk: DiskImage, kernel: DiskImage, slot: nat, name: seq<byte>, data: seq<byte>, max: nat)
    requires slot < DIR_ENTRIES && NameLengthOk(name) && max < 0x1_0000 && !RunsAlike(disk, data, max)
    requires View(disk).dir[slot] == EMPTY_ENTRY && View(kernel) == StoreIn(View(disk), slot, name, data).0
    ensures RawStore(disk, slot, name, data, max).0 != kernel
  {
    hide View, Fill, RawFill, Splice, FreeUpTo, FreeSet, LeastRaw, StoreIn;
    var v := View(disk);
    if FreeUpTo(v.fat, max) == FreeSet(v.fat) {
      FillExhausts(v, data, None);
      OverfullStore(v, slot, name, data);
      var w := FirstZeroInReach(disk, slot, max);
      SpillParts(disk, kernel, slot, name, data, max, w);
    } else {
      var x := HiddenCluster(v.fat, max);
      LimitStops(disk, data, None, max, x);
      StoreKeepsFat(v, slot, name, data);
    }
  }

  lemma OverfullStore(v: Volume, slot: nat, name: seq<byte>, data: seq<byte>)
    requires slot < DIR_ENTRIES && NameLengthOk(name) && data != [] && Fill(v, data, None).1.Err?
    ensures StoreIn(v, slot, name, data).1.Err?
  {
  }

  lemma StoreKeepsFat(v: Volume, slot: nat, name: seq<byte>, data: seq<byte>)
    requires slot < DIR_ENTRIES && NameLengthOk(name) && data != []
    ensures StoreIn(v, slot, name, data).0.fat == Fill(v, data, None).0.fat
  {
  }

  lemma HiddenCluster(fat: Fat, max: nat) returns (x: nat)
    requires FreeUpTo(fat, max) != FreeSet(fat)
    ensures max < FAT_ENTRIES - 1 && LeastFree(fat, Beyond(max)) == Some(x)
  {
    var c :| c in FreeSet(fat) && c > max;
    x := LeastFree(fat, Beyond(max)).value;
  }

  lemma FirstZeroInReach(disk: DiskImage, slot: nat, max: nat) returns (w: nat)
    requires slot < DIR_ENTRIES && View(disk).dir[slot] == EMPTY_ENTRY && max < 0x1_0000
    requires LeastRaw(disk, FAT_ENTRIES, max).Some?
    ensures FirstZero(disk, w) && w <= max
  {
    hide View, RawEntry;
    w := SlotHasFirstZero(disk, slot);
  }

  lemma EmptySlotShows(disk: DiskImage, slot: nat, max: nat)
    requires slot < DIR_ENTRIES && View(disk).dir[slot] == EMPTY_ENTRY && DIR_END - 1 <= max < 0x1_0000
    ensures LeastRaw(disk, FAT_ENTRIES, max).Some?
  {
    hide View, RawEntry;
    ZeroSlotIsRawFree(disk, slot);
  }

  /** Kernel and tool up to the point where a slot has been found. */
  lemma SlotFound(disk: DiskImage, chains: seq<seq<nat>>, s: Store, name: Name, data: seq<byte>, max: nat)
    returns (chains': seq<seq<nat>>)
    requires max < 0x1_0000 && Models(View(disk), chains, s) && NameLengthOk(name)
    ensures var d := RawRemove(disk, name);
            && Models(View(d), chains', Without(s, name)) && (CleanSlots(View(disk)) ==> CleanSlots(View(d)))
            && match FreeSlot(View(d).dir, 0)
               case None =>
                 && Create(View(disk), name, data) == (View(d), Err(NoSpace))
                 && RawCreate(disk, name, data, max) == (d, false)
               case Some(slot) =>
                 && Create(View(disk), name, data) == StoreIn(View(d), slot, name, data)
                 && RawCreate(disk, name, data, max) == RawStore(d, slot, name, data, max)
  {
    hide Models, View, RemoveExisting, StoreIn, FreeSlot, RawRemove, RawStore, Formatted;
    var v := View(disk);
    chains' := ExistingRemoved(v, chains, s, name);
    RawRemoveAgrees(disk, name);
    CreateUnfolds(v, chains, s, name, data);
    if CleanSlots(v) {
      RemoveKeepsClean(v, name);
    }
    hide Create;
  }

  lemma FreeIsBlank(v: Volume)
    requires CleanSlots(v)
    ensures FreeSlot(v.dir, 0).Some? ==> v.dir[FreeSlot(v.dir, 0).value] == EMPTY_ENTRY
  {
  }

  /**
   The exact condition, for every limit.  On a volume that models a store, the image the tool
   leaves is the one the kernel leaves if and only if both run alike; and then so is the result.
   */
  lemma SameImageIffAlike(disk: DiskImage, kernel: DiskImage, chains: seq<seq<nat>>, s: Store,
                          name: Name, data: seq<byte>, max: nat)
    requires max < 0x1_0000 && Models(View(disk), chains, s) && CleanSlots(View(disk))
    requires View(kernel) == Create(View(disk), name, data).0
    ensures RawCreate(disk, name, data, max).0 == kernel <==> Alike(disk, name, data, max)
    ensures Alike(disk, name, data, max) ==> RawCreate(disk, name, data, max).1 == Create(View(disk), name, data).1.Ok?
  {
    hide View, Models, CleanSlots, Create, RawCreate, RawRemove, FreeSlot, RunsAlike, StoreIn, RawStore;
    if !NameLengthOk(name) {
      BadNameRefused(disk, name, data, max);
      ViewIsInjective(disk, kernel);
    } else {
      var chains' := SlotFound(disk, chains, s, name, data, max);
      var d := RawRemove(disk, name);
      var slot := FreeSlot(View(d).dir, 0);
      if slot.None? {
        ViewIsInjective(d, kernel);
      } else if RunsAlike(d, data, max) {
        FreeIsBlank(View(d));
        if max >= DIR_END - 1 {
          EmptySlotShows(d, slot.value, max);
        }
        StoresAlike(d, slot.value, name, data, max);
        ViewIsInjective(RawStore(d, slot.value, name, data, max).0, kernel);
      } else {
        FreeIsBlank(View(d));
        StoresPart(d, kernel, slot.value, name, data, max);
      }
    }
  }

  /** What a caller of the file store can see beforehand: a bad name, a full directory, or a file that fits. */
  ghost predicate Agreeable(s: Store, name: Name, data: seq<byte>) {
    || !NameLengthOk(name)
    || (name !in s.files && |s.files| == DIR_ENTRIES)
    || ClustersFor(|data|) <= s.free + ClustersOf(s.files, name)
  }

  /** With a limit beyond the directory, as formatting writes it, that is the condition. */
  lemma AlikeIffAgreeable(disk: DiskImage, chains: seq<seq<nat>>, s: Store, name: Name, data: seq<byte>, max: nat)
    requires DIR_END - 1 <= max < 0x1_0000 && Models(View(disk), chains, s) && CleanSlots(View(disk))
    ensures Alike(disk, name, data, max) <==> Agreeable(s, name, data)
  {
    hide View, CleanSlots, Create, RawCreate, RawRemove, FreeSlot, StoreIn, RawStore, FreeSet, Represents, LeastRaw;
    if NameLengthOk(name) {
      var chains' := SlotFound(disk, chains, s, name, data, max);
      var d := RawRemove(disk, name);
      SlotRunsOut(View(disk), chains, View(d), chains', s, name);
      var slot := FreeSlot(View(d).dir, 0);
      if slot.Some? {
        FreeIsBlank(View(d));
        EmptySlotShows(d, slot.value, max);
        AllInReach(View(d).fat, max);
      }
    }
  }

  /** Nothing stands in the way, or once the old file is gone the clusters in reach suffice. */
  ghost predicate InReach(disk: DiskImage, name: Name, data: seq<byte>, max: nat) {
    var v := View(RawRemove(disk, name));
    NameLengthOk(name) && FreeSlot(v.dir, 0).Some? ==> ClustersFor(|data|) <= |FreeUpTo(v.fat, max)|
  }

  /** With a limit beyond the FAT, that is what a caller of the store sees. */
  lemma InReachIffAgreeable(disk: DiskImage, chains: seq<seq<nat>>, s: Store, name: Name, data: seq<byte>, max: nat)
    requires FAT_ENTRIES - 1 <= max < 0x1_0000 && Models(View(disk), chains, s)
    ensures InReach(disk, name, data, max) <==> Agreeable(s, name, data)
  {
    hide View, Create, RawCreate, RawRemove, FreeSlot, StoreIn, RawStore, FreeSet, Represents;
    if NameLengthOk(name) {
      var chains' := SlotFound(disk, chains, s, name, data, max);
      var d := RawRemove(disk, name);
      SlotRunsOut(View(disk), chains, View(d), chains', s, name);
      AllInReach(View(d).fat, max);
    }
  }

  /** In reach, the tool does to the volume what the kernel does, whatever the limit. */
  lemma InReachAgrees(disk: DiskImage, chains: seq<seq<nat>>, s: Store, name: Name, data: seq<byte>, max: nat)
    requires max < 0x1_0000 && Models(View(disk), chains, s) && InReach(disk, name, data, max)
    ensures var k := Create(View(disk), name, data);
            View(RawCreate(disk, name, data, max).0) == k.0 && RawCreate(disk, name, data, max).1 == k.1.Ok?
  {
    hide View, Models, Create, RawCreate, RawRemove, FreeSlot, StoreIn, RawStore, FreeUpTo, CleanSlots;
    if NameLengthOk(name) {
      var chains' := SlotFound(disk, chains, s, name, data, max);
      var d := RawRemove(disk, name);
      if FreeSlot(View(d).dir, 0).Some? {
        StoresInReach(d, FreeSlot(View(d).dir, 0).value, name, data, max);
      }
    } else {
      BadNameRefused(disk, name, data, max);
    }
  }

  lemma AllInReach(fat: Fat, max: nat)
    requires max >= FAT_ENTRIES - 1
    ensures FreeUpTo(fat, max) == FreeSet(fat)
  {
  }

  lemma ModelsFormatted(v: Volume, chains: seq<seq<nat>>, s: Store)
    requires Models(v, chains, s)
    ensures Formatted(v.boot)
  {
  }

  /**
   A boot sector with the right magic number and a count whose cast leaves no cluster: the
   volume is as good as before to the kernel, and the tool refuses every file but empty ones.
   */
  lemma WrappedCountRefuses(disk: DiskImage, chains: seq<seq<nat>>, s: Store, name: Name, data: seq<byte>, n: u32)
    requires Models(View(disk), chains, s) && LastCluster(n) < 2 && data != [] && 0 !in name
    ensures var d := Splice(disk, 0, EncodeBoot(BOOT.(totalClusters := n)));
            && Models(View(d), chains, s) && Create(View(d), name, data).1 == StoreCreate(s, name, data).1
            && !Inserted(d, name, data).1
  {
    var boot := EncodeBoot(BOOT.(totalClusters := n));
    BootWriteInView(disk, boot);
    BootRoundTrip(BOOT.(totalClusters := n));
    hide View, Splice, EncodeBoot, DecodeBoot, Create, RawRemove, FreeSlot, Flatten, StoreCreate;
    var d := Splice(disk, 0, boot);
    var chains' := CreateRefines(View(d), chains, s, name, data);
  }

  lemma BadNameRefused(disk: DiskImage, name: seq<byte>, data: seq<byte>, max: nat)
    requires !NameLengthOk(name) && max < 0x1_0000
    ensures RawCreate(disk, name, data, max) == (disk, false)
    ensures Create(View(disk), name, data) == (View(disk), Err(InvalidArgument))
  {
  }
}
