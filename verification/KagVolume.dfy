/**
 What each filesystem operation computes, as a function from volume to volume.
 These functions are total: they say what happens on every disk content, a
 damaged one included.
 */
module KagVolume {
  import opened Bytes
  import opened KagLayout

  datatype FsError = NotReady | InvalidArgument | DeviceError | NotFormatted | NoSpace | FileNotFound
  datatype FsResult<+T> = Ok(value: T) | Err(error: FsError)

  predicate NameLengthOk(name: seq<byte>) {
    1 <= |name| <= 21
  }

  // ---------------------------------------------------------------- cluster allocation

  function LeastFree(fat: Fat, from: nat): (r: Option<nat>)
    requires from <= FAT_ENTRIES
    ensures r.Some? ==> from <= r.value < FAT_ENTRIES && fat[r.value] == FREE
    ensures forall c | from <= c < (if r.Some? then r.value else FAT_ENTRIES) :: fat[c] != FREE
    decreases |fat| - from
  {
    if from == FAT_ENTRIES then None
    else if fat[from] == FREE then Some(from)
    else LeastFree(fat, from + 1)
  }

  ghost function FreeSet(fat: Fat): set<nat> {
    set c: nat | 2 <= c < FAT_ENTRIES && fat[c] == FREE
  }

  ghost function UsedSet(fat: Fat): set<nat> {
    set c: nat | c < FAT_ENTRIES && fat[c] != FREE
  }

  /**
   Walk the chain from `current`, freeing as it goes.  The walk ends on every FAT,
   cyclic and cross-linked ones included: each step either frees an entry that was
   in use or reads a free entry, whose value 0 stops it.
   */
  function FreeChain(fat: Fat, current: u16): (r: (Fat, FsResult<()>))
    ensures UsedSet(r.0) <= UsedSet(fat)
    ensures r.1 == Ok(()) || r.1 == Err(InvalidArgument)
    decreases UsedSet(fat), if 2 <= current < FAT_ENTRIES then 1 else 0
  {
    if current < 2 || current >= RESERVED then (fat, Ok(()))
    else if current >= FAT_ENTRIES then (fat, Err(InvalidArgument))
    else
      var next := fat[current];
      var fat1: Fat := fat[current := FREE];
      assert UsedSet(fat1) == UsedSet(fat) - {current as nat};
      assert next != FREE ==> current as nat in UsedSet(fat);
      if next >= RESERVED then (fat1, Ok(())) else FreeChain(fat1, next)
  }

  // ---------------------------------------------------------------- cluster contents

  function ClusterOffset(c: nat): (o: nat)
    requires 2 <= c < 0x1_0000
    ensures o == BLOCK_SIZE * ClusterToLba(c) - DATA_START
    ensures o + CLUSTER_BYTES <= DISK_BYTES - DATA_START
  {
    (c - 2) * CLUSTER_BYTES
  }

  function ClusterAt(data: DataArea, c: nat): Cluster
    requires 2 <= c < 0x1_0000
  {
    data[ClusterOffset(c)..ClusterOffset(c) + CLUSTER_BYTES]
  }

  function WriteCluster(data: DataArea, c: nat, buf: Cluster): DataArea
    requires 2 <= c < 0x1_0000
  {
    Splice(data, ClusterOffset(c), buf)
  }

  function Min(a: nat, b: nat): nat {
    if a <= b then a else b
  }

  function Padded(chunk: seq<byte>): Cluster
    requires |chunk| <= CLUSTER_BYTES
  {
    chunk + Zeros(CLUSTER_BYTES - |chunk|)
  }

  function ClustersFor(n: nat): nat {
    (n + CLUSTER_BYTES - 1) / CLUSTER_BYTES
  }

  /**
   Store `payload` in freshly allocated clusters, linking each to its predecessor.
   Returns the first cluster.  When the clusters run out, those taken so far stay
   allocated.
   */
  function Fill(v: Volume, payload: seq<byte>, prev: Option<nat>): (r: (Volume, FsResult<u16>))
    requires |payload| > 0
    requires prev.Some? ==> prev.value < FAT_ENTRIES
    ensures r.0.boot == v.boot && r.0.dir == v.dir
    ensures r.1.Ok? || r.1 == Err(InvalidArgument)
    decreases |payload|
  {
    var c := LeastFree(v.fat, 2);
    if c.None? then (v, Err(InvalidArgument))
    else
      var v1 := Attach(v, c.value, payload[..Min(|payload|, CLUSTER_BYTES)], prev);
      if |payload| <= CLUSTER_BYTES then (v1, Ok(c.value))
      else
        var rest := Fill(v1, payload[CLUSTER_BYTES..], Some(c.value));
        (rest.0, if rest.1.Ok? then Ok(c.value) else rest.1)
  }

  /** One round of the allocate-and-link loop. */
  function Attach(v: Volume, c: nat, chunk: seq<byte>, prev: Option<nat>): Volume
    requires 2 <= c < FAT_ENTRIES && |chunk| <= CLUSTER_BYTES
    requires prev.Some? ==> prev.value < FAT_ENTRIES
  {
    var fat1: Fat := v.fat[c := EOC];
    var fat2: Fat := if prev.Some? then fat1[prev.value := c] else fat1;
    v.(fat := fat2, data := WriteCluster(v.data, c, Padded(chunk)))
  }

  // ---------------------------------------------------------------- the directory

  /** Stored names end at the first NUL byte. */
  function NulPrefix(s: seq<byte>): (r: seq<byte>)
    ensures r <= s && 0 !in r
    ensures |r| < |s| ==> s[|r|] == 0
  {
    if s == [] || s[0] == 0 then [] else [s[0]] + NulPrefix(s[1..])
  }

  predicate Holds(e: DirEntry, name: seq<byte>) {
    e.inUse == 1 && NulPrefix(e.name) == name
  }

  function FindFile(dir: Dir, name: seq<byte>, from: nat): (r: Option<nat>)
    requires from <= DIR_ENTRIES
    ensures r.Some? ==> from <= r.value < DIR_ENTRIES && Holds(dir[r.value], name)
    ensures forall i | from <= i < (if r.Some? then r.value else DIR_ENTRIES) :: !Holds(dir[i], name)
    decreases |dir| - from
  {
    if from == DIR_ENTRIES then None
    else if Holds(dir[from], name) then Some(from)
    else FindFile(dir, name, from + 1)
  }

  function FreeSlot(dir: Dir, from: nat): (r: Option<nat>)
    requires from <= DIR_ENTRIES
    ensures r.Some? ==> from <= r.value < DIR_ENTRIES && dir[r.value].inUse == 0
    ensures forall i | from <= i < (if r.Some? then r.value else DIR_ENTRIES) :: dir[i].inUse != 0
    decreases |dir| - from
  {
    if from == DIR_ENTRIES then None
    else if dir[from].inUse == 0 then Some(from)
    else FreeSlot(dir, from + 1)
  }

  function NewEntry(name: seq<byte>, first: u16, len: nat): DirEntry
    requires NameLengthOk(name)
  {
    DirEntry(name + Zeros(22 - |name|), first, len % 0x1_0000_0000, 1, Zeros(3))
  }

  /** Free slot `i`'s clusters, then clear the slot. */
  function Remove(v: Volume, i: nat): (Volume, FsResult<()>)
    requires i < DIR_ENTRIES
  {
    var freed := if v.dir[i].firstCluster >= 2 then FreeChain(v.fat, v.dir[i].firstCluster) else (v.fat, Ok(()));
    if freed.1.Err? then (v.(fat := freed.0), freed.1)
    else (v.(fat := freed.0, dir := v.dir[i := EMPTY_ENTRY]), Ok(()))
  }

  // ---------------------------------------------------------------- operations

  /** Overwriting removes the old file before anything else is tried. */
  function RemoveExisting(v: Volume, name: seq<byte>): (Volume, FsResult<()>) {
    var slot := FindFile(v.dir, name, 0);
    if slot.Some? then Remove(v, slot.value) else (v, Ok(()))
  }

  function StoreIn(v: Volume, slot: nat, name: seq<byte>, payload: seq<byte>): (Volume, FsResult<()>)
    requires slot < DIR_ENTRIES && NameLengthOk(name)
  {
    var filled := if payload == [] then (v, Ok(0)) else Fill(v, payload, None);
    if filled.1.Err? then (filled.0, Err(filled.1.error))
    else (filled.0.(dir := filled.0.dir[slot := NewEntry(name, filled.1.value, |payload|)]), Ok(()))
  }

  function Create(v: Volume, name: seq<byte>, payload: seq<byte>): (Volume, FsResult<()>) {
    if !NameLengthOk(name) then (v, Err(InvalidArgument))
    else if !Formatted(v.boot) then (v, Err(NotFormatted))
    else
      var cleared := RemoveExisting(v, name);
      if cleared.1.Err? then cleared
      else
        var slot := FreeSlot(cleared.0.dir, 0);
        if slot.None? then (cleared.0, Err(NoSpace))
        else StoreIn(cleared.0, slot.value, name, payload)
  }

  /** Bytes past the end of a chain that is too short stay zero. */
  function ReadChain(v: Volume, current: u16, left: nat): (r: FsResult<seq<byte>>)
    ensures r.Ok? ==> |r.value| == left
    decreases left
  {
    if current < 2 || current >= RESERVED || left == 0 then Ok(Zeros(left))
    else if current >= FAT_ENTRIES then Err(InvalidArgument)
    else
      var n := Min(left, CLUSTER_BYTES);
      var rest := ReadChain(v, v.fat[current], left - n);
      if rest.Err? then rest else Ok(ClusterAt(v.data, current)[..n] + rest.value)
  }

  function Read(v: Volume, name: seq<byte>): FsResult<seq<byte>> {
    if !NameLengthOk(name) then Err(InvalidArgument)
    else
      var slot := FindFile(v.dir, name, 0);
      if slot.None? then Err(FileNotFound)
      else ReadChain(v, v.dir[slot.value].firstCluster, v.dir[slot.value].size)
  }

  function Delete(v: Volume, name: seq<byte>): (Volume, FsResult<()>) {
    if !NameLengthOk(name) then (v, Err(InvalidArgument))
    else
      var slot := FindFile(v.dir, name, 0);
      if slot.None? then (v, Err(FileNotFound))
      else Remove(v, slot.value)
  }

  const FORMATTED_FAT: Fat := seq(FAT_ENTRIES, c => if c == 0 then 0xFFF8 else if c == 1 then EOC else FREE)

  /** Formatting leaves the data area as it was. */
  function Format(v: Volume): Volume {
    Volume(EncodeBoot(BOOT), FORMATTED_FAT, seq(DIR_ENTRIES, _ => EMPTY_ENTRY), v.data)
  }
}
