/** kef-tool, the host program that formats disk images and inserts files, as it works on the bytes of an image. */
module HostTool {
  import opened Bytes
  import opened KagLayout
  import V = KagVolume
  import opened KagVolume
  import opened KagRefinement
  import opened HostImage
  import K = KagDisk

  // ---------------------------------------------------------------- serialisation

  /** Fields written one by one into a zeroed buffer. */
  function BootToBytes(b: BootSector): Sector {
    var s0 := Splice(Zeros(512), 0, Encode64(b.magic));
    var s1 := Splice(s0, 8, Encode16(b.bytesPerSector));
    var s2 := Splice(s1, 10, Encode32(b.sectorsPerCluster));
    var s3 := Splice(s2, 14, Encode32(b.fatStartLba));
    var s4 := Splice(s3, 18, Encode32(b.fatSectors));
    var s5 := Splice(s4, 22, Encode32(b.rootDirStartLba));
    var s6 := Splice(s5, 26, Encode32(b.rootDirSectors));
    var s7 := Splice(s6, 30, Encode32(b.dataStartLba));
    Splice(s7, 34, Encode32(b.totalClusters))
  }

  function EntryToBytes(e: DirEntry): (s: seq<byte>)
    ensures |s| == 32
  {
    var s0 := Splice(Zeros(32), 0, e.name);
    var s1 := Splice(s0, 22, Encode16(e.firstCluster));
    var s2 := Splice(s1, 24, Encode32(e.size));
    s2[28 := e.inUse]
  }

  /** The tool's field-by-field serialisation is the kernel's packed struct. */
  lemma SameBootBytes(b: BootSector)
    ensures BootToBytes(b) == EncodeBoot(b)
  {
  }

  lemma SameEntryBytes(e: DirEntry)
    requires e.reserved == Zeros(3)
    ensures EntryToBytes(e) == EncodeEntry(e)
  {
  }

  // ---------------------------------------------------------------- the tool's operations

  class HostDisk {
    const bytes: array<byte>

    constructor (bytes: array<byte>)
      requires bytes.Length == DISK_BYTES
      ensures Valid() && this.bytes == bytes
    {
      this.bytes := bytes;
    }

    ghost predicate Valid()
      reads this
    {
      bytes.Length == DISK_BYTES
    }

    ghost function Image(): DiskImage
      requires Valid()
      reads this, bytes
    {
      bytes[..]
    }

    ghost function Vol(): Volume
      requires Valid()
      reads this, bytes
    {
      View(Image())
    }

    method WriteBytes(lba: nat, buf: seq<byte>)
      requires Valid() && BLOCK_SIZE * lba + |buf| <= DISK_BYTES
      modifies bytes
      ensures Image() == Splice(old(Image()), BLOCK_SIZE * lba, buf)
    {
      var at := BLOCK_SIZE * lba;
      forall k | 0 <= k < |buf| {
        bytes[at + k] := buf[k];
      }
      assert bytes[..] == Splice(old(bytes[..]), at, buf);
    }

    method ReadFatEntry(cluster: u16) returns (value: u16)
      requires Valid()
      ensures value == RawEntry(Image(), cluster)
    {
      var lba, offset := FAT_START_LBA + cluster / 256, cluster % 256 * 2;
      var buf: seq<byte> := bytes[BLOCK_SIZE * lba..BLOCK_SIZE * lba + BLOCK_SIZE];
      K.SliceOfSlice(Image(), BLOCK_SIZE * lba, offset, 2, FAT_START + 2 * cluster);
      value := Decode16(buf[offset..offset + 2]);
    }

    method WriteFatEntry(cluster: u16, value: u16)
      requires Valid()
      modifies bytes
      ensures Image() == SetWord(old(Image()), cluster, value)
      ensures cluster < FAT_ENTRIES ==> Vol() == old(Vol()).(fat := old(Vol()).fat[cluster := value])
    {
      var lba, offset := FAT_START_LBA + cluster / 256, cluster % 256 * 2;
      var buf: seq<byte> := bytes[BLOCK_SIZE * lba..BLOCK_SIZE * lba + BLOCK_SIZE];
      WriteBytes(lba, buf[offset := value % 0x100][offset + 1 := value / 0x100]);
      WordInSector(old(Image()), cluster, value);
      if cluster < FAT_ENTRIES {
        FatWriteInView(old(Image()), cluster, value);
      }
    }

    /** The first zero word of the disk after the boot sector, in or beyond the FAT. */
    method AllocCluster(totalClusters: u32) returns (r: Option<u16>)
      requires Valid()
      modifies bytes
      ensures r == LeastRaw(old(Image()), 2, LastCluster(totalClusters))
      ensures Image() == if r.Some? then SetWord(old(Image()), r.value, EOC) else old(Image())
    {
      hide View, Splice, RawEntry;
      var maxCluster := (2 + totalClusters as int - 1) % 0x1_0000;
      var cluster := 2;
      while cluster <= maxCluster
        invariant 2 <= cluster && (cluster == 2 || cluster <= maxCluster + 1)
        invariant Image() == old(Image())
        invariant LeastRaw(Image(), 2, maxCluster) == LeastRaw(Image(), cluster, maxCluster)
      {
        var entry := ReadFatEntry(cluster);
        if entry == FREE {
          WriteFatEntry(cluster, EOC);
          return Some(cluster);
        }
        cluster := cluster + 1;
      }
      return None;
    }

    /** Ends on every image, wherever the chain leads. */
    method FreeClusterChain(first: u16)
      requires Valid()
      modifies bytes
      ensures Image() == RawFree(old(Image()), first)
    {
      hide View, Splice, RawEntry;
      var current: u16 := first;
      while current >= 2 && current < RESERVED
        invariant RawFree(Image(), current) == RawFree(old(Image()), first)
        decreases RawUsed(Image()), if 2 <= current then 1 else 0
      {
        SetWordFrees(Image(), current);
        FreedEnds();
        var next := ReadFatEntry(current);
        WriteFatEntry(current, FREE);
        if next >= RESERVED {
          return;
        }
        current := next;
      }
    }

    method ReadDirEntry(index: nat) returns (entry: DirEntry)
      requires Valid() && index < DIR_ENTRIES
      ensures entry == Vol().dir[index]
    {
      var lba, offset := ROOT_DIR_START_LBA + index / 16, index % 16 * 32;
      var buf: seq<byte> := bytes[BLOCK_SIZE * lba..BLOCK_SIZE * lba + BLOCK_SIZE];
      K.SliceOfSlice(Image(), BLOCK_SIZE * lba, offset, 32, DIR_START + 32 * index);
      assert Vol().dir[index] == DirAt(Image(), index);
      entry := DecodeEntry(buf[offset..offset + 32]);
    }

    /** The tool's entries have no reserved bytes; it writes zeros there. */
    method WriteDirEntry(index: nat, entry: DirEntry)
      requires Valid() && index < DIR_ENTRIES && entry.reserved == Zeros(3)
      modifies bytes
      ensures Image() == SetEntry(old(Image()), index, entry)
      ensures Vol() == old(Vol()).(dir := old(Vol()).dir[index := entry])
    {
      var lba, offset := ROOT_DIR_START_LBA + index / 16, index % 16 * 32;
      var buf: seq<byte> := bytes[BLOCK_SIZE * lba..BLOCK_SIZE * lba + BLOCK_SIZE];
      SameEntryBytes(entry);
      WriteBytes(lba, Splice(buf, offset, EntryToBytes(entry)));
      K.DirSectorUpdate(old(Image()), index, entry);
      DirWriteInView(old(Image()), index, entry);
    }

    method FindFile(name: seq<byte>) returns (r: Option<nat>)
      requires Valid()
      ensures r == V.FindFile(Vol().dir, name, 0)
    {
      var i := 0;
      while i < DIR_ENTRIES
        invariant 0 <= i <= DIR_ENTRIES
        invariant V.FindFile(Vol().dir, name, 0) == V.FindFile(Vol().dir, name, i)
      {
        var entry := ReadDirEntry(i);
        if entry.inUse == 1 {
          var len := K.StoredNameLength(entry.name);
          if entry.name[..len] == name {
            return Some(i);
          }
        }
        i := i + 1;
      }
      return None;
    }

    /** Deleting a file that is not there does nothing. */
    method DeleteFile(name: seq<byte>) returns (ok: bool)
      requires Valid()
      modifies bytes
      ensures ok == NameLengthOk(name)
      ensures Image() == if ok then RawRemove(old(Image()), name) else old(Image())
    {
      hide View, Splice, RawFree;
      if |name| == 0 || |name| > 21 {
        return false;
      }
      var slot := FindFile(name);
      if slot.Some? {
        var entry := ReadDirEntry(slot.value);
        if entry.firstCluster >= 2 {
          FreeClusterChain(entry.firstCluster);
        }
        WriteDirEntry(slot.value, EMPTY_ENTRY);
      }
      return true;
    }

    method FindFreeSlot() returns (r: Option<nat>)
      requires Valid()
      ensures r == FreeSlot(Vol().dir, 0)
    {
      var i := 0;
      while i < DIR_ENTRIES
        invariant 0 <= i <= DIR_ENTRIES
        invariant FreeSlot(Vol().dir, 0) == FreeSlot(Vol().dir, i)
      {
        var entry := ReadDirEntry(i);
        if entry.inUse == 0 {
          return Some(i);
        }
        i := i + 1;
      }
      return None;
    }

    method AttachCluster(prev: Option<nat>, chunk: seq<byte>, totalClusters: u32) returns (r: Option<u16>)
      requires Valid() && (prev.Some? ==> prev.value < 0x1_0000) && |chunk| <= CLUSTER_BYTES
      modifies bytes
      ensures r == LeastRaw(old(Image()), 2, LastCluster(totalClusters))
      ensures Image() == if r.Some? then RawAttach(old(Image()), r.value, chunk, prev) else old(Image())
    {
      hide View, Splice, LeastRaw, RawEntry;
      r := AllocCluster(totalClusters);
      if r.Some? {
        if prev.Some? {
          WriteFatEntry(prev.value, r.value);
        }
        WriteBytes(ClusterToLba(r.value), Padded(chunk));
      }
    }

    method FillClusters(data: seq<byte>, totalClusters: u32) returns (r: Option<u16>)
      requires Valid() && data != []
      modifies bytes
      ensures (Image(), r) == RawFill(old(Image()), data, None, LastCluster(totalClusters))
    {
      hide RawFill, RawAttach, LeastRaw;
      ghost var max := LastCluster(totalClusters);
      ghost var f := RawFill(Image(), data, None, max);
      var clustersNeeded := (|data| + CLUSTER_BYTES - 1) / CLUSTER_BYTES;
      var prev: Option<nat> := None;
      var first: u16 := 0;
      var i := 0;
      ghost var rest := data;
      while i < clustersNeeded
        invariant 0 <= i <= clustersNeeded && (prev.Some? ==> prev.value < 0x1_0000)
        invariant i < clustersNeeded ==> rest == data[CLUSTER_BYTES * i..]
        invariant i < clustersNeeded ==> f == WithFirst(i, first, RawFill(Image(), rest, prev, max))
        invariant i == clustersNeeded ==> f == (Image(), Some(first))
      {
        var srcOffset := i * CLUSTER_BYTES;
        var srcEnd := Min(srcOffset + CLUSTER_BYTES, |data|);
        var chunk := data[srcOffset..srcEnd];
        assert chunk == rest[..Min(|rest|, CLUSTER_BYTES)];
        RawFillStep(Image(), rest, prev, max, i, first);
        var c := AttachCluster(prev, chunk, totalClusters);
        if c.None? {
          return None;
        }
        if i == 0 {
          first := c.value;
        }
        prev := Some(c.value);
        i := i + 1;
        if i < clustersNeeded {
          rest := rest[CLUSTER_BYTES..];
        }
      }
      return Some(first);
    }

    /** On every image, with every limit on clusters: the image and the success of `RawCreate`. */
    method CreateFile(name: seq<byte>, data: seq<byte>, totalClusters: u32) returns (ok: bool)
      requires Valid()
      modifies bytes
      ensures (Image(), ok) == RawCreate(old(Image()), name, data, LastCluster(totalClusters))
    {
      hide RawRemove, RawFill, View, Splice;
      if |name| == 0 || |name| > 21 {
        return false;
      }
      var deleted := DeleteFile(name);
      var slot := FindFreeSlot();
      if slot.None? {
        return false;
      }
      var first: u16 := 0;
      if |data| > 0 {
        var filled := FillClusters(data, totalClusters);
        if filled.None? {
          return false;
        }
        first := filled.value;
      }
      WriteDirEntry(slot.value, NewEntry(name, first, |data|));
      return true;
    }

    /** The insert command: the boot sector is checked, and its count is the limit. */
    method Insert(name: seq<byte>, data: seq<byte>) returns (ok: bool)
      requires Valid()
      modifies bytes
      ensures (Image(), ok) == Inserted(old(Image()), name, data)
    {
      hide RawCreate, DecodeBoot;
      var buf: seq<byte> := bytes[..BLOCK_SIZE];
      assert buf == Vol().boot;
      var bs := DecodeBoot(buf);
      if bs.magic != FAT_MAGIC {
        return false;
      }
      ok := CreateFile(name, data, bs.totalClusters);
    }

    method Format()
      requires Valid()
      modifies bytes
      ensures Vol() == V.Format(old(Vol()))
    {
      SameBootBytes(BOOT);
      BootWriteInView(Image(), EncodeBoot(BOOT));
      WriteBytes(0, BootToBytes(BOOT));
      K.ZeroFat(Image());
      ZeroSectors(FAT_START_LBA, FAT_SECTORS);
      WriteFatEntry(0, 0xFFF8);
      WriteFatEntry(1, EOC);
      assert Vol().fat == FORMATTED_FAT;
      K.ZeroDir(Image());
      ZeroSectors(ROOT_DIR_START_LBA, ROOT_DIR_SECTORS);
    }

    method ZeroSectors(start: nat, count: nat)
      requires Valid() && start + count <= TOTAL_SECTORS
      modifies bytes
      ensures Image() == Splice(old(Image()), BLOCK_SIZE * start, Zeros(BLOCK_SIZE * count))
    {
      var i := 0;
      while i < count
        invariant 0 <= i <= count
        invariant Image() == Splice(old(Image()), BLOCK_SIZE * start, Zeros(BLOCK_SIZE * i))
      {
        WriteBytes(start + i, Zeros(BLOCK_SIZE));
        i := i + 1;
      }
    }
  }

  lemma FreedEnds()
    ensures forall disk: DiskImage, current: u16 | current < 2 || current >= RESERVED :: RawFree(disk, current) == disk
  {
  }

  ghost function WithFirst(i: nat, first: nat, r: (DiskImage, Option<nat>)): (DiskImage, Option<nat>) {
    if i > 0 && r.1.Some? then (r.0, Some(first)) else r
  }

  /** One unfolding of `RawFill`, as the loop sees it. */
  lemma RawFillStep(disk: DiskImage, rest: seq<byte>, prev: Option<nat>, max: nat, i: nat, first: nat)
    requires rest != [] && max < 0x1_0000 && (prev.Some? ==> prev.value < 0x1_0000)
    ensures match LeastRaw(disk, 2, max)
            case None => WithFirst(i, first, RawFill(disk, rest, prev, max)) == (disk, None)
            case Some(c) =>
              var disk1, f := RawAttach(disk, c, rest[..Min(|rest|, CLUSTER_BYTES)], prev), if i == 0 then c else first;
              WithFirst(i, first, RawFill(disk, rest, prev, max)) ==
              if |rest| <= CLUSTER_BYTES then (disk1, Some(f))
              else WithFirst(i + 1, f, RawFill(disk1, rest[CLUSTER_BYTES..], Some(c), max))
  {
    hide RawAttach, LeastRaw;
  }

  /**
   Host and kernel side by side, from the same image of a volume that models the store
   `s`, whatever count is in its boot sector: both end with the same image, byte for byte, if
   and only if they run alike.  With a limit beyond the directory that means: the name is
   bad, the directory is full, or the file fits.
   */
  method CreateOnBoth(host: HostDisk, kernel: K.Disk, name: seq<byte>, data: seq<byte>,
                      ghost chains: seq<seq<nat>>, ghost s: Store)
    returns (r: FsResult<()>, ok: bool)
    requires host.Valid() && kernel.Valid() && kernel.ready && host.bytes != kernel.bytes
    requires host.Image() == kernel.Image() && Models(kernel.Vol(), chains, s) && CleanSlots(kernel.Vol())
    modifies host.bytes, kernel.bytes
    ensures r == Create(old(kernel.Vol()), name, data).1 && (0 !in name ==> r == StoreCreate(s, name, data).1)
    ensures host.Image() == kernel.Image() <==> Alike(old(host.Image()), name, data, Limit(old(host.Image())))
    ensures host.Image() == kernel.Image() ==> ok == r.Ok?
    ensures DIR_END - 1 <= Limit(old(host.Image())) ==>
              (host.Image() == kernel.Image() <==> Agreeable(s, name, data))
  {
    hide Create, View, Models, CleanSlots, RawCreate, Alike, Limit, StoreCreate;
    ghost var disk := host.Image();
    if 0 !in name {
      var chains' := CreateRefines(kernel.Vol(), chains, s, name, data);
    }
    ModelsFormatted(kernel.Vol(), chains, s);
    r := kernel.CreateFile(name, data);
    ok := host.Insert(name, data);
    SameImageIffAlike(disk, kernel.Image(), chains, s, name, data, Limit(disk));
    if DIR_END - 1 <= Limit(disk) {
      AlikeIffAgreeable(disk, chains, s, name, data, Limit(disk));
    }
  }

  /**
   The same on every image, damaged ones included, unless the limit is inside the FAT or the
   kernel reports InvalidArgument.
   */
  method CreateOnAnyImage(host: HostDisk, kernel: K.Disk, name: seq<byte>, data: seq<byte>)
    returns (r: FsResult<()>, ok: bool)
    requires host.Valid() && kernel.Valid() && kernel.ready && host.bytes != kernel.bytes
    requires host.Image() == kernel.Image()
    modifies host.bytes, kernel.bytes
    ensures r == Create(old(kernel.Vol()), name, data).1
    ensures FAT_ENTRIES - 1 <= Limit(old(host.Image())) && r != Err(InvalidArgument) ==>
              host.Image() == kernel.Image() && ok == r.Ok?
  {
    hide Create, View, Formatted, RawCreate, Limit;
    ghost var disk := host.Image();
    r := kernel.CreateFile(name, data);
    ok := host.Insert(name, data);
    if FAT_ENTRIES - 1 <= Limit(disk) && r != Err(InvalidArgument) {
      if Formatted(View(disk).boot) {
        RawCreateAgrees(disk, name, data, Limit(disk));
      } else {
        UnformattedRefused(View(disk), name, data);
      }
      ViewIsInjective(host.Image(), kernel.Image());
    }
  }

  lemma UnformattedRefused(v: Volume, name: seq<byte>, data: seq<byte>)
    requires !Formatted(v.boot)
    ensures Create(v, name, data) == (v, Err(if 1 <= |name| <= 21 then NotFormatted else InvalidArgument))
  {
    hide Formatted;
  }

  /**
   What the tool inserts the kernel reads: the same bytes, first on the host, then under the
   kernel, whenever the clusters within the tool's limit suffice.
   */
  method InsertThenRead(bytes: array<byte>, name: seq<byte>, data: seq<byte>,
                        ghost chains: seq<seq<nat>>, ghost s: Store)
    returns (ok: bool, r: FsResult<seq<byte>>)
    requires bytes.Length == DISK_BYTES && Models(View(bytes[..]), chains, s) && 0 !in name
    modifies bytes
    ensures InReach(old(bytes[..]), name, data, Limit(old(bytes[..]))) ==>
              && ok == StoreCreate(s, name, data).1.Ok?
              && IsStore(View(bytes[..]), StoreCreate(s, name, data).0)
              && (ok ==> r == Ok(data))
    ensures FAT_ENTRIES - 1 <= Limit(old(bytes[..])) ==>
              (InReach(old(bytes[..]), name, data, Limit(old(bytes[..]))) <==> Agreeable(s, name, data))
  {
    hide Create, View, Models, RawCreate, Read, InReach, Limit;
    var host := new HostDisk(bytes);
    ghost var disk := host.Image();
    ModelsFormatted(View(disk), chains, s);
    ok := host.Insert(name, data);
    var kernel := new K.Disk(bytes, true);
    r := kernel.ReadFile(name);
    if InReach(disk, name, data, Limit(disk)) {
      InsertedIsRead(disk, chains, s, name, data, Limit(disk));
    }
    if FAT_ENTRIES - 1 <= Limit(disk) {
      InReachIffAgreeable(disk, chains, s, name, data, Limit(disk));
    }
  }

  lemma InsertedIsRead(disk: DiskImage, chains: seq<seq<nat>>, s: Store, name: Name, data: seq<byte>, max: nat)
    requires max < 0x1_0000 && Models(View(disk), chains, s) && 0 !in name && InReach(disk, name, data, max)
    ensures var t := RawCreate(disk, name, data, max);
            && t.1 == StoreCreate(s, name, data).1.Ok?
            && IsStore(View(t.0), StoreCreate(s, name, data).0)
            && (t.1 ==> Read(View(t.0), name) == Ok(data))
  {
    hide View, Models, Create, Read, RawCreate, InReach;
    InReachAgrees(disk, chains, s, name, data, max);
    var chains' := CreateRefines(View(disk), chains, s, name, data);
    ReadRefines(View(RawCreate(disk, name, data, max).0), chains', StoreCreate(s, name, data).0, name);
  }

  method FormatOnBoth(host: HostDisk, kernel: K.Disk)
    requires host.Valid() && kernel.Valid() && kernel.ready && host.bytes != kernel.bytes
    requires host.Image() == kernel.Image()
    modifies host.bytes, kernel.bytes
    ensures host.Image() == kernel.Image()
  {
    var r := kernel.Format();
    host.Format();
    ViewIsInjective(host.Image(), kernel.Image());
  }

  lemma WordInSector(disk: DiskImage, c: nat, v: u16)
    requires c < 0x1_0000
    ensures var lba, off := FAT_START_LBA + c / 256, c % 256 * 2;
            var buf := disk[BLOCK_SIZE * lba..BLOCK_SIZE * lba + BLOCK_SIZE];
            Splice(disk, BLOCK_SIZE * lba, buf[off := v % 0x100][off + 1 := v / 0x100])
            == Splice(disk, FAT_START + 2 * c, Encode16(v))
  {
  }
}
