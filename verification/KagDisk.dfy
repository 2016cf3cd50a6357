/**
 The filesystem code as it works on the disk: every operation reads and writes
 whole 512-byte sectors in place.  Each method is proved to compute the volume
 function of the same name, on every disk content.
 */
module KagDisk {
  import opened Bytes
  import opened KagLayout
  import V = KagVolume
  import opened KagVolume

  // ---------------------------------------------------------------- sector arithmetic

  lemma SliceOfSlice(disk: seq<byte>, base: nat, off: nat, len: nat, at: nat)
    requires base + BLOCK_SIZE <= |disk| && off + len <= BLOCK_SIZE && at == base + off
    ensures disk[base..base + BLOCK_SIZE][off..off + len] == disk[at..at + len]
  {
  }

  /** Replacing two bytes of a FAT sector replaces one FAT entry. */
  lemma FatSectorUpdate(disk: DiskImage, c: nat, v: u16)
    requires c < FAT_ENTRIES
    ensures var lba, off := FAT_START_LBA + c / 256, c % 256 * 2;
            var buf := disk[BLOCK_SIZE * lba..BLOCK_SIZE * lba + BLOCK_SIZE];
            Splice(disk, BLOCK_SIZE * lba, buf[off := v % 0x100][off + 1 := v / 0x100])
            == Splice(disk, FAT_START + 2 * c, Encode16(v))
  {
  }

  /** Replacing 32 bytes of a directory sector replaces one directory entry. */
  lemma DirSectorUpdate(disk: DiskImage, i: nat, e: DirEntry)
    requires i < DIR_ENTRIES
    ensures var lba, off := ROOT_DIR_START_LBA + i / 16, i % 16 * 32;
            var buf := disk[BLOCK_SIZE * lba..BLOCK_SIZE * lba + BLOCK_SIZE];
            Splice(disk, BLOCK_SIZE * lba, Splice(buf, off, EncodeEntry(e)))
            == Splice(disk, DIR_START + 32 * i, EncodeEntry(e))
  {
  }

  lemma ZeroFat(disk: DiskImage)
    ensures View(Splice(disk, FAT_START, Zeros(BLOCK_SIZE * FAT_SECTORS)))
            == View(disk).(fat := seq(FAT_ENTRIES, _ => FREE))
  {
    var d' := Splice(disk, FAT_START, Zeros(BLOCK_SIZE * FAT_SECTORS));
    SameRegions(disk, d', FAT_START, DIR_START);
    forall c | 0 <= c < FAT_ENTRIES
      ensures View(d').fat[c] == FREE
    {
      assert d'[FAT_START + 2 * c..FAT_START + 2 * c + 2] == [0, 0];
      assert FatAt(d', c) == FREE;
    }
    assert View(d').fat == seq(FAT_ENTRIES, _ => FREE);
  }

  lemma ZeroDir(disk: DiskImage)
    ensures View(Splice(disk, DIR_START, Zeros(BLOCK_SIZE * ROOT_DIR_SECTORS)))
            == View(disk).(dir := seq(DIR_ENTRIES, _ => EMPTY_ENTRY))
  {
    var d' := Splice(disk, DIR_START, Zeros(BLOCK_SIZE * ROOT_DIR_SECTORS));
    SameRegions(disk, d', DIR_START, DATA_START);
    forall i | 0 <= i < DIR_ENTRIES
      ensures View(d').dir[i] == EMPTY_ENTRY
    {
      assert d'[DIR_START + 32 * i..DIR_START + 32 * i + 32] == EncodeEntry(EMPTY_ENTRY);
      EntryRoundTrip(EMPTY_ENTRY, Zeros(32));
      assert DirAt(d', i) == EMPTY_ENTRY;
    }
    assert View(d').dir == seq(DIR_ENTRIES, _ => EMPTY_ENTRY);
  }

  class Disk {
    const bytes: array<byte>
    var ready: bool

    ghost predicate Valid()
      reads this
    {
      bytes.Length == DISK_BYTES
    }

    constructor (bytes: array<byte>, ready: bool)
      requires bytes.Length == DISK_BYTES
      ensures Valid() && this.bytes == bytes && this.ready == ready
    {
      this.bytes, this.ready := bytes, ready;
    }

    ghost function Image(): DiskImage
      requires Valid()
      reads this, bytes
    {
      bytes[..]
    }

    ghost function Vol(): Volume
      requires Valid()
      reads this, bytes
    {
      View(Image())
    }

    // -------------------------------------------------------------- block access

    method ReadBlocks(lba: nat, count: nat) returns (r: FsResult<seq<byte>>)
      requires Valid() && lba + count <= TOTAL_SECTORS
      ensures r == if count == 0 then Err(InvalidArgument)
                   else if !ready then Err(NotReady)
                   else Ok(Image()[BLOCK_SIZE * lba..BLOCK_SIZE * (lba + count)])
    {
      if count == 0 {
        return Err(InvalidArgument);
      }
      if !ready {
        return Err(NotReady);
      }
      return Ok(bytes[BLOCK_SIZE * lba..BLOCK_SIZE * (lba + count)]);
    }

    method WriteBlocks(lba: nat, count: nat, buf: seq<byte>) returns (r: FsResult<()>)
      requires Valid() && lba + count <= TOTAL_SECTORS && |buf| == BLOCK_SIZE * count
      modifies bytes
      ensures r == if count == 0 then Err(InvalidArgument) else if !ready then Err(NotReady) else Ok(())
      ensures Image() == if r.Ok? then Splice(old(Image()), BLOCK_SIZE * lba, buf) else old(Image())
    {
      if count == 0 {
        return Err(InvalidArgument);
      }
      if !ready {
        return Err(NotReady);
      }
      var at := BLOCK_SIZE * lba;
      forall k | 0 <= k < |buf| {
        bytes[at + k] := buf[k];
      }
      assert bytes[..] == Splice(old(bytes[..]), at, buf);
      return Ok(());
    }

    // -------------------------------------------------------------- FAT entries

    method ReadFatEntry(cluster: u16) returns (r: FsResult<u16>)
      requires Valid()
      ensures r == if cluster >= FAT_ENTRIES then Err(InvalidArgument)
                   else if !ready then Err(NotReady)
                   else Ok(Vol().fat[cluster])
    {
      var sectorIndex, entryIndex := cluster / 256, cluster % 256;
      if sectorIndex >= FAT_SECTORS {
        return Err(InvalidArgument);
      }
      var buf := ReadBlocks(FAT_START_LBA + sectorIndex, 1);
      if buf.Err? {
        return Err(buf.error);
      }
      var offset := entryIndex * 2;
      SliceOfSlice(Image(), BLOCK_SIZE * (FAT_START_LBA + sectorIndex), offset, 2, FAT_START + 2 * cluster);
      assert Vol().fat[cluster] == FatAt(Image(), cluster);
      return Ok(Decode16(buf.value[offset..offset + 2]));
    }

    method WriteFatEntry(cluster: u16, value: u16) returns (r: FsResult<()>)
      requires Valid()
      modifies bytes
      ensures r == if cluster >= FAT_ENTRIES then Err(InvalidArgument) else if !ready then Err(NotReady) else Ok(())
      ensures Vol() == if r.Ok? then old(Vol()).(fat := old(Vol()).fat[cluster := value]) else old(Vol())
      ensures r.Err? ==> Image() == old(Image())
    {
      var sectorIndex, entryIndex := cluster / 256, cluster % 256;
      if sectorIndex >= FAT_SECTORS {
        return Err(InvalidArgument);
      }
      var lba := FAT_START_LBA + sectorIndex;
      var buf := ReadBlocks(lba, 1);
      if buf.Err? {
        return Err(buf.error);
      }
      var offset := entryIndex * 2;
      r := WriteBlocks(lba, 1, buf.value[offset := value % 0x100][offset + 1 := value / 0x100]);
      FatSectorUpdate(old(Image()), cluster, value);
      FatWriteInView(old(Image()), cluster, value);
    }

    /** The least free cluster, now marked end-of-chain.  Running past the FAT is an invalid argument. */
    method AllocCluster() returns (r: FsResult<u16>)
      requires Valid()
      modifies bytes
      ensures !ready ==> r == Err(NotReady) && Image() == old(Image())
      ensures ready ==>
                r == (match LeastFree(old(Vol()).fat, 2) case Some(c) => Ok(c) case None => Err(InvalidArgument))
      ensures ready ==> Vol() == if r.Ok? then old(Vol()).(fat := old(Vol()).fat[r.value := EOC]) else old(Vol())
    {
      var maxCluster := (2 + TOTAL_CLUSTERS - 1) % 0x1_0000;
      var cluster: u16 := 2;
      while cluster <= maxCluster
        invariant 2 <= cluster <= FAT_ENTRIES
        invariant Image() == old(Image())
        invariant !ready ==> cluster == 2
        invariant LeastFree(Vol().fat, 2) == LeastFree(Vol().fat, cluster)
      {
        var entry := ReadFatEntry(cluster);
        if entry.Err? {
          return Err(entry.error);
        }
        if entry.value == FREE {
          var w := WriteFatEntry(cluster, EOC);
          return match w case Err(e) => Err(e) case Ok(_) => Ok(cluster);
        }
        cluster := cluster + 1;
      }
      return Err(NoSpace);
    }

    method FreeClusterChain(first: u16) returns (r: FsResult<()>)
      requires Valid()
      modifies bytes
      ensures ready ==> (Vol().fat, r) == FreeChain(old(Vol()).fat, first)
      ensures Vol() == old(Vol()).(fat := Vol().fat)
      ensures !ready ==> Image() == old(Image())
    {
      var current: u16 := first;
      while true
        invariant ready ==> FreeChain(Vol().fat, current) == FreeChain(old(Vol()).fat, first)
        invariant Vol() == old(Vol()).(fat := Vol().fat)
        invariant !ready ==> Image() == old(Image())
        decreases UsedSet(Vol().fat), if 2 <= current < FAT_ENTRIES then 1 else 0
      {
        if current < 2 || current >= RESERVED {
          break;
        }
        var next := ReadFatEntry(current);
        if next.Err? {
          return Err(next.error);
        }
        ghost var before := Vol().fat;
        var w := WriteFatEntry(current, FREE);
        if w.Err? {
          return w;
        }
        assert UsedSet(Vol().fat) == UsedSet(before) - {current as nat};
        if next.value >= RESERVED {
          break;
        }
        assert next.value != FREE ==> current as nat in UsedSet(before);
        current := next.value;
      }
      return Ok(());
    }

    // -------------------------------------------------------------- directory entries

    method ReadDirEntry(index: nat) returns (r: FsResult<DirEntry>)
      requires Valid()
      ensures r == if index >= DIR_ENTRIES then Err(InvalidArgument)
                   else if !ready then Err(NotReady)
                   else Ok(Vol().dir[index])
    {
      if index >= DIR_ENTRIES {
        return Err(InvalidArgument);
      }
      var sector, slot := index / 16, index % 16;
      var buf := ReadBlocks(ROOT_DIR_START_LBA + sector, 1);
      if buf.Err? {
        return Err(buf.error);
      }
      var offset := slot * 32;
      SliceOfSlice(Image(), BLOCK_SIZE * (ROOT_DIR_START_LBA + sector), offset, 32, DIR_START + 32 * index);
      assert Vol().dir[index] == DirAt(Image(), index);
      return Ok(DecodeEntry(buf.value[offset..offset + 32]));
    }

    method WriteDirEntry(index: nat, entry: DirEntry) returns (r: FsResult<()>)
      requires Valid()
      modifies bytes
      ensures r == if index >= DIR_ENTRIES then Err(InvalidArgument) else if !ready then Err(NotReady) else Ok(())
      ensures Vol() == if r.Ok? then old(Vol()).(dir := old(Vol()).dir[index := entry]) else old(Vol())
      ensures r.Err? ==> Image() == old(Image())
    {
      if index >= DIR_ENTRIES {
        return Err(InvalidArgument);
      }
      var sector, slot := index / 16, index % 16;
      var lba := ROOT_DIR_START_LBA + sector;
      var buf := ReadBlocks(lba, 1);
      if buf.Err? {
        return Err(buf.error);
      }
      r := WriteBlocks(lba, 1, Splice(buf.value, slot * 32, EncodeEntry(entry)));
      DirSectorUpdate(old(Image()), index, entry);
      DirWriteInView(old(Image()), index, entry);
    }

    method FindFile(name: seq<byte>) returns (r: FsResult<Option<(nat, DirEntry)>>)
      requires Valid()
      ensures !NameLengthOk(name) ==> r == Err(InvalidArgument)
      ensures NameLengthOk(name) && !ready ==> r == Err(NotReady)
      ensures NameLengthOk(name) && ready ==>
                match V.FindFile(Vol().dir, name, 0)
                case Some(i) => r == Ok(Some((i, Vol().dir[i])))
                case None => r == Ok(None)
    {
      if |name| == 0 || |name| > 21 {
        return Err(InvalidArgument);
      }
      var i := 0;
      while i < DIR_ENTRIES
        invariant 0 <= i <= DIR_ENTRIES
        invariant !ready ==> i == 0
        invariant V.FindFile(Vol().dir, name, 0) == V.FindFile(Vol().dir, name, i)
      {
        var entry := ReadDirEntry(i);
        if entry.Err? {
          return Err(entry.error);
        }
        if entry.value.inUse == 1 {
          var len := StoredNameLength(entry.value.name);
          if entry.value.name[..len] == name {
            return Ok(Some((i, entry.value)));
          }
        }
        i := i + 1;
      }
      return Ok(None);
    }

    method FindFreeDirSlot() returns (r: FsResult<Option<nat>>)
      requires Valid()
      ensures !ready ==> r == Err(NotReady)
      ensures ready ==> r == Ok(FreeSlot(Vol().dir, 0))
    {
      var i := 0;
      while i < DIR_ENTRIES
        invariant 0 <= i <= DIR_ENTRIES
        invariant !ready ==> i == 0
        invariant FreeSlot(Vol().dir, 0) == FreeSlot(Vol().dir, i)
      {
        var entry := ReadDirEntry(i);
        if entry.Err? {
          return Err(entry.error);
        }
        if entry.value.inUse == 0 {
          return Ok(Some(i));
        }
        i := i + 1;
      }
      return Ok(None);
    }

    // -------------------------------------------------------------- file operations

    method ReadBootSector() returns (r: FsResult<BootSector>)
      requires Valid()
      ensures r == if !ready then Err(NotReady)
                   else if Formatted(Vol().boot) then Ok(DecodeBoot(Vol().boot))
                   else Err(NotFormatted)
    {
      if !ready {
        return Err(NotReady);
      }
      var buf := ReadBlocks(0, 1);
      assert buf.value == Vol().boot;
      var bs := DecodeBoot(buf.value);
      return if bs.magic == FAT_MAGIC then Ok(bs) else Err(NotFormatted);
    }

    /** Free the clusters of slot `idx`, then clear it. */
    method RemoveEntry(idx: nat, entry: DirEntry) returns (r: FsResult<()>)
      requires Valid() && ready && idx < DIR_ENTRIES && entry == Vol().dir[idx]
      modifies bytes
      ensures (Vol(), r) == Remove(old(Vol()), idx)
    {
      if entry.firstCluster >= 2 {
        r := FreeClusterChain(entry.firstCluster);
        if r.Err? {
          return;
        }
      }
      r := WriteDirEntry(idx, EMPTY_ENTRY);
    }

    method DeleteFile(name: seq<byte>) returns (r: FsResult<()>)
      requires Valid()
      modifies bytes
      ensures ready ==> (Vol(), r) == Delete(old(Vol()), name)
      ensures !ready ==> Image() == old(Image()) && r == Err(if NameLengthOk(name) then NotReady else InvalidArgument)
    {
      var found := FindFile(name);
      if found.Err? {
        return Err(found.error);
      }
      if found.value.None? {
        return Err(FileNotFound);
      }
      r := RemoveEntry(found.value.value.0, found.value.value.1);
    }

    method ReadFile(name: seq<byte>) returns (r: FsResult<seq<byte>>)
      requires Valid()
      ensures ready ==> r == Read(Vol(), name)
      ensures !ready ==> r == Err(if NameLengthOk(name) then NotReady else InvalidArgument)
    {
      var found := FindFile(name);
      if found.Err? {
        return Err(found.error);
      }
      if found.value.None? {
        return Err(FileNotFound);
      }
      var entry := found.value.value.1;
      if entry.size == 0 {
        return Ok([]);
      }
      r := ReadClusters(entry.firstCluster, entry.size);
    }

    method ReadClusters(first: u16, size: nat) returns (r: FsResult<seq<byte>>)
      requires Valid() && ready
      ensures r == ReadChain(Vol(), first, size)
    {
      var result: seq<byte> := [];
      var current: u16 := first;
      PrefixedNil(ReadChain(Vol(), first, size));
      while current >= 2 && current < RESERVED && |result| < size
        invariant |result| <= size
        invariant ReadChain(Vol(), first, size) == Prefixed(result, ReadChain(Vol(), current, size - |result|))
        decreases size - |result|
      {
        var remaining := size - |result|;
        var toRead := Min(remaining, CLUSTER_BYTES);
        var buf := ReadBlocks(ClusterToLba(current), SECTORS_PER_CLUSTER);
        var next := ReadFatEntry(current);
        if next.Err? {
          return Err(next.error);
        }
        assert buf.value == ClusterAt(Vol().data, current);
        ReadChainStep(Vol(), current, remaining, result);
        result := result + buf.value[..toRead];
        current := next.value;
      }
      return Ok(result + Zeros(size - |result|));
    }

    /** One round of the loop below: take a cluster, link it after `prev`, write `chunk` to it. */
    method AttachCluster(prev: Option<nat>, chunk: seq<byte>) returns (r: FsResult<u16>)
      requires Valid() && ready && |chunk| <= CLUSTER_BYTES && (prev.Some? ==> prev.value < FAT_ENTRIES)
      modifies bytes
      ensures match LeastFree(old(Vol()).fat, 2)
              case None => r == Err(InvalidArgument) && Vol() == old(Vol())
              case Some(c) => r == Ok(c) && Vol() == Attach(old(Vol()), c, chunk, prev)
    {
      r := AllocCluster();
      if r.Err? {
        return;
      }
      if prev.Some? {
        var linked := WriteFatEntry(prev.value, r.value);
      }
      var written := WriteBlocksAtCluster(r.value, Padded(chunk));
    }

    /** The allocate, link and write loop. */
    method FillClusters(data: seq<byte>) returns (r: FsResult<u16>)
      requires Valid() && ready && data != []
      modifies bytes
      ensures (Vol(), r) == Fill(old(Vol()), data, None)
    {
      hide Fill, Attach, LeastFree, View;
      var clustersNeeded := (|data| + CLUSTER_BYTES - 1) / CLUSTER_BYTES;
      var prev: Option<nat> := None;
      var first: u16 := 0;
      var i := 0;
      ghost var rest := data;
      while i < clustersNeeded
        invariant 0 <= i <= clustersNeeded
        invariant prev.Some? ==> prev.value < FAT_ENTRIES
        invariant i < clustersNeeded ==> rest == data[CLUSTER_BYTES * i..]
        invariant i < clustersNeeded ==>
                    Fill(old(Vol()), data, None) == WithFirst(i, first, Fill(Vol(), rest, prev))
        invariant i == clustersNeeded ==> Fill(old(Vol()), data, None) == (Vol(), Ok(first))
      {
        var srcOffset := i * CLUSTER_BYTES;
        var srcEnd := Min(srcOffset + CLUSTER_BYTES, |data|);
        var chunk := data[srcOffset..srcEnd];
        assert chunk == rest[..Min(|rest|, CLUSTER_BYTES)];
        FillStep(Vol(), rest, prev, i, first);
        var c := AttachCluster(prev, chunk);
        if c.Err? {
          return c;
        }
        if i == 0 {
          first := c.value;
        }
        prev := Some(c.value);
        i := i + 1;
        if i < clustersNeeded {
          rest := rest[CLUSTER_BYTES..];
        }
      }
      return Ok(first);
    }

    method WriteBlocksAtCluster(c: nat, buf: Cluster) returns (r: FsResult<()>)
      requires Valid() && ready && 2 <= c < FAT_ENTRIES
      modifies bytes
      ensures r == Ok(()) && Vol() == old(Vol()).(data := WriteCluster(old(Vol()).data, c, buf))
    {
      r := WriteBlocks(ClusterToLba(c), SECTORS_PER_CLUSTER, buf);
      DataWriteInView(old(Image()), BLOCK_SIZE * ClusterToLba(c), buf);
    }

    method CreateFile(name: seq<byte>, data: seq<byte>) returns (r: FsResult<()>)
      requires Valid()
      modifies bytes
      ensures ready ==> (Vol(), r) == Create(old(Vol()), name, data)
      ensures !ready ==> Image() == old(Image()) && r == Err(if NameLengthOk(name) then NotReady else InvalidArgument)
    {
      hide FreeChain, Fill, V.FindFile, FreeSlot, View, DecodeBoot;
      if |name| == 0 || |name| > 21 {
        return Err(InvalidArgument);
      }
      var boot := ReadBootSector();
      if boot.Err? {
        return Err(boot.error);
      }
      var existing := FindFile(name);
      match existing {
        case Err(e) => return Err(e);
        case Ok(_) =>
      }
      if existing.value.Some? {
        r := RemoveEntry(existing.value.value.0, existing.value.value.1);
        if r.Err? {
          return;
        }
      }
      ghost var cleared := Vol();
      var slot := FindFreeDirSlot();
      match slot {
        case Err(e) => return Err(e);
        case Ok(_) =>
      }
      if slot.value.None? {
        return Err(NoSpace);
      }
      var first: FsResult<u16> := Ok(0);
      if |data| > 0 {
        first := FillClusters(data);
        if first.Err? {
          return Err(first.error);
        }
      }
      r := WriteDirEntry(slot.value.value, NewEntry(name, first.value, |data|));
    }

    method Format() returns (r: FsResult<()>)
      requires Valid()
      modifies bytes
      ensures ready ==> r == Ok(()) && Vol() == V.Format(old(Vol()))
      ensures !ready ==> r == Err(NotReady) && Image() == old(Image())
    {
      if !ready {
        return Err(NotReady);
      }
      r := WriteBlocks(0, 1, EncodeBoot(BOOT));
      BootWriteInView(old(Image()), EncodeBoot(BOOT));
      ZeroFat(Image());
      ZeroSectors(FAT_START_LBA, FAT_SECTORS);
      r := WriteFatEntry(0, 0xFFF8);
      r := WriteFatEntry(1, EOC);
      assert Vol().fat == FORMATTED_FAT;
      ZeroDir(Image());
      ZeroSectors(ROOT_DIR_START_LBA, ROOT_DIR_SECTORS);
    }

    method ZeroSectors(start: nat, count: nat)
      requires Valid() && ready && start + count <= TOTAL_SECTORS
      modifies bytes
      ensures Image() == Splice(old(Image()), BLOCK_SIZE * start, Zeros(BLOCK_SIZE * count))
    {
      var i := 0;
      while i < count
        invariant 0 <= i <= count
        invariant Image() == Splice(old(Image()), BLOCK_SIZE * start, Zeros(BLOCK_SIZE * i))
      {
        var r := WriteBlocks(start + i, 1, Zeros(BLOCK_SIZE));
        i := i + 1;
      }
    }
  }

  /** Where a stored name ends. */
  method StoredNameLength(name: NameField) returns (len: nat)
    ensures len <= 22 && name[..len] == NulPrefix(name)
  {
    len := 0;
    while len < 22 && name[len] != 0
      invariant 0 <= len <= 22
      invariant 0 !in name[..len]
    {
      len := len + 1;
    }
    NulPrefixUnique(name, len);
  }

  lemma {:induction false} NulPrefixUnique(s: seq<byte>, len: nat)
    requires len <= |s| && 0 !in s[..len] && (len < |s| ==> s[len] == 0)
    ensures NulPrefix(s) == s[..len]
  {
    if len > 0 {
      assert s[0] in s[..len];
      assert s[1..][..len - 1] == s[..len][1..];
      NulPrefixUnique(s[1..], len - 1);
    }
  }

  ghost function Prefixed(p: seq<byte>, r: FsResult<seq<byte>>): FsResult<seq<byte>> {
    if r.Ok? then Ok(p + r.value) else r
  }

  lemma PrefixedNil(r: FsResult<seq<byte>>)
    ensures Prefixed([], r) == r
  {
    if r.Ok? {
      assert [] + r.value == r.value;
    }
  }

  lemma ReadChainStep(v: Volume, current: u16, left: nat, p: seq<byte>)
    requires 2 <= current < FAT_ENTRIES && left > 0
    ensures var n := Min(left, CLUSTER_BYTES);
            Prefixed(p, ReadChain(v, current, left))
            == Prefixed(p + ClusterAt(v.data, current)[..n], ReadChain(v, v.fat[current], left - n))
  {
    var n := Min(left, CLUSTER_BYTES);
    var rest := ReadChain(v, v.fat[current], left - n);
    if rest.Ok? {
      assert p + (ClusterAt(v.data, current)[..n] + rest.value) == p + ClusterAt(v.data, current)[..n] + rest.value;
    }
  }

  /** The first cluster of the whole file is the one recorded in the first round. */
  ghost function WithFirst(i: nat, first: u16, r: (Volume, FsResult<u16>)): (Volume, FsResult<u16>) {
    if i > 0 && r.1.Ok? then (r.0, Ok(first)) else r
  }

  /** One unfolding of `Fill`, as the loop sees it. */
  lemma FillStep(v: Volume, rest: seq<byte>, prev: Option<nat>, i: nat, first: u16)
    requires rest != [] && (prev.Some? ==> prev.value < FAT_ENTRIES)
    ensures match LeastFree(v.fat, 2)
            case None => WithFirst(i, first, Fill(v, rest, prev)) == (v, Err(InvalidArgument))
            case Some(c) =>
              var v1, f := Attach(v, c, rest[..Min(|rest|, CLUSTER_BYTES)], prev), if i == 0 then c else first;
              WithFirst(i, first, Fill(v, rest, prev)) ==
              if |rest| <= CLUSTER_BYTES then (v1, Ok(f))
              else WithFirst(i + 1, f, Fill(v1, rest[CLUSTER_BYTES..], Some(c)))
  {
  }
}
