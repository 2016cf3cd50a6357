/**
 The KAGFAT16 on-disk format: where each structure lives on the disk and how
 it is encoded.  The disk is a flat run of bytes; sector `lba` is the 512 bytes
 starting at `512 * lba`.
 */
module KagLayout {
  import opened Bytes

  const BLOCK_SIZE := 512
  const SECTORS_PER_CLUSTER := 8
  const CLUSTER_BYTES := 4096
  const FAT_SECTORS := 64
  const FAT_START_LBA := 1
  const ROOT_DIR_SECTORS := 16
  const ROOT_DIR_START_LBA := 65
  const DATA_START_LBA := 81
  const TOTAL_SECTORS := 2_097_152
  const TOTAL_CLUSTERS := 262_133

  const FAT_ENTRIES := 16_384
  const DIR_ENTRIES := 256

  const FAT_START := 512
  const DIR_START := 33_280
  const DATA_START := 41_472
  const DISK_BYTES := 1_073_741_824

  const FREE: u16 := 0x0000
  const EOC: u16 := 0xFFFF
  const RESERVED: u16 := 0xFFF0
  const FAT_MAGIC: u64 := 0x4B41_4746_4154_3136

  type Sector = s: seq<byte> | |s| == BLOCK_SIZE witness Zeros(BLOCK_SIZE)
  type Cluster = s: seq<byte> | |s| == CLUSTER_BYTES witness Zeros(CLUSTER_BYTES)
  type DiskImage = s: seq<byte> | |s| == DISK_BYTES witness Zeros(DISK_BYTES)
  type NameField = s: seq<byte> | |s| == 22 witness Zeros(22)
  type Reserved3 = s: seq<byte> | |s| == 3 witness Zeros(3)

  // ---------------------------------------------------------------- directory entries

  datatype DirEntry = DirEntry(name: NameField, firstCluster: u16, size: u32, inUse: byte, reserved: Reserved3)

  const EMPTY_ENTRY := DirEntry(Zeros(22), 0, 0, 0, Zeros(3))

  function EncodeEntry(e: DirEntry): (s: seq<byte>)
    ensures |s| == 32
  {
    e.name + Encode16(e.firstCluster) + Encode32(e.size) + [e.inUse] + e.reserved
  }

  function DecodeEntry(s: seq<byte>): DirEntry
    requires |s| == 32
  {
    DirEntry(s[..22], Decode16(s[22..24]), Decode32(s[24..28]), s[28], s[29..])
  }

  lemma EntryRoundTrip(e: DirEntry, s: seq<byte>)
    requires |s| == 32
    ensures DecodeEntry(EncodeEntry(e)) == e
    ensures EncodeEntry(DecodeEntry(s)) == s
  {
    var t := EncodeEntry(e);
    assert t[..22] == e.name;
    assert t[22..24] == Encode16(e.firstCluster);
    assert t[24..28] == Encode32(e.size);
    assert t[29..] == e.reserved;
    RoundTrip16(e.firstCluster, s[22..24]);
    RoundTrip32(e.size, s[24..28]);
    assert s == s[..22] + s[22..24] + s[24..28] + [s[28]] + s[29..];
  }

  /** Where the fields are. */
  lemma EntryBytes(e: DirEntry)
    ensures var s := EncodeEntry(e);
            && s[..22] == e.name && e.firstCluster == s[22] as int + 0x100 * s[23] as int
            && e.size == s[24] as int + 0x100 * s[25] as int + 0x1_0000 * s[26] as int + 0x100_0000 * s[27] as int
            && s[28] == e.inUse && s[29..] == e.reserved
  {
    var s := EncodeEntry(e);
    EntryRoundTrip(e, s);
    assert s[22..24] == [s[22], s[23]] && s[24..28] == [s[24], s[25], s[26], s[27]];
    LittleEndian(s[22..24], s[24..28], Zeros(8));
  }

  // ---------------------------------------------------------------- boot sector

  datatype BootSector = BootSector(
    magic: u64, bytesPerSector: u16, sectorsPerCluster: u32, fatStartLba: u32, fatSectors: u32,
    rootDirStartLba: u32, rootDirSectors: u32, dataStartLba: u32, totalClusters: u32)

  const BOOT := BootSector(FAT_MAGIC, 512, 8, 1, 64, 65, 16, 81, TOTAL_CLUSTERS)

  /** The packed struct followed by its 474 bytes of padding. */
  function EncodeBoot(b: BootSector): Sector {
    Encode64(b.magic) + Encode16(b.bytesPerSector) + Encode32(b.sectorsPerCluster) +
    Encode32(b.fatStartLba) + Encode32(b.fatSectors) + Encode32(b.rootDirStartLba) +
    Encode32(b.rootDirSectors) + Encode32(b.dataStartLba) + Encode32(b.totalClusters) + Zeros(474)
  }

  function DecodeBoot(s: Sector): BootSector {
    BootSector(Decode64(s[..8]), Decode16(s[8..10]), Decode32(s[10..14]), Decode32(s[14..18]), Decode32(s[18..22]),
               Decode32(s[22..26]), Decode32(s[26..30]), Decode32(s[30..34]), Decode32(s[34..38]))
  }

  predicate Formatted(boot: Sector) {
    DecodeBoot(boot).magic == FAT_MAGIC
  }

  lemma BootRoundTrip(b: BootSector)
    ensures DecodeBoot(EncodeBoot(b)) == b
  {
    var s := EncodeBoot(b);
    assert s[..8] == Encode64(b.magic);
    assert s[8..10] == Encode16(b.bytesPerSector);
    assert s[10..14] == Encode32(b.sectorsPerCluster);
    assert s[14..18] == Encode32(b.fatStartLba);
    assert s[18..22] == Encode32(b.fatSectors);
    assert s[22..26] == Encode32(b.rootDirStartLba);
    assert s[26..30] == Encode32(b.rootDirSectors);
    assert s[30..34] == Encode32(b.dataStartLba);
    assert s[34..38] == Encode32(b.totalClusters);
    RoundTrip64(b.magic, s[..8]);
    RoundTrip16(b.bytesPerSector, s[8..10]);
    RoundTrip32(b.sectorsPerCluster, s[10..14]);
    RoundTrip32(b.fatStartLba, s[14..18]);
    RoundTrip32(b.fatSectors, s[18..22]);
    RoundTrip32(b.rootDirStartLba, s[22..26]);
    RoundTrip32(b.rootDirSectors, s[26..30]);
    RoundTrip32(b.dataStartLba, s[30..34]);
    RoundTrip32(b.totalClusters, s[34..38]);
  }

  // ---------------------------------------------------------------- the disk as a volume

  type Fat = f: seq<u16> | |f| == FAT_ENTRIES witness seq(FAT_ENTRIES, _ => FREE)
  type Dir = d: seq<DirEntry> | |d| == DIR_ENTRIES witness seq(DIR_ENTRIES, _ => EMPTY_ENTRY)
  type DataArea = s: seq<byte> | |s| == DISK_BYTES - DATA_START witness Zeros(DISK_BYTES - DATA_START)

  /** A disk split into its four regions, with the FAT and the directory decoded. */
  datatype Volume = Volume(boot: Sector, fat: Fat, dir: Dir, data: DataArea)

  function ClusterToLba(c: nat): (lba: nat)
    requires 2 <= c
  {
    DATA_START_LBA + (c - 2) * SECTORS_PER_CLUSTER
  }

  function FatAt(disk: DiskImage, c: nat): u16
    requires c < FAT_ENTRIES
  {
    Decode16(disk[FAT_START + 2 * c..FAT_START + 2 * c + 2])
  }

  function DirAt(disk: DiskImage, i: nat): DirEntry
    requires i < DIR_ENTRIES
  {
    DecodeEntry(disk[DIR_START + 32 * i..DIR_START + 32 * i + 32])
  }

  function View(disk: DiskImage): Volume {
    Volume(disk[..BLOCK_SIZE],
           seq(FAT_ENTRIES, c requires 0 <= c < FAT_ENTRIES => FatAt(disk, c)),
           seq(DIR_ENTRIES, i requires 0 <= i < DIR_ENTRIES => DirAt(disk, i)),
           disk[DATA_START..])
  }

  /** Overwrite `|s|` bytes starting at `at`. */
  function Splice(disk: seq<byte>, at: nat, s: seq<byte>): (r: seq<byte>)
    requires at + |s| <= |disk|
    ensures |r| == |disk|
    ensures r[at..at + |s|] == s
    ensures forall k | 0 <= k < |disk| && !(at <= k < at + |s|) :: r[k] == disk[k]
  {
    disk[..at] + s + disk[at + |s|..]
  }

  /** Cluster 2 is the first of the data area; each takes 4096 bytes. */
  lemma ClusterPlace(c: nat)
    requires 2 <= c < 0x1_0000
    ensures 512 * ClusterToLba(c) == 41_472 + 4096 * (c - 2)
  {
  }

  /** No two regions of the disk overlap and the last one ends inside it. */
  lemma RegionsAreDisjoint(c: nat)
    requires 2 <= c < FAT_ENTRIES
    ensures FAT_START == BLOCK_SIZE * FAT_START_LBA == BLOCK_SIZE
    ensures DIR_START == BLOCK_SIZE * ROOT_DIR_START_LBA == FAT_START + 2 * FAT_ENTRIES
    ensures DATA_START == BLOCK_SIZE * DATA_START_LBA == DIR_START + 32 * DIR_ENTRIES
    ensures DATA_START <= BLOCK_SIZE * ClusterToLba(c)
    ensures ClusterToLba(c) + SECTORS_PER_CLUSTER <= TOTAL_SECTORS
  {
  }

  /** The view loses nothing: volumes that look the same are the same bytes. */
  lemma ViewIsInjective(d: DiskImage, e: DiskImage)
    requires View(d) == View(e)
    ensures d == e
  {
    forall k | 0 <= k < DISK_BYTES
      ensures d[k] == e[k]
    {
      if k < FAT_START {
        assert d[..BLOCK_SIZE][k] == e[..BLOCK_SIZE][k];
      } else if k < DIR_START {
        FatBytesAgree(d, e, (k - FAT_START) / 2);
      } else if k < DATA_START {
        DirBytesAgree(d, e, (k - DIR_START) / 32);
      } else {
        assert d[DATA_START..][k - DATA_START] == e[DATA_START..][k - DATA_START];
      }
    }
  }

  lemma FatBytesAgree(d: DiskImage, e: DiskImage, c: nat)
    requires c < FAT_ENTRIES && View(d).fat == View(e).fat
    ensures forall k | FAT_START + 2 * c <= k < FAT_START + 2 * c + 2 :: d[k] == e[k]
  {
    var lo := FAT_START + 2 * c;
    assert View(d).fat[c] == FatAt(d, c) && View(e).fat[c] == FatAt(e, c);
    RoundTrip16(0, d[lo..lo + 2]);
    RoundTrip16(0, e[lo..lo + 2]);
    assert forall k | lo <= k < lo + 2 :: d[k] == d[lo..lo + 2][k - lo] && e[k] == e[lo..lo + 2][k - lo];
  }

  lemma DirBytesAgree(d: DiskImage, e: DiskImage, i: nat)
    requires i < DIR_ENTRIES && View(d).dir == View(e).dir
    ensures forall k | DIR_START + 32 * i <= k < DIR_START + 32 * i + 32 :: d[k] == e[k]
  {
    var lo := DIR_START + 32 * i;
    assert View(d).dir[i] == DirAt(d, i) && View(e).dir[i] == DirAt(e, i);
    EntryRoundTrip(EMPTY_ENTRY, d[lo..lo + 32]);
    EntryRoundTrip(EMPTY_ENTRY, e[lo..lo + 32]);
    assert forall k | lo <= k < lo + 32 :: d[k] == d[lo..lo + 32][k - lo] && e[k] == e[lo..lo + 32][k - lo];
  }

  // ---------------------------------------------------------------- writes seen through the view

  lemma FatWriteInView(disk: DiskImage, c: nat, v: u16)
    requires c < FAT_ENTRIES
    ensures View(Splice(disk, FAT_START + 2 * c, Encode16(v))) == View(disk).(fat := View(disk).fat[c := v])
  {
    var lo := FAT_START + 2 * c;
    var d' := Splice(disk, lo, Encode16(v));
    RoundTrip16(v, Zeros(2));
    SameRegions(disk, d', lo, lo + 2);
    assert View(d').fat == View(disk).fat[c := v];
  }

  lemma DirWriteInView(disk: DiskImage, i: nat, e: DirEntry)
    requires i < DIR_ENTRIES
    ensures View(Splice(disk, DIR_START + 32 * i, EncodeEntry(e))) == View(disk).(dir := View(disk).dir[i := e])
  {
    var lo := DIR_START + 32 * i;
    var d' := Splice(disk, lo, EncodeEntry(e));
    EntryRoundTrip(e, Zeros(32));
    SameRegions(disk, d', lo, lo + 32);
    assert View(d').dir == View(disk).dir[i := e];
  }

  lemma DataWriteInView(disk: DiskImage, at: nat, s: seq<byte>)
    requires DATA_START <= at && at + |s| <= DISK_BYTES
    ensures View(Splice(disk, at, s)) == View(disk).(data := Splice(View(disk).data, at - DATA_START, s))
  {
    var d' := Splice(disk, at, s);
    SameRegions(disk, d', at, at + |s|);
    assert d'[DATA_START..] == Splice(disk[DATA_START..], at - DATA_START, s);
  }

  lemma BootWriteInView(disk: DiskImage, s: Sector)
    ensures View(Splice(disk, 0, s)) == View(disk).(boot := s)
  {
    var d' := Splice(disk, 0, s);
    SameRegions(disk, d', 0, BLOCK_SIZE);
    assert d'[..BLOCK_SIZE] == s;
  }

  /** Regions that a change to bytes `lo..hi` does not touch look the same afterwards. */
  lemma SameRegions(d: DiskImage, e: DiskImage, lo: nat, hi: nat)
    requires forall k | 0 <= k < DISK_BYTES && !(lo <= k < hi) :: d[k] == e[k]
    ensures FAT_START <= lo ==> View(d).boot == View(e).boot
    ensures hi <= DATA_START ==> View(d).data == View(e).data
    ensures forall c | 0 <= c < FAT_ENTRIES && (FAT_START + 2 * c + 2 <= lo || hi <= FAT_START + 2 * c) ::
              View(d).fat[c] == View(e).fat[c]
    ensures forall i | 0 <= i < DIR_ENTRIES && (DIR_START + 32 * i + 32 <= lo || hi <= DIR_START + 32 * i) ::
              View(d).dir[i] == View(e).dir[i]
    ensures hi <= FAT_START || DIR_START <= lo ==> View(d).fat == View(e).fat
    ensures hi <= DIR_START || DATA_START <= lo ==> View(d).dir == View(e).dir
  {
    forall c | 0 <= c < FAT_ENTRIES && (FAT_START + 2 * c + 2 <= lo || hi <= FAT_START + 2 * c)
      ensures View(d).fat[c] == View(e).fat[c]
    {
      assert d[FAT_START + 2 * c..FAT_START + 2 * c + 2] == e[FAT_START + 2 * c..FAT_START + 2 * c + 2];
      assert FatAt(d, c) == FatAt(e, c);
    }
    forall i | 0 <= i < DIR_ENTRIES && (DIR_START + 32 * i + 32 <= lo || hi <= DIR_START + 32 * i)
      ensures View(d).dir[i] == View(e).dir[i]
    {
      assert d[DIR_START + 32 * i..DIR_START + 32 * i + 32] == e[DIR_START + 32 * i..DIR_START + 32 * i + 32];
      assert DirAt(d, i) == DirAt(e, i);
    }
  }
}
