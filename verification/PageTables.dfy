/**
 Four-level page tables in physical memory (section 4.5 of the Intel SDM, volume
 3A).  Physical memory is a map from frame address to the 4096 bytes of the frame; a
 table is a frame read as 512 little-endian words.
 */
module PageTables {
  import opened Bytes

  type Page = s: seq<byte> | |s| == 4096 witness Zeros(4096)
  type Memory = map<nat, Page>

  const WRITABLE: u64 := 2

  /** Physical addresses and table targets are below 2^52. */
  const PHYS_LIMIT := 0x10_0000_0000_0000

  // ---------------------------------------------------------------- words of a frame

  function Entry(p: Page, i: nat): u64
    requires i < 512
  {
    Decode64(p[8 * i..8 * i + 8])
  }

  function WithEntry(p: Page, i: nat, e: u64): Page
    requires i < 512
  {
    p[..8 * i] + Encode64(e) + p[8 * i + 8..]
  }

  const ZERO_PAGE: Page := Zeros(4096)

  lemma EntryWritten(p: Page, i: nat, e: u64, j: nat)
    requires i < 512 && j < 512
    ensures Entry(WithEntry(p, i, e), j) == if i == j then e else Entry(p, j)
  {
    var q := WithEntry(p, i, e);
    if i == j {
      assert q[8 * i..8 * i + 8] == Encode64(e);
      RoundTrip64(e, Zeros(8));
    } else {
      assert q[8 * j..8 * j + 8] == p[8 * j..8 * j + 8];
    }
  }

  lemma ZeroEntry(j: nat)
    requires j < 512
    ensures Entry(ZERO_PAGE, j) == 0
  {
    var s := ZERO_PAGE[8 * j..8 * j + 8];
    assert s == Encode64(0);
    RoundTrip64(0, s);
  }

  // ---------------------------------------------------------------- entry formats

  /** `e & PAGE_PRESENT != 0`. */
  predicate IsPresent(e: u64) {
    e % 2 == 1
  }

  /** Bit 1 of an entry: writes are allowed below it. */
  predicate Writable(e: u64) {
    e / 2 % 2 == 1
  }

  /** Bit 2: user code is allowed below it. */
  predicate ForUser(e: u64) {
    e / 4 % 2 == 1
  }

  /** Bit 63 clear: code may be fetched below it. */
  predicate Executable(e: u64) {
    e < 0x8000_0000_0000_0000
  }

  /** `e & !0xFFF`. */
  function Target(e: u64): nat {
    e - e % 4096
  }

  predicate FrameAddress(f: nat) {
    f % 4096 == 0 && f < PHYS_LIMIT
  }

  /** Attribute bits: the low twelve, and no-execute at the top. */
  const NO_EXECUTE: u64 := 0x8000_0000_0000_0000

  predicate FlagsOk(flags: u64) {
    flags < 4096 || NO_EXECUTE <= flags < NO_EXECUTE + 4096
  }

  /** `frame | PAGE_PRESENT | PAGE_WRITABLE | PAGE_USER`. */
  function TableEntry(frame: nat): u64
    requires FrameAddress(frame)
  {
    frame + 7
  }

  /** `phys | flags | PAGE_PRESENT`. */
  function LeafEntry(phys: nat, flags: u64): u64
    requires FrameAddress(phys) && FlagsOk(flags)
  {
    phys + flags + (1 - flags % 2)
  }

  /** The page a leaf maps to. */
  function LeafAddress(e: u64): nat {
    if e >= NO_EXECUTE then Target(e - NO_EXECUTE) else Target(e)
  }

  /** Frame addresses and attribute bits do not overlap, so or-ing them loses neither. */
  lemma LeafFields(phys: nat, flags: u64)
    requires FrameAddress(phys) && FlagsOk(flags)
    ensures IsPresent(LeafEntry(phys, flags))
    ensures LeafAddress(LeafEntry(phys, flags)) == phys
    ensures LeafEntry(phys, flags) - phys == if flags % 2 == 1 then flags else flags + 1
  {
    var e, a, top := LeafEntry(phys, flags), phys / 4096, if flags >= NO_EXECUTE then NO_EXECUTE else 0;
    var bits := flags - top + (1 - flags % 2);
    DivModUnique(e - top, 4096, a, bits);
    DivModUnique(e, 2, 2048 * a + top / 2 + bits / 2, 1);
  }

  /** The rights in a leaf are those in the flags. */
  lemma LeafBits(phys: nat, flags: u64)
    requires FrameAddress(phys) && FlagsOk(flags)
    ensures Writable(LeafEntry(phys, flags)) <==> Writable(flags)
    ensures ForUser(LeafEntry(phys, flags)) <==> ForUser(flags)
    ensures Executable(LeafEntry(phys, flags)) <==> Executable(flags)
  {
    var e, a, h, q := LeafEntry(phys, flags), phys / 4096, flags / 2, flags / 4;
    assert phys == 4096 * a && flags == 4 * q + flags % 4 && h == 2 * q + h % 2 && flags == 2 * h + flags % 2;
    DivModUnique(e, 2, 2048 * a + h, 1);
    DivModUnique(e, 4, 1024 * a + q, 2 * (h % 2) + 1);
    DivModUnique(2048 * a + h, 2, 1024 * a + q, h % 2);
    DivModUnique(1024 * a + q, 2, 512 * a + q / 2, q % 2);
  }

  lemma TableEntryBits(a: nat)
    ensures (4096 * a + 7) / 2 % 2 == 1 && (4096 * a + 7) / 4 % 2 == 1
  {
    DivModUnique(4096 * a + 7, 2, 2048 * a + 3, 1);
    DivModUnique(2048 * a + 3, 2, 1024 * a + 1, 1);
    DivModUnique(4096 * a + 7, 4, 1024 * a + 1, 3);
    DivModUnique(1024 * a + 1, 2, 512 * a, 1);
  }

  lemma TableEntryFields(frame: nat)
    requires FrameAddress(frame)
    ensures IsPresent(TableEntry(frame)) && Target(TableEntry(frame)) == frame
    ensures Writable(TableEntry(frame)) && ForUser(TableEntry(frame)) && Executable(TableEntry(frame))
  {
    var a := frame / 4096;
    TableEntryBits(a);
    DivModUnique(frame + 7, 4096, a, 7);
    DivModUnique(frame + 7, 2, 2048 * a + 3, 1);
  }

  // ---------------------------------------------------------------- virtual addresses

  function Index(v: nat, level: nat): (i: nat)
    requires 1 <= level <= 4
    ensures i < 512
  {
    match level
    case 1 => v / 0x1000 % 512
    case 2 => v / 0x20_0000 % 512
    case 3 => v / 0x4000_0000 % 512
    case 4 => v / 0x80_0000_0000 % 512
  }

  /** Virtual addresses below this are their own page addresses. */
  const LOW_LIMIT := 0x1_0000_0000_0000

  /** The page a virtual address lies in; bits 48 and up do not take part in the walk. */
  function PageOf(v: nat): (p: nat)
    ensures FrameAddress(p) && p < LOW_LIMIT
  {
    var n := v / 0x1000 % 0x10_0000_0000;
    DivModUnique(n * 0x1000, 0x1000, n, 0);
    n * 0x1000
  }

  lemma PageOfAligned(a: nat)
    requires a % 0x1000 == 0 && a < LOW_LIMIT
    ensures PageOf(a) == a
  {
    DivModUnique(a / 0x1000, 0x10_0000_0000, 0, a / 0x1000);
  }

  /** A page is its four indices. */
  lemma PageFromIndices(v: nat)
    ensures PageOf(v) == 0x1000 * (Index(v, 1) + 0x200 * (Index(v, 2) + 0x200 * (Index(v, 3) + 0x200 * Index(v, 4))))
  {
    var q1, r := v / 0x1000, v % 0x1000;
    var q2, i1 := q1 / 0x200, q1 % 0x200;
    var q3, i2 := q2 / 0x200, q2 % 0x200;
    var q4, i3 := q3 / 0x200, q3 % 0x200;
    var q5, i4 := q4 / 0x200, q4 % 0x200;
    DivModUnique(v, 0x20_0000, q2, i1 * 0x1000 + r);
    DivModUnique(v, 0x4000_0000, q3, (i2 * 0x200 + i1) * 0x1000 + r);
    DivModUnique(v, 0x80_0000_0000, q4, ((i3 * 0x200 + i2) * 0x200 + i1) * 0x1000 + r);
    DivModUnique(q1, 0x10_0000_0000, q5, ((i4 * 0x200 + i3) * 0x200 + i2) * 0x200 + i1);
  }

  lemma SamePageIffSameIndices(v: nat, w: nat)
    ensures PageOf(v) == PageOf(w) <==>
              Index(v, 1) == Index(w, 1) && Index(v, 2) == Index(w, 2)
                && Index(v, 3) == Index(w, 3) && Index(v, 4) == Index(w, 4)
  {
    PageFromIndices(v);
    PageFromIndices(w);
    hide PageOf, Index;
  }
}
