/**
 The segregated allocator: size-class cells carved from a bump arena or from slabs,
 and large allocations on the boundary-tag list.  This module says what each
 operation does to the heap and proves that what is handed out never overlaps.
 */
module HeapModel {
  import opened Bytes
  import opened LargeList

  const NUM_BUCKETS := 10
  const SLAB_COUNT := 32
  const WORD := 8
  const BUCKET_SIZES: seq<nat> := [8, 16, 32, 64, 128, 256, 512, 1024, 2048, 4096]

  type Bucket = k: int | 0 <= k < NUM_BUCKETS witness 0

  function ClassSize(k: Bucket): (n: nat)
    ensures 8 <= n <= 4096 && n % 8 == 0
  {
    BUCKET_SIZES[k]
  }

  /** A cell: one header word and the class's payload. */
  function CellSize(k: Bucket): (n: nat)
    ensures 16 <= n && n % 8 == 0
  {
    WORD + ClassSize(k)
  }

  /** The smallest class that fits. */
  function BucketFor(size: nat): (r: Option<Bucket>)
    ensures r.Some? <==> size <= 4096
    ensures r.Some? ==> size <= ClassSize(r.value) && forall j: Bucket | j < r.value :: ClassSize(j) < size
  {
    if size <= 8 then Some(0) else if size <= 16 then Some(1) else if size <= 32 then Some(2)
    else if size <= 64 then Some(3) else if size <= 128 then Some(4) else if size <= 256 then Some(5)
    else if size <= 512 then Some(6) else if size <= 1024 then Some(7) else if size <= 2048 then Some(8)
    else if size <= 4096 then Some(9) else None
  }

  type Lists = s: seq<seq<nat>> | |s| == NUM_BUCKETS witness seq(NUM_BUCKETS, _ => [])

  datatype Live = Small(bucket: Bucket, size: nat) | Large(block: nat, blockSize: nat, size: nat, align: nat)

  /**
   `lists[k]` are the free cells of class k, first to be reused first.  `cells` are all
   cells ever carved, `slabs` the large blocks that were cut into cells, `live` what
   callers hold, by payload address.  The large region starts where the arena ends.
   */
  datatype Heap = Heap(
    arenaStart: nat, arenaPtr: nat, arenaEnd: nat, blocks: seq<Block>, lists: Lists,
    cells: map<nat, Bucket>, slabs: map<nat, nat>, live: map<nat, Live>)

  // ---------------------------------------------------------------- invariant

  ghost predicate BlocksOk(h: Heap) {
    && h.arenaStart <= h.arenaPtr <= h.arenaEnd && (h.blocks != [] ==> h.arenaEnd % 8 == 0)
    && NoFreeNeighbours(h.blocks) && SizesAligned(h.blocks)
    && forall b | b in h.slabs :: IsUsed(h.arenaEnd, h.blocks, b, h.slabs[b])
  }

  ghost predicate Inside(h: Heap, b: nat, a: nat, n: nat) {
    b in h.slabs && b + HEADER <= a && a + n <= b + HEADER + h.slabs[b]
  }

  ghost predicate Placed(h: Heap, a: nat, n: nat) {
    || (h.arenaStart <= a && a + n <= h.arenaPtr)
    || exists b :: Inside(h, b, a, n)
  }

  predicate Before(a: nat, n: nat, b: nat, m: nat) {
    a + n <= b || b + m <= a
  }

  ghost predicate CellsOk(h: Heap) {
    && (forall a | a in h.cells :: a % 8 == 0 && Placed(h, a, CellSize(h.cells[a])))
    && (forall a, b | a in h.cells && b in h.cells && a != b ::
          Before(a, CellSize(h.cells[a]), b, CellSize(h.cells[b])))
  }

  ghost predicate IsFreeCell(h: Heap, a: nat, k: Bucket) {
    a in h.cells && h.cells[a] == k && a + WORD !in h.live
  }

  /** Free lists hold only free cells of their class, each once. */
  ghost predicate ListsOk(h: Heap) {
    && (forall k: Bucket, i | 0 <= i < |h.lists[k]| :: IsFreeCell(h, h.lists[k][i], k))
    && (forall k: Bucket, i, j | 0 <= i < j < |h.lists[k]| :: h.lists[k][i] != h.lists[k][j])
  }

  ghost predicate SmallOk(h: Heap, p: nat, k: Bucket, size: nat) {
    p >= WORD && p - WORD in h.cells && h.cells[p - WORD] == k && size <= ClassSize(k)
  }

  predicate AlignedTo(p: nat, align: nat) {
    align > 0 && p % align == 0
  }

  ghost predicate LargeOk(h: Heap, p: nat, x: Live)
    requires x.Large?
  {
    && IsUsed(h.arenaEnd, h.blocks, x.block, x.blockSize) && x.block !in h.slabs
    && x.block + HEADER + 2 * WORD <= p && p + x.size <= x.block + HEADER + x.blockSize
    && AlignedTo(p, x.align) && p % 8 == 0
  }

  ghost predicate AllocOk(h: Heap, p: nat, x: Live) {
    if x.Small? then SmallOk(h, p, x.bucket, x.size) else LargeOk(h, p, x)
  }

  ghost predicate LiveOk(h: Heap) {
    && (forall p | p in h.live :: AllocOk(h, p, h.live[p]))
    && (forall p, q | p in h.live && q in h.live && h.live[p].Large? && h.live[q].Large? ::
          h.live[p].block == h.live[q].block ==> p == q)
  }

  /** Nothing is mislaid: a cell that is not live is on its free list. */
  ghost predicate NoCellLost(h: Heap) {
    forall a | a in h.cells :: (a + WORD in h.live && h.live[a + WORD].Small?) || a in h.lists[h.cells[a]]
  }

  ghost predicate HeapOk(h: Heap) {
    BlocksOk(h) && CellsOk(h) && ListsOk(h) && LiveOk(h) && NoCellLost(h)
  }

  // ---------------------------------------------------------------- what the invariant means

  /** Everything an allocation occupies: its header, padding and prefix as well as its payload. */
  ghost function Foot(h: Heap, p: nat): (nat, nat)
    requires p in h.live && (h.live[p].Small? ==> p >= WORD)
  {
    match h.live[p]
    case Small(k, _) => (p - WORD, CellSize(k))
    case Large(b, n, _, _) => (b, HEADER + n)
  }

  /** Bytes from the payload address to the end of what was allocated. */
  ghost function Capacity(h: Heap, p: nat): int
    requires p in h.live
  {
    match h.live[p]
    case Small(k, _) => ClassSize(k)
    case Large(b, n, _, _) => b + HEADER + n - p
  }

  lemma PlacedCellMeetsBlock(h: Heap, a: nat, n: nat, b: nat, m: nat)
    requires BlocksOk(h) && Placed(h, a, n) && IsUsed(h.arenaEnd, h.blocks, b, m) && b !in h.slabs
    ensures Before(a, n, b, HEADER + m)
  {
    UsedApart(h.arenaEnd, h.blocks, b, m, b, m);
    if c :| Inside(h, c, a, n) {
      UsedApart(h.arenaEnd, h.blocks, c, h.slabs[c], b, m);
    }
  }

  /**
   Main safety theorem: what two callers hold never overlaps, headers and prefixes
   included; it lies inside the heap, has the requested size and alignment.
   */
  lemma LiveApart(h: Heap, p: nat, q: nat)
    requires HeapOk(h) && p in h.live && q in h.live && p != q
    ensures h.live[p].Small? ==> p >= WORD
    ensures h.live[q].Small? ==> q >= WORD
    ensures Before(Foot(h, p).0, Foot(h, p).1, Foot(h, q).0, Foot(h, q).1)
  {
    hide BlocksOk, ListsOk, NoCellLost, IsUsed, Placed, AlignedTo, ClassSize;
    var x, y := h.live[p], h.live[q];
    assert AllocOk(h, p, x) && AllocOk(h, q, y);
    match (x, y) {
      case (Small(_, _), Small(_, _)) =>
      case (Small(_, _), Large(_, _, _, _)) =>
        PlacedCellMeetsBlock(h, p - WORD, CellSize(x.bucket), y.block, y.blockSize);
      case (Large(_, _, _, _), Small(_, _)) =>
        PlacedCellMeetsBlock(h, q - WORD, CellSize(y.bucket), x.block, x.blockSize);
      case (Large(_, _, _, _), Large(_, _, _, _)) =>
        UsedApart(h.arenaEnd, h.blocks, x.block, x.blockSize, y.block, y.blockSize);
    }
  }

  // ---------------------------------------------------------------- operations

  /** Alignments a layout can have: the powers of two, of which all from 8 up are multiples of 8. */
  predicate AlignOk(align: nat) {
    align == 1 || align == 2 || align == 4 || (align > 0 && align % 8 == 0)
  }

  /** The first address from `x` on that is a multiple of `align`. */
  function AlignUp(x: nat, align: nat): (r: nat)
    requires align > 0
    ensures x <= r < x + align && AlignedTo(r, align)
  {
    var rem := x % align;
    if rem == 0 then x
    else
      MultipleAbove(x, align);
      x + (align - rem)
  }

  lemma MultipleAbove(x: nat, align: nat)
    requires align > 0
    ensures (x + (align - x % align)) % align == 0
  {
    var q := x / align + 1;
    assert x + (align - x % align) == q * align;
    DivModUnique(q * align, align, q, 0);
  }

  lemma MultipleOfMultiple(r: nat, align: nat)
    requires align > 0 && align % 8 == 0 && r % align == 0
    ensures r % 8 == 0
  {
    var m, c := r / align, align / 8;
    assert r == m * align && align == c * 8;
    var q := m * c;
    assert m * (c * 8) == q * 8;
    assert r == q * 8;
  }

  lemma SmallPowersDivide(x: nat)
    requires x % 8 == 0
    ensures x % 1 == 0 && x % 2 == 0 && x % 4 == 0
  {
    var q := x / 8;
    assert x == 2 * (4 * q) && x == 4 * (2 * q);
  }

  /** Payloads on the large path are word-aligned whatever the alignment asked for. */
  lemma AlignUpIsWordAligned(x: nat, align: nat)
    requires x % 8 == 0 && AlignOk(align)
    ensures AlignUp(x, align) % 8 == 0
  {
    if align % 8 == 0 {
      assert AlignedTo(AlignUp(x, align), align);
      hide AlignUp;
      MultipleOfMultiple(AlignUp(x, align), align);
    } else {
      SmallPowersDivide(x);
    }
  }

  function SlabCell(b: nat, k: Bucket, j: nat): nat {
    b + HEADER + j * CellSize(k)
  }

  /** Free cells of a new slab, in the order the carving loop pushes them: the last one first. */
  function SlabList(b: nat, k: Bucket, n: nat): seq<nat> {
    if n <= 1 then [] else [SlabCell(b, k, n - 1)] + SlabList(b, k, n - 1)
  }

  ghost function SlabSet(b: nat, k: Bucket, n: nat): set<nat> {
    set j: nat | j < n :: SlabCell(b, k, j)
  }

  /** Hand out the cell at `a`. */
  function HandOut(h: Heap, a: nat, k: Bucket, size: nat): Heap {
    h.(live := h.live[a + WORD := Small(k, size)])
  }

  ghost function Pop(h: Heap, k: Bucket, size: nat): Heap
    requires h.lists[k] != []
  {
    HandOut(h.(lists := h.lists[k := h.lists[k][1..]]), h.lists[k][0], k, size)
  }

  ghost function Carve(h: Heap, k: Bucket, size: nat): Heap {
    var a := RoundUp8(h.arenaPtr);
    HandOut(h.(arenaPtr := a + CellSize(k), cells := h.cells[a := k]), a, k, size)
  }

  /** Cut block `i` into 32 cells, keep the first, put the others on the list. */
  ghost function CutSlab(h: Heap, i: nat, k: Bucket, size: nat): Heap
    requires i < |h.blocks| && h.blocks[i].size >= SLAB_COUNT * CellSize(k)
  {
    var b := Addr(h.arenaEnd, h.blocks, i);
    var blocks' := Take(h.blocks, i, SLAB_COUNT * CellSize(k));
    var added := SlabSet(b, k, SLAB_COUNT);
    HandOut(h.(blocks := blocks', slabs := h.slabs[b := blocks'[i].size],
               cells := map a | a in h.cells.Keys + added :: if a in added then k else h.cells[a],
               lists := h.lists[k := SlabList(b, k, SLAB_COUNT) + h.lists[k]]),
            SlabCell(b, k, 0), k, size)
  }

  ghost function AllocSmall(h: Heap, k: Bucket, size: nat): (Heap, Option<nat>) {
    if h.lists[k] != [] then (Pop(h, k, size), Some(h.lists[k][0] + WORD))
    else if RoundUp8(h.arenaPtr) + CellSize(k) <= h.arenaEnd then
      (Carve(h, k, size), Some(RoundUp8(h.arenaPtr) + WORD))
    else
      var i := FirstFit(h.blocks, SLAB_COUNT * CellSize(k), 0);
      if i.None? then (h, None)
      else (CutSlab(h, i.value, k, size), Some(SlabCell(Addr(h.arenaEnd, h.blocks, i.value), k, 0) + WORD))
  }

  function LargeNeed(size: nat, align: nat): nat {
    RoundUp8(size + align + 2 * WORD)
  }

  function LargePayload(b: nat, align: nat): nat
    requires align > 0
  {
    AlignUp(b + HEADER + 2 * WORD, align)
  }

  ghost function PlaceLarge(h: Heap, i: nat, size: nat, align: nat): Heap
    requires i < |h.blocks| && align > 0 && h.blocks[i].size >= LargeNeed(size, align)
  {
    var b := Addr(h.arenaEnd, h.blocks, i);
    var blocks' := Take(h.blocks, i, LargeNeed(size, align));
    h.(blocks := blocks', live := h.live[LargePayload(b, align) := Large(b, blocks'[i].size, size, align)])
  }

  ghost function AllocLarge(h: Heap, size: nat, align: nat): (Heap, Option<nat>)
    requires align > 0
  {
    var i := FirstFit(h.blocks, LargeNeed(size, align), 0);
    if i.None? then (h, None)
    else (PlaceLarge(h, i.value, size, align), Some(LargePayload(Addr(h.arenaEnd, h.blocks, i.value), align)))
  }

  ghost function Alloc(h: Heap, size: nat, align: nat): (Heap, Option<nat>)
    requires align > 0
  {
    if align <= WORD && BucketFor(size).Some? then AllocSmall(h, BucketFor(size).value, size)
    else AllocLarge(h, size, align)
  }

  /** Where the block with its header at `a` stands in the list. */
  ghost function IndexOf(start: nat, bs: seq<Block>, a: nat, size: nat): (i: nat)
    requires IsUsed(start, bs, a, size)
    ensures UsedAt(start, bs, i, a, size)
  {
    var i: nat :| UsedAt(start, bs, i, a, size);
    i
  }

  /** Return a payload: cells go to the front of their list, blocks are released and coalesced. */
  ghost function Dealloc(h: Heap, p: nat): Heap
    requires p in h.live && AllocOk(h, p, h.live[p])
  {
    match h.live[p]
    case Small(k, _) => h.(lists := h.lists[k := [p - WORD] + h.lists[k]], live := h.live - {p})
    case Large(b, n, _, _) =>
      h.(blocks := Release(h.blocks, IndexOf(h.arenaEnd, h.blocks, b, n)), live := h.live - {p})
  }
}
