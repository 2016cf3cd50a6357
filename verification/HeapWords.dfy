/**
 The allocator's whole state: the words in memory, the heads of the free lists, and the
 heap they stand for.  Each operation is given by the words it writes; over every run, with
 callers storing what they like into what they hold, the words keep standing for a heap in
 which nothing overlaps, and no caller's data is changed by anybody else.
 */
module HeapWords {
  import opened Bytes
  import opened LargeList
  import opened HeapMemory
  import opened HeapModel
  import opened HeapSafety
  import opened HeapImage

  // ---------------------------------------------------------------- what the block code does to memory

  function TakeWords(m: Memory, a: nat, n: nat): Memory {
    (if Load(m, a) >= n + HEADER + 16 then SplitWords(m, a, n) else m)[a + 24 := 0]
  }

  function MergeIfFree(m: Memory, other: nat, a: nat, b: nat): Memory {
    if other != NULL && Load(m, other + 24) != 0 then MergeWords(m, a, b) else m
  }

  function ReleaseWords(m: Memory, a: nat): Memory {
    if Load(m, a + 24) != 0 then m
    else
      var m1 := m[a + 24 := 1];
      var m2 := MergeIfFree(m1, Load(m1, a + 8), a, Load(m1, a + 8));
      MergeIfFree(m2, Load(m2, a + 16), Load(m2, a + 16), a)
  }

  /** Taking a block in memory is taking it in the list. */
  lemma TakeLinks(m: Memory, start: nat, bs: seq<Block>, i: nat, n: nat)
    requires Linked(m, start, bs) && i < |bs| && bs[i].size >= n
    ensures Linked(TakeWords(m, Addr(start, bs, i), n), start, Take(bs, i, n))
    ensures OnlyHeaders(m, TakeWords(m, Addr(start, bs, i), n), start, Take(bs, i, n))
  {
    LinkedHere(m, start, bs, i);
    assert Load(m, Addr(start, bs, i)) == bs[i].size;
    hide Addr, Linked, HeaderWord, SplitWords, OnlyHeaders;
    if Splits(bs[i], n) {
      SplitLinks(m, start, bs, i, n);
    } else {
      SetFreeLinks(m, start, bs, i, false);
      var cs := bs[i := bs[i].(free := false)];
      SameHeaders(m, m[Addr(start, bs, i) + 24 := 0], start, bs, i, false);
    }
  }

  lemma SetFreeHeaders(start: nat, bs: seq<Block>, i: nat, free: bool, x: nat)
    requires i < |bs|
    ensures HeaderWord(start, bs[i := bs[i].(free := free)], x) <==> HeaderWord(start, bs, x)
  {
    var cs := bs[i := bs[i].(free := free)];
    hide Addr;
    if k: nat :| InHeader(start, bs, k, x) {
      SetFreeAddr(start, bs, i, free, k);
      assert InHeader(start, cs, k, x);
    }
    if k: nat :| InHeader(start, cs, k, x) {
      SetFreeAddr(start, bs, i, free, k);
      assert InHeader(start, bs, k, x);
    }
  }

  lemma SameHeaders(m: Memory, m': Memory, start: nat, bs: seq<Block>, i: nat, free: bool)
    requires i < |bs|
    ensures OnlyHeaders(m, m', start, bs[i := bs[i].(free := free)]) <==> OnlyHeaders(m, m', start, bs)
  {
    hide HeaderWord;
    forall x: nat
      ensures HeaderWord(start, bs[i := bs[i].(free := free)], x) <==> HeaderWord(start, bs, x)
    {
      SetFreeHeaders(start, bs, i, free, x);
    }
  }

  lemma HeadersCompose(m: Memory, m1: Memory, m2: Memory, start: nat, bs: seq<Block>, cs: seq<Block>)
    requires OnlyHeaders(m, m1, start, bs) && OnlyHeaders(m1, m2, start, cs)
    requires forall x: nat | HeaderWord(start, cs, x) :: HeaderWord(start, bs, x)
    ensures OnlyHeaders(m, m2, start, bs)
  {
    hide HeaderWord;
  }

  lemma NextWord(m: Memory, start: nat, bs: seq<Block>, i: nat)
    requires Linked(m, start, bs) && i < |bs|
    ensures var next := Load(m, Addr(start, bs, i) + 8);
            if i + 1 < |bs| then
              next != NULL && next == Addr(start, bs, i + 1) && (Load(m, next + 24) != 0 <==> bs[i + 1].free)
            else next == NULL
  {
    hide Addr;
    LinkedHere(m, start, bs, i);
    NextIsSome(start, bs, i);
    if i + 1 < |bs| {
      LinkedHere(m, start, bs, i + 1);
    }
  }

  lemma PrevWord(m: Memory, start: nat, bs: seq<Block>, i: nat)
    requires Linked(m, start, bs) && i < |bs|
    ensures var prev := Load(m, Addr(start, bs, i) + 16);
            if i > 0 then
              prev != NULL && prev == Addr(start, bs, i - 1) && (Load(m, prev + 24) != 0 <==> bs[i - 1].free)
            else prev == NULL
  {
    hide Addr;
    LinkedHere(m, start, bs, i);
    if i > 0 {
      LinkedHere(m, start, bs, i - 1);
      AddrOrder(start, bs, i - 1, i);
    }
  }

  /** One coalescing step in memory is the same step in the list. */
  lemma MergeNextLinks(m: Memory, start: nat, bs: seq<Block>, i: nat)
    requires Linked(m, start, bs) && i < |bs| && bs[i].free
    ensures var a := Addr(start, bs, i); var m' := MergeIfFree(m, Load(m, a + 8), a, Load(m, a + 8));
            Linked(m', start, MergeNext(bs, i)) && OnlyHeaders(m, m', start, bs)
  {
    hide Addr, Merge, MergeWords, HeaderWord, Linked;
    NextWord(m, start, bs, i);
    if i + 1 < |bs| && bs[i + 1].free {
      MergeLinks(m, start, bs, i);
    }
  }

  lemma MergePrevLinks(m: Memory, start: nat, bs: seq<Block>, i: nat)
    requires Linked(m, start, bs) && i < |bs|
    ensures var a := Addr(start, bs, i); var m' := MergeIfFree(m, Load(m, a + 16), Load(m, a + 16), a);
            && Linked(m', start, if i > 0 && bs[i - 1].free then Merge(bs, i - 1) else bs)
            && OnlyHeaders(m, m', start, bs)
  {
    hide Addr, Merge, MergeWords, HeaderWord, Linked;
    PrevWord(m, start, bs, i);
    if i > 0 && bs[i - 1].free {
      MergeLinks(m, start, bs, i - 1);
    }
  }

  lemma MergeNextAddr(start: nat, bs: seq<Block>, i: nat)
    requires i < |bs|
    ensures Addr(start, MergeNext(bs, i), i) == Addr(start, bs, i)
  {
    hide Addr;
    if i + 1 < |bs| && bs[i + 1].free {
      MergeAddr(start, bs, i, i);
    }
  }

  lemma MergeNextHeaders(start: nat, bs: seq<Block>, i: nat, x: nat)
    requires i < |bs| && HeaderWord(start, MergeNext(bs, i), x)
    ensures HeaderWord(start, bs, x)
  {
    hide HeaderWord, Merge;
    if i + 1 < |bs| && bs[i + 1].free {
      MergeHeaders(start, bs, i, x);
    }
  }

  /** Releasing a block in memory is releasing it in the list. */
  lemma ReleaseLinks(m: Memory, start: nat, bs: seq<Block>, i: nat)
    requires Linked(m, start, bs) && i < |bs| && !bs[i].free
    ensures Linked(ReleaseWords(m, Addr(start, bs, i)), start, Release(bs, i))
    ensures OnlyHeaders(m, ReleaseWords(m, Addr(start, bs, i)), start, bs)
  {
    hide Addr, Linked, HeaderWord, OnlyHeaders, MergeIfFree, MergeNext, Merge;
    LinkedHere(m, start, bs, i);
    var a, freed := Addr(start, bs, i), bs[i := bs[i].(free := true)];
    var m1 := m[a + 24 := 1];
    SetFreeLinks(m, start, bs, i, true);
    SetFreeAddr(start, bs, i, true, i);
    var m2, cs := MergeIfFree(m1, Load(m1, a + 8), a, Load(m1, a + 8)), MergeNext(freed, i);
    MergeNextLinks(m1, start, freed, i);
    MergeNextAddr(start, freed, i);
    SameHeaders(m1, m2, start, bs, i, true);
    HeadersCompose(m, m1, m2, start, bs, bs);
    MergePrevLinks(m2, start, cs, i);
    forall x: nat | HeaderWord(start, cs, x)
      ensures HeaderWord(start, bs, x)
    {
      MergeNextHeaders(start, freed, i, x);
      SetFreeHeaders(start, bs, i, true, x);
    }
    HeadersCompose(m, m2, ReleaseWords(m, a), start, bs, cs);
  }

  lemma RoundUp8Exact(n: nat)
    requires n % 8 == 0
    ensures RoundUp8(n) == n
  {
  }

  lemma BlockAligned(h: Heap, i: nat)
    requires HeapOk(h) && i < |h.blocks|
    ensures Addr(h.arenaEnd, h.blocks, i) % 8 == 0
  {
    AddrAligned(h.arenaEnd, h.blocks, i);
  }

  lemma ListHead(m: Memory, heads: Heads, h: Heap, k: Bucket)
    requires Image(m, heads, h)
    ensures heads[k] == First(h.lists[k]) && (heads[k] != NULL <==> h.lists[k] != [])
  {
    ChainHead(m, heads, h, k);
  }

  lemma EmptyHead(m: Memory, heads: Heads, h: Heap, k: Bucket)
    requires Image(m, heads, h) && h.lists[k] == []
    ensures heads[k] == NULL
  {
    ChainHead(m, heads, h, k);
  }

  // ---------------------------------------------------------------- taking and placing

  lemma TakeImage(m: Memory, heads: Heads, h: Heap, i: nat, n: nat)
    requires HeapOk(h) && Image(m, heads, h) && i < |h.blocks| && h.blocks[i].free
    requires h.blocks[i].size >= n && n % 8 == 0
    ensures var m' := TakeWords(m, Addr(h.arenaEnd, h.blocks, i), n); var r := Reserve(h, i, n);
            HeapOk(r) && Image(m', heads, r) && r.blocks != []
  {
    hide HeapOk, Linked, OnlyHeaders, Chains, Tags, Unclaimed, TakeWords, Addr;
    ReserveKeepsHeap(h, i, n);
    TakeLinks(m, h.arenaEnd, h.blocks, i, n);
    ReserveImage(m, TakeWords(m, Addr(h.arenaEnd, h.blocks, i), n), heads, h, i, n);
  }

  lemma NeedAligned(size: nat, align: nat)
    ensures LargeNeed(size, align) % 8 == 0
  {
  }

  lemma LargeIsPlaced(m: Memory, m': Memory, heads: Heads, h: Heap, r: Heap, h': Heap, i: nat, b: nat, p: nat,
                      size: nat, align: nat)
    requires align > 0 && i < |h.blocks| && h.blocks[i].free && h.blocks[i].size >= LargeNeed(size, align)
    requires b == Addr(h.arenaEnd, h.blocks, i) && p == LargePayload(b, align) && p >= 2 * WORD
    requires m' == m[p - 2 * WORD := SENTINEL][p - WORD := b]
    requires h' == PlaceLarge(h, i, size, align) && r == Reserve(h, i, LargeNeed(size, align))
    requires AlignOk(align) && HeapOk(h) && Image(m, heads, r)
    ensures HeapOk(h') && Image(m', heads, h')
  {
    hide HeapOk, Image, Addr, Take, LargeNeed, LargePayload, Unclaimed;
    var n := LargeNeed(size, align);
    NeedAligned(size, align);
    ReserveKeepsHeap(h, i, n);
    BlockAligned(h, i);
    PayloadFits(b, size, align);
    PlaceLargeKeepsHeap(h, i, size, align);
    var k := Take(h.blocks, i, n)[i].size;
    ClaimImage(m, heads, Reserve(h, i, n), b, k, p, size, align);
    assert PlaceLarge(h, i, size, align) == Claim(Reserve(h, i, n), b, k, p, size, align);
  }

  lemma SlabCellIs(b: nat, k: Bucket, i: nat, total: nat)
    requires total == CellSize(k)
    ensures SlabCell(b, k, i) == b + HEADER + i * total
  {
  }

  lemma NoCellsYet(m: Memory, b: nat, k: Bucket)
    ensures SameOutside(m, m, SlabSet(b, k, 1)) && Chain(m, NULL, SlabList(b, k, 1))
  {
  }

  lemma SlabIsCut(m: Memory, m': Memory, heads: Heads, head: nat, h: Heap, i: nat, k: Bucket, size: nat)
    requires HeapOk(h) && h.lists[k] == [] && size <= ClassSize(k)
    requires i < |h.blocks| && h.blocks[i].free && h.blocks[i].size >= SLAB_COUNT * CellSize(k)
    requires Image(m, heads, Reserve(h, i, SLAB_COUNT * CellSize(k)))
    requires var b := Addr(h.arenaEnd, h.blocks, i);
             && SameOutside(m, m', SlabSet(b, k, SLAB_COUNT)) && Chain(m', head, SlabList(b, k, SLAB_COUNT))
             && Load(m', b + HEADER) == k
    ensures HeapOk(CutSlab(h, i, k, size)) && Image(m', heads[k := head], CutSlab(h, i, k, size))
    ensures CutSlab(h, i, k, size).arenaPtr == h.arenaPtr && CutSlab(h, i, k, size).arenaEnd == h.arenaEnd
    ensures CutSlab(h, i, k, size).blocks != []
  {
    hide HeapOk, Image, Addr, Chain, SlabSet, SlabList, SameOutside, SlabCell, Take, ClassSize, CellSize, Unclaimed;
    var n, b := SLAB_COUNT * CellSize(k), Addr(h.arenaEnd, h.blocks, i);
    ReserveKeepsHeap(h, i, n);
    CutSlabKeepsHeap(h, i, k, size);
    SlabCellIs(b, k, 0, CellSize(k));
    CutImage(m, m', heads, head, Reserve(h, i, n), b, Take(h.blocks, i, n)[i].size, k, SLAB_COUNT, size);
    assert CutSlab(h, i, k, size) == Cut(Reserve(h, i, n), b, Take(h.blocks, i, n)[i].size, k, SLAB_COUNT, size);
  }

  // ---------------------------------------------------------------- recognising what comes back

  /** What the words in front of a live payload say. */
  lemma TagWords(m: Memory, heads: Heads, h: Heap, p: nat)
    requires HeapOk(h) && Image(m, heads, h) && p in h.live
    ensures p >= 2 * WORD
    ensures if h.live[p].Small? then Load(m, p - WORD) == h.live[p].bucket
            else Load(m, p - 2 * WORD) == SENTINEL && Load(m, p - WORD) == h.live[p].block
  {
    hide HeapOk, Linked, Chains, ClassSize, AlignedTo;
    LiveInRegion(h, p);
    assert Tagged(m, p, h.live[p]);
  }

  lemma BlockSizeWord(m: Memory, heads: Heads, h: Heap, p: nat)
    requires HeapOk(h) && Image(m, heads, h) && p in h.live && h.live[p].Large?
    ensures Load(m, h.live[p].block) == h.live[p].blockSize
  {
    hide HeapOk, Chains, Tags, AlignedTo, Addr, NextOf, PrevOf, Linked, IsUsed;
    HeapParts(h);
    LiveIsOk(h, p);
    var x := h.live[p];
    var i := IndexOf(h.arenaEnd, h.blocks, x.block, x.blockSize);
    LinkedHere(m, h.arenaEnd, h.blocks, i);
  }

  lemma BlockIsReleased(m: Memory, heads: Heads, h: Heap, p: nat)
    requires HeapOk(h) && Image(m, heads, h) && p in h.live && h.live[p].Large? && AllocOk(h, p, h.live[p])
    ensures Image(ReleaseWords(m, h.live[p].block), heads, Dealloc(h, p))
  {
    hide HeapOk, Linked, Chains, Tags, ReleaseWords, Release, Addr, IsUsed, OnlyHeaders, AlignedTo;
    var x := h.live[p];
    var i := IndexOf(h.arenaEnd, h.blocks, x.block, x.blockSize);
    ReleaseLinks(m, h.arenaEnd, h.blocks, i);
    FreeLargeImage(m, ReleaseWords(m, x.block), heads, h, p);
  }

  /** A cell in use is not at the head of its list. */
  lemma LiveIsNotHead(m: Memory, heads: Heads, h: Heap, p: nat)
    requires HeapOk(h) && Image(m, heads, h) && p in h.live && h.live[p].Small? && p > WORD
    ensures heads[h.live[p].bucket] != p - WORD
  {
    hide HeapOk, Image, Linked, Tags, Chain, Chains, ListsOk, BlocksOk, CellsOk, LiveOk, NoCellLost;
    HeapParts(h);
    var k := h.live[p].bucket;
    ListHead(m, heads, h, k);
    if h.lists[k] != [] {
      ListCellsAreCells(h, k, h.lists[k][0]);
    }
  }

  // ---------------------------------------------------------------- the operations on words

  datatype Words = Words(mem: Memory, heads: Heads, heap: Heap)

  ghost predicate Good(w: Words) {
    HeapOk(w.heap) && Image(w.mem, w.heads, w.heap)
  }

  ghost function PopWords(w: Words, k: Bucket, size: nat): Words
    requires w.heap.lists[k] != []
  {
    Words(w.mem[w.heads[k] := k], w.heads[k := Load(w.mem, w.heads[k])], Pop(w.heap, k, size))
  }

  ghost function CarveWords(w: Words, k: Bucket, size: nat): Words {
    Words(w.mem[RoundUp8(w.heap.arenaPtr) := k], w.heads, Carve(w.heap, k, size))
  }

  /** Push cells 1 to `n - 1` of a slab, one after the other, in front of `head`. */
  ghost function Threaded(m: Memory, head: nat, b: nat, k: Bucket, n: nat): (Memory, nat) {
    if n <= 1 then (m, head)
    else
      var t := Threaded(m, head, b, k, n - 1);
      (t.0[SlabCell(b, k, n - 1) := t.1], SlabCell(b, k, n - 1))
  }

  ghost function SlabWords(w: Words, i: nat, k: Bucket, size: nat): Words
    requires i < |w.heap.blocks| && w.heap.blocks[i].size >= SLAB_COUNT * CellSize(k)
  {
    var b := Addr(w.heap.arenaEnd, w.heap.blocks, i);
    var t := Threaded(TakeWords(w.mem, b, SLAB_COUNT * CellSize(k)), w.heads[k], b, k, SLAB_COUNT);
    Words(t.0[b + HEADER := k], w.heads[k := t.1], CutSlab(w.heap, i, k, size))
  }

  ghost function AllocSmallWords(w: Words, k: Bucket, size: nat): Words {
    if w.heap.lists[k] != [] then PopWords(w, k, size)
    else if RoundUp8(w.heap.arenaPtr) + CellSize(k) <= w.heap.arenaEnd then CarveWords(w, k, size)
    else
      var i := FirstFit(w.heap.blocks, SLAB_COUNT * CellSize(k), 0);
      if i.None? then w else SlabWords(w, i.value, k, size)
  }

  ghost function PlaceWords(w: Words, i: nat, size: nat, align: nat): Words
    requires i < |w.heap.blocks| && align > 0 && w.heap.blocks[i].size >= LargeNeed(size, align)
  {
    var b := Addr(w.heap.arenaEnd, w.heap.blocks, i);
    var p := LargePayload(b, align);
    Words(TakeWords(w.mem, b, LargeNeed(size, align))[p - 2 * WORD := SENTINEL][p - WORD := b], w.heads,
          PlaceLarge(w.heap, i, size, align))
  }

  ghost function AllocWords(w: Words, size: nat, align: nat): Words
    requires align > 0
  {
    if align <= WORD && BucketFor(size).Some? then AllocSmallWords(w, BucketFor(size).value, size)
    else
      var i := FirstFit(w.heap.blocks, LargeNeed(size, align), 0);
      if i.None? then w else PlaceWords(w, i.value, size, align)
  }

  ghost function FreeWords(w: Words, p: nat): Words
    requires p in w.heap.live && AllocOk(w.heap, p, w.heap.live[p])
  {
    match w.heap.live[p]
    case Small(k, _) => Words(w.mem[p - WORD := w.heads[k]], w.heads[k := p - WORD], Dealloc(w.heap, p))
    case Large(b, _, _, _) => Words(ReleaseWords(w.mem, b), w.heads, Dealloc(w.heap, p))
  }

  // ---------------------------------------------------------------- callers' data

  /** Every word of what callers hold is as it was. */
  ghost predicate KeepsData(m: Memory, m': Memory, h: Heap) {
    forall p, x | p in h.live && p <= x < p + Capacity(h, p) :: Load(m', x) == Load(m, x)
  }

  ghost predicate SameQuiet(m: Memory, m': Memory, h: Heap) {
    forall x: nat | Quiet(h, x) :: Load(m', x) == Load(m, x)
  }

  /** Callers hold quiet words, so writing only others changes none of their data. */
  lemma LoudKeepsData(m: Memory, m': Memory, h: Heap, h': Heap)
    requires HeapOk(h') && SameQuiet(m, m', h') && forall p | p in h.live :: p in h'.live && h'.live[p] == h.live[p]
    ensures KeepsData(m, m', h)
  {
    hide HeapOk, Quiet, ClassSize;
    forall p, x | p in h.live && p <= x < p + Capacity(h, p)
      ensures Load(m', x) == Load(m, x)
    {
      PayloadIsQuiet(h', p, x);
    }
  }

  lemma KeepsDataOn(m: Memory, m1: Memory, m2: Memory, h: Heap)
    requires KeepsData(m, m1, h) && KeepsData(m1, m2, h)
    ensures KeepsData(m, m2, h)
  {
    hide ClassSize;
  }

  lemma CellWriteKeepsData(m: Memory, h: Heap, h': Heap, a: nat, v: nat)
    requires HeapOk(h') && a in h'.cells && forall p | p in h.live :: p in h'.live && h'.live[p] == h.live[p]
    ensures KeepsData(m, m[a := v], h)
  {
    hide HeapOk, HeaderWord;
    LoudKeepsData(m, m[a := v], h, h');
  }

  lemma HeadersKeepData(m: Memory, m': Memory, h: Heap, h': Heap)
    requires HeapOk(h') && OnlyHeaders(m, m', h'.arenaEnd, h'.blocks)
    requires forall p | p in h.live :: p in h'.live && h'.live[p] == h.live[p]
    ensures KeepsData(m, m', h)
  {
    hide HeapOk, HeaderWord;
    LoudKeepsData(m, m', h, h');
  }

  // ---------------------------------------------------------------- each operation keeps everything

  lemma PopGood(w: Words, k: Bucket, size: nat)
    requires Good(w) && w.heap.lists[k] != [] && size <= ClassSize(k)
    ensures Good(PopWords(w, k, size)) && KeepsData(w.mem, PopWords(w, k, size).mem, w.heap)
  {
    hide HeapOk, Image, ClassSize, KeepsData, ListsOk, CellsOk;
    PopKeepsHeap(w.heap, k, size);
    PopImage(w.mem, w.heads, w.heap, k, size);
    HeapParts(w.heap);
    ListCellsAreCells(w.heap, k, w.heap.lists[k][0]);
    CellWriteKeepsData(w.mem, w.heap, w.heap, w.heads[k], k);
  }

  lemma CarveGood(w: Words, k: Bucket, size: nat)
    requires Good(w) && RoundUp8(w.heap.arenaPtr) + CellSize(k) <= w.heap.arenaEnd && size <= ClassSize(k)
    ensures Good(CarveWords(w, k, size)) && KeepsData(w.mem, CarveWords(w, k, size).mem, w.heap)
  {
    hide HeapOk, Image, ClassSize, CellSize, KeepsData, RoundUp8;
    CarveKeepsHeap(w.heap, k, size);
    CarveImage(w.mem, w.heads, w.heap, k, size);
    CellWriteKeepsData(w.mem, w.heap, Carve(w.heap, k, size), RoundUp8(w.heap.arenaPtr), k);
  }

  lemma {:induction false} ThreadedFacts(m: Memory, b: nat, k: Bucket, n: nat)
    requires n >= 1 && b % 8 == 0
    ensures var t := Threaded(m, NULL, b, k, n);
            SameOutside(m, t.0, SlabSet(b, k, n)) && Chain(t.0, t.1, SlabList(b, k, n))
    decreases n
  {
    hide Chain, SlabSet, SameOutside, SlabCell, SlabList;
    if n == 1 {
      NoCellsYet(m, b, k);
    } else {
      ThreadedFacts(m, b, k, n - 1);
      var t := Threaded(m, NULL, b, k, n - 1);
      SlabListStep(t.0, t.1, b, k, n - 1);
      SlabSetStep(m, t.0, b, k, n - 1, t.1);
    }
  }

  /** The slab's words: all but the first cell threaded, the first one tagged. */
  lemma SlabThreaded(m: Memory, b: nat, k: Bucket)
    requires b % 8 == 0
    ensures var t := Threaded(m, NULL, b, k, SLAB_COUNT); var m' := t.0[b + HEADER := k];
            && SameOutside(m, m', SlabSet(b, k, SLAB_COUNT)) && Chain(m', t.1, SlabList(b, k, SLAB_COUNT))
            && Load(m', b + HEADER) == k
  {
    hide Chain, SlabSet, SameOutside, SlabCell, SlabList, Threaded;
    ThreadedFacts(m, b, k, SLAB_COUNT);
    var t := Threaded(m, NULL, b, k, SLAB_COUNT);
    SlabFirst(m, t.0, t.1, b, k, SLAB_COUNT, k);
    SlabCellIs(b, k, 0, CellSize(k));
  }

  lemma SlabKeepsData(m: Memory, m': Memory, h: Heap, i: nat, k: Bucket, size: nat)
    requires i < |h.blocks| && h.blocks[i].size >= SLAB_COUNT * CellSize(k) && HeapOk(CutSlab(h, i, k, size))
    requires SlabCell(Addr(h.arenaEnd, h.blocks, i), k, 0) + WORD !in h.live
    requires SameOutside(m, m', SlabSet(Addr(h.arenaEnd, h.blocks, i), k, SLAB_COUNT))
    ensures KeepsData(m, m', h)
  {
    hide HeapOk, HeaderWord, Take, Addr, SlabCell, SlabSet, SlabList, CellSize;
    LoudKeepsData(m, m', h, CutSlab(h, i, k, size));
  }

  lemma SlabGood(w: Words, i: nat, k: Bucket, size: nat)
    requires Good(w) && w.heap.lists[k] == [] && size <= ClassSize(k)
    requires i < |w.heap.blocks| && w.heap.blocks[i].free && w.heap.blocks[i].size >= SLAB_COUNT * CellSize(k)
    ensures Good(SlabWords(w, i, k, size)) && KeepsData(w.mem, SlabWords(w, i, k, size).mem, w.heap)
  {
    hide HeapOk, Image, ClassSize, CellSize, KeepsData, TakeWords, Addr, Threaded, SlabSet, SlabList, SlabCell;
    hide SameOutside, Chain, CutSlab, Take;
    var h, n := w.heap, SLAB_COUNT * CellSize(k);
    var b := Addr(h.arenaEnd, h.blocks, i);
    var m1 := TakeWords(w.mem, b, n);
    EmptyHead(w.mem, w.heads, h, k);
    BlockAligned(h, i);
    TakeImage(w.mem, w.heads, h, i, n);
    TakeKeepsData(w.mem, w.heads, h, i, n);
    SlabThreaded(m1, b, k);
    var t := Threaded(m1, NULL, b, k, SLAB_COUNT);
    SlabIsCut(m1, t.0[b + HEADER := k], w.heads, t.1, h, i, k, size);
    CutSlabKeepsHeap(h, i, k, size);
    SlabKeepsData(m1, t.0[b + HEADER := k], h, i, k, size);
    KeepsDataOn(w.mem, m1, t.0[b + HEADER := k], h);
  }

  lemma TakeKeepsData(m: Memory, heads: Heads, h: Heap, i: nat, n: nat)
    requires HeapOk(h) && Image(m, heads, h) && i < |h.blocks| && h.blocks[i].free
    requires h.blocks[i].size >= n && n % 8 == 0
    ensures KeepsData(m, TakeWords(m, Addr(h.arenaEnd, h.blocks, i), n), h)
  {
    hide HeapOk, Linked, OnlyHeaders, Chains, Tags, Unclaimed, TakeWords, Addr, Take, KeepsData;
    ReserveKeepsHeap(h, i, n);
    TakeLinks(m, h.arenaEnd, h.blocks, i, n);
    HeadersKeepData(m, TakeWords(m, Addr(h.arenaEnd, h.blocks, i), n), h, Reserve(h, i, n));
  }

  lemma PrefixKeepsData(m: Memory, h: Heap, h': Heap, p: nat, b: nat)
    requires HeapOk(h') && p in h'.live && h'.live[p].Large? && p >= 2 * WORD
    requires forall q | q in h.live :: q in h'.live && h'.live[q] == h.live[q]
    ensures KeepsData(m, m[p - 2 * WORD := SENTINEL][p - WORD := b], h)
  {
    hide HeapOk, HeaderWord;
    assert PrefixWord(h', p, p - 2 * WORD) && PrefixWord(h', p, p - WORD);
    LoudKeepsData(m, m[p - 2 * WORD := SENTINEL][p - WORD := b], h, h');
  }

  lemma PayloadAbove(b: nat, align: nat)
    requires align > 0
    ensures LargePayload(b, align) >= 2 * WORD
  {
  }

  lemma PlaceGood(w: Words, i: nat, size: nat, align: nat)
    requires align > 0 && i < |w.heap.blocks| && w.heap.blocks[i].free
    requires w.heap.blocks[i].size >= LargeNeed(size, align)
    requires AlignOk(align) && Good(w)
    ensures Good(PlaceWords(w, i, size, align)) && KeepsData(w.mem, PlaceWords(w, i, size, align).mem, w.heap)
  {
    hide HeapOk, Image, KeepsData, TakeWords, Addr, LargeNeed, LargePayload, Take;
    var h, n := w.heap, LargeNeed(size, align);
    var b := Addr(h.arenaEnd, h.blocks, i);
    var p, h' := LargePayload(b, align), PlaceLarge(h, i, size, align);
    var m1 := TakeWords(w.mem, b, n);
    PayloadAbove(b, align);
    var m2: Memory := m1[p - 2 * WORD := SENTINEL][p - WORD := b];
    NeedAligned(size, align);
    TakeImage(w.mem, w.heads, h, i, n);
    TakeKeepsData(w.mem, w.heads, h, i, n);
    LargeIsPlaced(m1, m2, w.heads, h, Reserve(h, i, n), h', i, b, p, size, align);
    PlaceLargeKeepsHeap(h, i, size, align);
    PrefixKeepsData(m1, h, h', p, b);
    KeepsDataOn(w.mem, m1, m2, h);
  }

  lemma AllocSmallGood(w: Words, k: Bucket, size: nat)
    requires Good(w) && size <= ClassSize(k)
    ensures var w' := AllocSmallWords(w, k, size);
            Good(w') && KeepsData(w.mem, w'.mem, w.heap) && w'.heap == AllocSmall(w.heap, k, size).0
  {
    hide Good, KeepsData, ClassSize, CellSize, PopWords, CarveWords, SlabWords, Pop, Carve, CutSlab, RoundUp8, FirstFit;
    if w.heap.lists[k] != [] {
      PopGood(w, k, size);
      SmallHeaps(w, k, size);
    } else if RoundUp8(w.heap.arenaPtr) + CellSize(k) <= w.heap.arenaEnd {
      CarveGood(w, k, size);
      SmallHeaps(w, k, size);
    } else {
      var i := FirstFit(w.heap.blocks, SLAB_COUNT * CellSize(k), 0);
      if i.Some? {
        SlabGood(w, i.value, k, size);
        SlabHeap(w, i.value, k, size);
      } else {
        NothingKeepsData(w.mem, w.heap);
      }
    }
  }

  lemma SmallHeaps(w: Words, k: Bucket, size: nat)
    ensures w.heap.lists[k] != [] ==> PopWords(w, k, size).heap == Pop(w.heap, k, size)
    ensures CarveWords(w, k, size).heap == Carve(w.heap, k, size)
  {
  }

  lemma SlabHeap(w: Words, i: nat, k: Bucket, size: nat)
    requires i < |w.heap.blocks| && w.heap.blocks[i].size >= SLAB_COUNT * CellSize(k)
    ensures SlabWords(w, i, k, size).heap == CutSlab(w.heap, i, k, size)
  {
    hide CutSlab, Threaded, TakeWords;
  }

  lemma NothingKeepsData(m: Memory, h: Heap)
    ensures KeepsData(m, m, h)
  {
    hide ClassSize;
  }

  /** Allocating: the words stand for the heap after it, and nobody's data has changed. */
  lemma AllocGood(w: Words, size: nat, align: nat)
    requires Good(w) && AlignOk(align)
    ensures var w' := AllocWords(w, size, align);
            Good(w') && KeepsData(w.mem, w'.mem, w.heap) && w'.heap == Alloc(w.heap, size, align).0
  {
    hide Good, KeepsData, ClassSize, AllocSmallWords, PlaceWords, AllocSmall, PlaceLarge, FirstFit, LargeNeed;
    if align <= WORD && BucketFor(size).Some? {
      AllocSmallGood(w, BucketFor(size).value, size);
    } else {
      var i := FirstFit(w.heap.blocks, LargeNeed(size, align), 0);
      if i.Some? {
        PlaceGood(w, i.value, size, align);
        PlaceHeap(w, i.value, size, align);
      } else {
        NothingKeepsData(w.mem, w.heap);
      }
    }
  }

  lemma PlaceHeap(w: Words, i: nat, size: nat, align: nat)
    requires i < |w.heap.blocks| && align > 0 && w.heap.blocks[i].size >= LargeNeed(size, align)
    ensures PlaceWords(w, i, size, align).heap == PlaceLarge(w.heap, i, size, align)
  {
    hide PlaceLarge, TakeWords, LargeNeed, LargePayload, Addr;
  }

  /** Freeing: the words stand for the heap after it, and nobody's data has changed. */
  lemma FreeGood(w: Words, p: nat)
    requires Good(w) && p in w.heap.live
    ensures AllocOk(w.heap, p, w.heap.live[p])
    ensures var w' := FreeWords(w, p); Good(w') && KeepsData(w.mem, w'.mem, w.heap) && w'.heap == Dealloc(w.heap, p)
  {
    hide HeapOk, Image, KeepsData, Dealloc, ReleaseWords, AllocOk;
    DeallocKeepsHeap(w.heap, p);
    match w.heap.live[p] {
      case Small(k, _) =>
        FreeSmallImage(w.mem, w.heads, w.heap, p);
        SmallCell(w.heap, p);
        CellWriteKeepsData(w.mem, w.heap, w.heap, p - WORD, w.heads[k]);
      case Large(b, _, _, _) =>
        BlockIsReleased(w.mem, w.heads, w.heap, p);
        ReleaseKeepsData(w.mem, w.heads, w.heap, p);
    }
  }

  lemma SmallCell(h: Heap, p: nat)
    requires p in h.live && h.live[p].Small? && AllocOk(h, p, h.live[p])
    ensures p >= WORD && p - WORD in h.cells
  {
  }

  lemma ReleaseKeepsData(m: Memory, heads: Heads, h: Heap, p: nat)
    requires HeapOk(h) && Image(m, heads, h) && p in h.live && h.live[p].Large? && AllocOk(h, p, h.live[p])
    ensures KeepsData(m, ReleaseWords(m, h.live[p].block), h)
  {
    hide HeapOk, Linked, Chains, Tags, ReleaseWords, Release, Addr, IsUsed, OnlyHeaders, AlignedTo, KeepsData;
    var x := h.live[p];
    ReleaseLinks(m, h.arenaEnd, h.blocks, IndexOf(h.arenaEnd, h.blocks, x.block, x.blockSize));
    HeadersKeepData(m, ReleaseWords(m, x.block), h, h);
  }

  // ---------------------------------------------------------------- whole runs

  datatype Request = Allocate(size: nat, align: nat) | Free(p: nat) | Store(p: nat, x: nat, v: nat)

  /** `x` is a word of the payload at `p`. */
  ghost predicate WordOf(h: Heap, p: nat, x: nat) {
    p in h.live && p <= x && x + WORD <= p + Capacity(h, p) && x % WORD == 0
  }

  /**
   What callers may do: ask for a real alignment; free null or what they hold, a cell only
   while the word two in front of it is not the sentinel; store into what they hold.
   */
  ghost predicate Legal(w: Words, q: Request) {
    match q
    case Allocate(_, align) => AlignOk(align)
    case Free(p) =>
      p == NULL ||
      (p in w.heap.live && (w.heap.live[p].Small? ==> p >= 2 * WORD && Load(w.mem, p - 2 * WORD) != SENTINEL))
    case Store(p, x, _) => WordOf(w.heap, p, x)
  }

  ghost function Serve(w: Words, q: Request): (w': Words)
    requires Good(w) && Legal(w, q)
    ensures Good(w')
  {
    match q
    case Allocate(size, align) =>
      AllocGood(w, size, align);
      AllocWords(w, size, align)
    case Free(p) =>
      if p == NULL then w
      else
        FreeGood(w, p);
        FreeWords(w, p)
    case Store(p, x, v) =>
      CallersCannotDisturb(w.mem, w.heads, w.heap, p, x, v);
      w.(mem := w.mem[x := v])
  }

  ghost predicate LegalRun(w: Words, qs: seq<Request>)
    requires Good(w)
    decreases |qs|
  {
    qs == [] || (Legal(w, qs[0]) && LegalRun(Serve(w, qs[0]), qs[1..]))
  }

  ghost function ServeAll(w: Words, qs: seq<Request>): Words
    requires Good(w) && LegalRun(w, qs)
    decreases |qs|
  {
    if qs == [] then w else ServeAll(Serve(w, qs[0]), qs[1..])
  }

  lemma ServeKeepsRegion(w: Words, q: Request)
    requires Good(w) && Legal(w, q)
    ensures SameRegion(w.heap, Serve(w, q).heap)
  {
    hide Good, SameRegion, Alloc, Dealloc, AllocOk, AllocWords, FreeWords;
    match q {
      case Allocate(size, align) =>
        AllocGood(w, size, align);
        AllocConserves(w.heap, size, align);
      case Free(p) =>
        if p != NULL {
          FreeGood(w, p);
          DeallocConserves(w.heap, p);
        } else {
          SameItself(w.heap);
        }
      case Store(_, _, _) =>
        SameItself(w.heap);
    }
  }

  lemma {:induction false} RunKeepsHeap(w: Words, qs: seq<Request>)
    requires Good(w) && LegalRun(w, qs)
    ensures Good(ServeAll(w, qs)) && SameRegion(w.heap, ServeAll(w, qs).heap)
    decreases |qs|
  {
    hide Good, Serve, Legal, Total;
    if qs != [] {
      ServeKeepsRegion(w, qs[0]);
      RunKeepsHeap(Serve(w, qs[0]), qs[1..]);
    } else {
      SameItself(w.heap);
    }
  }

  lemma {:induction false} PrefixIsLegal(w: Words, qs: seq<Request>, k: nat)
    requires Good(w) && LegalRun(w, qs) && k <= |qs|
    ensures LegalRun(w, qs[..k])
    decreases k
  {
    hide Good, Serve, Legal;
    if k > 0 {
      PrefixIsLegal(Serve(w, qs[0]), qs[1..], k - 1);
      assert qs[..k][1..] == qs[1..][..k - 1];
    }
  }

  /** The words written at initialisation. */
  ghost function InitWords(start: nat, size: nat, m: Memory): (w: Words)
    requires start > 0 && HeaderAligned(start, size)
    ensures Good(w)
  {
    var h, b := InitHeap(start, size), start + size / 4 * 3;
    var m' := if h.blocks == [] then m
              else m[b := size - size / 4 * 3 - HEADER][b + 8 := NULL][b + 16 := NULL][b + 24 := 1];
    InitImage(m, m', h, b);
    Words(m', seq(NUM_BUCKETS, _ => NULL), h)
  }

  lemma InitImage(m: Memory, m': Memory, h: Heap, b: nat)
    requires h.arenaStart > 0 && h.arenaEnd == b > 0 && h.live == map[] && forall k: Bucket :: h.lists[k] == []
    requires h.blocks == [] || (|h.blocks| == 1 && h.blocks[0].free
               && m' == m[b := h.blocks[0].size][b + 8 := NULL][b + 16 := NULL][b + 24 := 1])
    ensures Image(m', seq(NUM_BUCKETS, _ => NULL), h)
  {
    assert Linked(m', h.arenaEnd, h.blocks) by {
      assert |h.blocks| == 1 ==> LinkedAt(m', h.arenaEnd, h.blocks, 0);
    }
  }

  /** What callers hold is disjoint, headers and prefixes included, inside the region, and large enough. */
  ghost predicate Separated(h: Heap, start: nat, end: nat) {
    && (forall p | p in h.live :: (h.live[p].Small? ==> p >= WORD) && start <= Foot(h, p).0
          && Foot(h, p).0 + Foot(h, p).1 <= end && Foot(h, p).0 < p
          && p + h.live[p].size <= Foot(h, p).0 + Foot(h, p).1)
    && (forall p, q | p in h.live && q in h.live && p != q ::
          Before(Foot(h, p).0, Foot(h, p).1, Foot(h, q).0, Foot(h, q).1))
  }

  lemma GoodIsSeparated(h: Heap)
    requires HeapOk(h)
    ensures Separated(h, h.arenaStart, h.arenaEnd + Total(h.blocks))
  {
    hide HeapOk, Total, Foot, Before;
    forall p | p in h.live
      ensures (h.live[p].Small? ==> p >= WORD) && h.arenaStart <= Foot(h, p).0
      ensures Foot(h, p).0 + Foot(h, p).1 <= h.arenaEnd + Total(h.blocks) && Foot(h, p).0 < p
      ensures p + h.live[p].size <= Foot(h, p).0 + Foot(h, p).1
    {
      LiveInRegion(h, p);
    }
    forall p, q | p in h.live && q in h.live && p != q
      ensures Before(Foot(h, p).0, Foot(h, p).1, Foot(h, q).0, Foot(h, q).1)
    {
      LiveApart(h, p, q);
    }
  }

  lemma WiderRegion(h: Heap, start: nat, end: nat, end': nat)
    requires Separated(h, start, end) && end <= end'
    ensures Separated(h, start, end')
  {
    hide Foot, Before;
  }

  /**
   Safety of the heap at every point of every legal run from initialisation, callers'
   stores included: the words in memory stand for a heap that keeps its invariant, and
   whatever two callers hold is disjoint, inside the region, and large enough; and no byte of
   the region has gone from the heap.
   */
  lemma HeapIsSafe(start: nat, size: nat, m: Memory, qs: seq<Request>, k: nat)
    requires start > 0 && HeaderAligned(start, size) && LegalRun(InitWords(start, size, m), qs) && k <= |qs|
    ensures LegalRun(InitWords(start, size, m), qs[..k])
    ensures var w := ServeAll(InitWords(start, size, m), qs[..k]);
            && HeapOk(w.heap) && Image(w.mem, w.heads, w.heap) && Separated(w.heap, start, start + size)
            && Fills(w.heap, start, size)
  {
    hide HeapOk, Image, ServeAll, LegalRun, Separated, InitWords, Fills;
    var w0 := InitWords(start, size, m);
    InitFacts(start, size, m);
    PrefixIsLegal(w0, qs, k);
    SafeFrom(w0, start, size, qs[..k]);
  }

  lemma InitFacts(start: nat, size: nat, m: Memory)
    requires start > 0 && HeaderAligned(start, size)
    ensures var h := InitWords(start, size, m).heap;
            Fills(h, start, size)
  {
    InitRegion(start, size);
    hide InitHeap, Fills, Image;
  }

  lemma SafeFrom(w0: Words, start: nat, size: nat, qs: seq<Request>)
    requires Good(w0) && Fills(w0.heap, start, size) && LegalRun(w0, qs)
    ensures Good(ServeAll(w0, qs)) && Separated(ServeAll(w0, qs).heap, start, start + size)
    ensures Fills(ServeAll(w0, qs).heap, start, size)
  {
    hide HeapOk, Image, ServeAll, LegalRun, Total, Separated;
    RunKeepsHeap(w0, qs);
    var h := ServeAll(w0, qs).heap;
    GoodIsSeparated(h);
    WiderRegion(h, start, h.arenaEnd + Total(h.blocks), start + size);
  }

  // ---------------------------------------------------------------- data stays

  /** The request neither frees `p` nor stores to `x`. */
  predicate Spares(q: Request, p: nat, x: nat) {
    match q
    case Allocate(_, _) => true
    case Free(r) => r != p
    case Store(_, y, _) => y != x
  }

  lemma ServeKeepsWord(w: Words, q: Request, p: nat, x: nat)
    requires Good(w) && Legal(w, q) && WordOf(w.heap, p, x) && Spares(q, p, x)
    ensures var w' := Serve(w, q); WordOf(w'.heap, p, x) && Load(w'.mem, x) == Load(w.mem, x)
  {
    hide Good, AllocWords, FreeWords, ClassSize;
    match q {
      case Allocate(size, align) =>
        AllocGood(w, size, align);
        KeptWord(w.mem, AllocWords(w, size, align).mem, w.heap, p, x);
        GoodHeap(w);
        AllocKeepsOthers(w.heap, size, align, p);
      case Free(r) =>
        if r != NULL {
          FreeGood(w, r);
          KeptWord(w.mem, FreeWords(w, r).mem, w.heap, p, x);
          DeallocKeepsOthers(w.heap, r, p);
        }
      case Store(_, _, _) =>
    }
  }

  lemma GoodHeap(w: Words)
    requires Good(w)
    ensures HeapOk(w.heap)
  {
  }

  lemma KeptWord(m: Memory, m': Memory, h: Heap, p: nat, x: nat)
    requires KeepsData(m, m', h) && WordOf(h, p, x)
    ensures Load(m', x) == Load(m, x)
  {
    hide ClassSize;
  }

  lemma AllocKeepsOthers(h: Heap, size: nat, align: nat, p: nat)
    requires HeapOk(h) && AlignOk(align) && p in h.live
    ensures var h' := Alloc(h, size, align).0; p in h'.live && h'.live[p] == h.live[p]
  {
    hide HeapOk, Alloc;
    AllocFacts(h, size, align);
    var (h', r) := Alloc(h, size, align);
    if r.Some? {
      assert p in h'.live - {r.value};
    }
  }

  lemma DeallocKeepsOthers(h: Heap, r: nat, p: nat)
    requires r in h.live && AllocOk(h, r, h.live[r]) && p in h.live && p != r
    ensures p in Dealloc(h, r).live && Dealloc(h, r).live[p] == h.live[p]
  {
    hide AllocOk, Release, IndexOf, ClassSize;
  }

  /** A word a caller has stored is there until that caller stores over it or frees it, whatever all others do. */
  lemma {:induction false} DataStays(w: Words, qs: seq<Request>, p: nat, x: nat)
    requires Good(w) && LegalRun(w, qs) && WordOf(w.heap, p, x) && forall k | 0 <= k < |qs| :: Spares(qs[k], p, x)
    ensures var w' := ServeAll(w, qs); WordOf(w'.heap, p, x) && Load(w'.mem, x) == Load(w.mem, x)
    decreases |qs|
  {
    hide Good, Serve, Legal, WordOf, Spares;
    if qs != [] {
      ServeKeepsWord(w, qs[0], p, x);
      DataStays(Serve(w, qs[0]), qs[1..], p, x);
    }
  }
}
