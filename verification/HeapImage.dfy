/** How a heap lies in memory: block headers, free lists threaded through their cells, and the tags of live payloads. */
module HeapImage {
  import opened Bytes
  import opened LargeList
  import opened HeapMemory
  import opened HeapModel
  import opened HeapSafety

  const SENTINEL := 0xFFFF_FFFF_FFFF_FFFF

  type Heads = s: seq<nat> | |s| == NUM_BUCKETS witness seq(NUM_BUCKETS, _ => NULL)

  function First(cells: seq<nat>): nat {
    if cells == [] then NULL else cells[0]
  }

  /** `head` leads through the cells in this order and then to null. */
  ghost predicate Chain(m: Memory, head: nat, cells: seq<nat>) {
    && head == First(cells) && NULL !in cells
    && forall i: nat | i < |cells| :: Load(m, cells[i]) == First(cells[i + 1..])
  }

  /** The words in front of a payload from which it is recognised when it comes back. */
  ghost predicate Tagged(m: Memory, p: nat, x: Live) {
    match x
    case Small(k, _) => p >= WORD && Load(m, p - WORD) == k
    case Large(b, _, _, _) => p >= 2 * WORD && Load(m, p - 2 * WORD) == SENTINEL && Load(m, p - WORD) == b
  }

  ghost predicate Chains(m: Memory, heads: Heads, h: Heap) {
    forall k: Bucket :: Chain(m, heads[k], h.lists[k])
  }

  ghost predicate Tags(m: Memory, h: Heap) {
    forall p | p in h.live :: Tagged(m, p, h.live[p])
  }

  ghost predicate Image(m: Memory, heads: Heads, h: Heap) {
    h.arenaStart > 0 && Linked(m, h.arenaEnd, h.blocks) && Chains(m, heads, h) && Tags(m, h)
  }

  // ---------------------------------------------------------------- which words mean something

  ghost predicate PrefixWord(h: Heap, p: nat, x: nat) {
    p in h.live && h.live[p].Large? && (x + 2 * WORD == p || x + WORD == p)
  }

  /** A word the allocator does not look at. */
  ghost predicate Quiet(h: Heap, x: nat) {
    && !HeaderWord(h.arenaEnd, h.blocks, x) && x !in h.cells
    && forall p :: !PrefixWord(h, p, x)
  }

  ghost predicate SameButQuiet(m: Memory, m': Memory, h: Heap) {
    forall x: nat | !Quiet(h, x) :: Load(m', x) == Load(m, x)
  }

  lemma LinkedFrame(m: Memory, m': Memory, start: nat, bs: seq<Block>)
    requires Linked(m, start, bs) && forall x: nat | HeaderWord(start, bs, x) :: Load(m', x) == Load(m, x)
    ensures Linked(m', start, bs)
  {
    hide Addr, NextOf, PrevOf;
    forall i: nat | i < |bs|
      ensures LinkedAt(m', start, bs, i)
    {
      assert LinkedAt(m, start, bs, i);
      var a := Addr(start, bs, i);
      assert InHeader(start, bs, i, a) && InHeader(start, bs, i, a + 8)
             && InHeader(start, bs, i, a + 16) && InHeader(start, bs, i, a + 24);
      assert HeaderWord(start, bs, a) && HeaderWord(start, bs, a + 8)
             && HeaderWord(start, bs, a + 16) && HeaderWord(start, bs, a + 24);
    }
  }

  lemma ChainFrame(m: Memory, m': Memory, head: nat, cells: seq<nat>)
    requires Chain(m, head, cells) && forall x | x in cells :: Load(m', x) == Load(m, x)
    ensures Chain(m', head, cells)
  {
  }

  lemma ListCellsAreCells(h: Heap, k: Bucket, x: nat)
    requires ListsOk(h) && x in h.lists[k]
    ensures IsFreeCell(h, x, k)
  {
    var i :| 0 <= i < |h.lists[k]| && h.lists[k][i] == x;
  }

  lemma ChainsFrame(m: Memory, m': Memory, heads: Heads, h: Heap)
    requires ListsOk(h) && Chains(m, heads, h) && SameButQuiet(m, m', h)
    ensures Chains(m', heads, h)
  {
    hide Chain, HeaderWord, ListsOk;
    forall k: Bucket
      ensures Chain(m', heads[k], h.lists[k])
    {
      forall x | x in h.lists[k]
        ensures Load(m', x) == Load(m, x)
      {
        ListCellsAreCells(h, k, x);
        assert !Quiet(h, x);
      }
      ChainFrame(m, m', heads[k], h.lists[k]);
    }
  }

  lemma TagsFrame(m: Memory, m': Memory, h: Heap)
    requires LiveOk(h) && Tags(m, h) && SameButQuiet(m, m', h)
    ensures Tags(m', h)
  {
    hide HeaderWord, IsUsed, ClassSize, AlignedTo;
    forall p | p in h.live
      ensures Tagged(m', p, h.live[p])
    {
      assert Tagged(m, p, h.live[p]) && AllocOk(h, p, h.live[p]);
      if h.live[p].Small? {
        assert !Quiet(h, p - WORD);
      } else {
        assert PrefixWord(h, p, p - WORD) && PrefixWord(h, p, p - 2 * WORD);
        assert !Quiet(h, p - WORD) && !Quiet(h, p - 2 * WORD);
      }
    }
  }

  /** Writing words that mean nothing to the allocator changes nothing for it. */
  lemma QuietFrame(m: Memory, m': Memory, heads: Heads, h: Heap)
    requires HeapOk(h) && Image(m, heads, h) && SameButQuiet(m, m', h)
    ensures Image(m', heads, h)
  {
    hide BlocksOk, CellsOk, ListsOk, LiveOk, NoCellLost, Linked, Chains, Tags, HeaderWord;
    assert forall x: nat | HeaderWord(h.arenaEnd, h.blocks, x) :: !Quiet(h, x);
    LinkedFrame(m, m', h.arenaEnd, h.blocks);
    ChainsFrame(m, m', heads, h);
    TagsFrame(m, m', h);
  }

  // ---------------------------------------------------------------- words apart

  lemma HeaderOutsidePayload(start: nat, bs: seq<Block>, b: nat, n: nat, x: nat)
    requires IsUsed(start, bs, b, n) && HeaderWord(start, bs, x)
    ensures start <= x && (x < b + HEADER || x >= b + HEADER + n)
  {
    var i: nat :| UsedAt(start, bs, i, b, n);
    var j: nat :| InHeader(start, bs, j, x);
    AddrOrder(start, bs, j, |bs|);
    hide Addr;
    if i != j {
      HeadersApart(start, bs, i, j);
    }
  }

  lemma HeaderAboveArena(start: nat, bs: seq<Block>, x: nat)
    requires HeaderWord(start, bs, x)
    ensures start <= x
  {
    var j: nat :| InHeader(start, bs, j, x);
    AddrOrder(start, bs, j, |bs|);
  }

  lemma HeaderOutsideCell(h: Heap, a: nat, n: nat, x: nat)
    requires BlocksOk(h) && Placed(h, a, n) && HeaderWord(h.arenaEnd, h.blocks, x)
    ensures x < a || x >= a + n
  {
    hide IsUsed, HeaderWord, NoFreeNeighbours, SizesAligned;
    HeaderAboveArena(h.arenaEnd, h.blocks, x);
    if b :| Inside(h, b, a, n) {
      HeaderOutsidePayload(h.arenaEnd, h.blocks, b, h.slabs[b], x);
    }
  }

  /** The first word of a cell is no header and no large payload's prefix. */
  lemma CellWordIsOwn(h: Heap, a: nat)
    requires HeapOk(h) && a in h.cells
    ensures !HeaderWord(h.arenaEnd, h.blocks, a)
    ensures forall p :: !PrefixWord(h, p, a)
  {
    hide BlocksOk, ListsOk, NoCellLost, IsUsed, HeaderWord, Placed, ClassSize, AlignedTo;
    if HeaderWord(h.arenaEnd, h.blocks, a) {
      HeaderOutsideCell(h, a, CellSize(h.cells[a]), a);
    }
    forall p
      ensures !PrefixWord(h, p, a)
    {
      if PrefixWord(h, p, a) {
        var x := h.live[p];
        assert AllocOk(h, p, x);
        PlacedCellMeetsBlock(h, a, CellSize(h.cells[a]), x.block, x.blockSize);
      }
    }
  }

  // ---------------------------------------------------------------- writing a cell's first word

  lemma CellStoreLinks(m: Memory, h: Heap, a: nat, v: nat)
    requires HeapOk(h) && a in h.cells && Linked(m, h.arenaEnd, h.blocks)
    ensures Linked(m[a := v], h.arenaEnd, h.blocks)
  {
    hide HeapOk, Linked, HeaderWord;
    CellWordIsOwn(h, a);
    LinkedFrame(m, m[a := v], h.arenaEnd, h.blocks);
  }

  lemma CellStoreTags(m: Memory, h: Heap, a: nat, v: nat, q: nat)
    requires HeapOk(h) && a in h.cells && q in h.live && q != a + WORD && Tagged(m, q, h.live[q])
    ensures Tagged(m[a := v], q, h.live[q])
  {
    hide HeapOk, HeaderWord;
    CellWordIsOwn(h, a);
    if h.live[q].Large? {
      assert !PrefixWord(h, q, a);
    }
  }

  lemma PopTags(m: Memory, h: Heap, k: Bucket, size: nat)
    requires HeapOk(h) && h.lists[k] != [] && h.lists[k][0] in h.cells && Tags(m, h)
    ensures Tags(m[h.lists[k][0] := k], Pop(h, k, size))
  {
    hide HeapOk, ClassSize;
    var a, h' := h.lists[k][0], Pop(h, k, size);
    forall q | q in h'.live
      ensures Tagged(m[a := k], q, h'.live[q])
    {
      if q != a + WORD {
        CellStoreTags(m, h, a, k, q);
      }
    }
  }

  lemma ChainHead(m: Memory, heads: Heads, h: Heap, k: Bucket)
    requires Chains(m, heads, h)
    ensures heads[k] == First(h.lists[k]) && (heads[k] != NULL <==> h.lists[k] != [])
  {
    assert Chain(m, heads[k], h.lists[k]);
    assert h.lists[k] != [] ==> h.lists[k][0] in h.lists[k];
  }

  /** Reusing the first cell of a list: its word becomes its class, the list's head the next cell. */
  lemma PopImage(m: Memory, heads: Heads, h: Heap, k: Bucket, size: nat)
    requires HeapOk(h) && Image(m, heads, h) && h.lists[k] != []
    ensures heads[k] == h.lists[k][0] && h.lists[k][0] != NULL
    ensures Image(m[heads[k] := k], heads[k := Load(m, heads[k])], Pop(h, k, size))
  {
    hide Linked, HeapOk, ClassSize, ListsOk, BlocksOk, CellsOk, LiveOk, NoCellLost, Tags, Chain;
    var a := h.lists[k][0];
    ChainHead(m, heads, h, k);
    HeapParts(h);
    ListCellsAreCells(h, k, a);
    CellStoreLinks(m, h, a, k);
    PopChains(m, heads, h, k);
    PopTags(m, h, k, size);
  }

  lemma PopChains(m: Memory, heads: Heads, h: Heap, k: Bucket)
    requires ListsOk(h) && Chains(m, heads, h) && h.lists[k] != []
    ensures var a := h.lists[k][0];
            forall j: Bucket ::
              Chain(m[a := k], heads[k := Load(m, a)][j], if j == k then h.lists[k][1..] else h.lists[j])
  {
    var a, l := h.lists[k][0], h.lists[k];
    assert Chain(m, heads[k], l);
    TailChain(m, heads[k], l);
    forall j: Bucket
      ensures Chain(m[a := k], heads[k := Load(m, a)][j], if j == k then l[1..] else h.lists[j])
    {
      hide Chain;
      if j == k {
        forall x | x in l[1..]
          ensures x != a
        {
          var i :| 0 <= i < |l| - 1 && l[1..][i] == x;
          assert l[i + 1] == x;
        }
        ChainFrame(m, m[a := k], Load(m, a), l[1..]);
      } else {
        forall x | x in h.lists[j]
          ensures x != a
        {
          ListCellsAreCells(h, j, x);
          ListCellsAreCells(h, k, a);
        }
        ChainFrame(m, m[a := k], heads[j], h.lists[j]);
      }
    }
  }

  lemma TailChain(m: Memory, head: nat, l: seq<nat>)
    requires Chain(m, head, l) && l != []
    ensures Chain(m, Load(m, l[0]), l[1..])
  {
    var t := l[1..];
    forall i: nat | i < |t|
      ensures Load(m, t[i]) == First(t[i + 1..])
    {
      assert t[i] == l[i + 1] && t[i + 1..] == l[i + 2..];
    }
  }

  lemma ConsChain(m: Memory, head: nat, l: seq<nat>, a: nat)
    requires Chain(m, head, l) && a !in l && a != NULL
    ensures Chain(m[a := head], a, [a] + l)
  {
    var m', c := m[a := head], [a] + l;
    forall i: nat | i < |c|
      ensures Load(m', c[i]) == First(c[i + 1..])
    {
      if i == 0 {
        assert c[1..] == l;
      } else {
        assert c[i] == l[i - 1] && c[i + 1..] == l[i..];
      }
    }
  }

  lemma FreeSmallTags(m: Memory, h: Heap, p: nat, v: nat)
    requires HeapOk(h) && p in h.live && h.live[p].Small? && AllocOk(h, p, h.live[p]) && Tags(m, h)
    ensures Tags(m[p - WORD := v], Dealloc(h, p))
  {
    hide HeapOk, ClassSize;
    var h' := Dealloc(h, p);
    forall q | q in h'.live
      ensures Tagged(m[p - WORD := v], q, h'.live[q])
    {
      CellStoreTags(m, h, p - WORD, v, q);
    }
  }

  lemma SmallTag(m: Memory, h: Heap, p: nat)
    requires HeapOk(h) && h.arenaStart > 0 && Tags(m, h) && p in h.live && h.live[p].Small?
    ensures AllocOk(h, p, h.live[p]) && p > WORD && p - WORD in h.cells && Load(m, p - WORD) == h.live[p].bucket
  {
    hide HeapOk, ClassSize;
    HeapParts(h);
    LiveIsOk(h, p);
    LiveInRegion(h, p);
    assert Tagged(m, p, h.live[p]);
  }

  /** Returning a cell: its word becomes the old head, the list's head the cell. */
  lemma FreeSmallImage(m: Memory, heads: Heads, h: Heap, p: nat)
    requires HeapOk(h) && Image(m, heads, h) && p in h.live && h.live[p].Small?
    ensures AllocOk(h, p, h.live[p]) && p > WORD && Load(m, p - WORD) == h.live[p].bucket
    ensures Image(m[p - WORD := heads[h.live[p].bucket]], heads[h.live[p].bucket := p - WORD], Dealloc(h, p))
  {
    hide Linked, HeapOk, ClassSize, Chain, Tags, BlocksOk, CellsOk, ListsOk, LiveOk, NoCellLost, AllocOk;
    HeapParts(h);
    SmallTag(m, h, p);
    var k := h.live[p].bucket;
    CellStoreLinks(m, h, p - WORD, heads[k]);
    FreeSmallChains(m, heads, h, p);
    FreeSmallTags(m, h, p, heads[k]);
  }

  lemma FreeSmallChains(m: Memory, heads: Heads, h: Heap, p: nat)
    requires ListsOk(h) && Chains(m, heads, h) && p in h.live && h.live[p].Small? && p > WORD
    ensures var k, a := h.live[p].bucket, p - WORD;
            forall j: Bucket ::
              Chain(m[a := heads[k]], heads[k := a][j], if j == k then [a] + h.lists[k] else h.lists[j])
  {
    hide Chain, ListsOk;
    var k, a := h.live[p].bucket, p - WORD;
    forall j: Bucket
      ensures Chain(m[a := heads[k]], heads[k := a][j], if j == k then [a] + h.lists[k] else h.lists[j])
    {
      assert Chain(m, heads[j], h.lists[j]);
      forall x | x in h.lists[j]
        ensures x != a
      {
        ListCellsAreCells(h, j, x);
      }
      if j == k {
        ConsChain(m, heads[k], h.lists[k], a);
      } else {
        ChainFrame(m, m[a := heads[k]], heads[j], h.lists[j]);
      }
    }
  }

  // ---------------------------------------------------------------- fresh cells

  lemma CarvedIsQuiet(h: Heap, k: Bucket)
    requires HeapOk(h) && RoundUp8(h.arenaPtr) + CellSize(k) <= h.arenaEnd
    ensures Quiet(h, RoundUp8(h.arenaPtr))
  {
    hide ClassSize, IsUsed, HeaderWord, Placed, AlignedTo, ListsOk, NoCellLost, SizesAligned, NoFreeNeighbours;
    hide RoundUp8;
    var a := RoundUp8(h.arenaPtr);
    CarveIsFresh(h, k);
    if HeaderWord(h.arenaEnd, h.blocks, a) {
      HeaderAboveArena(h.arenaEnd, h.blocks, a);
    }
    forall p
      ensures !PrefixWord(h, p, a)
    {
      if PrefixWord(h, p, a) {
        assert AllocOk(h, p, h.live[p]);
        PrefixAboveArena(h, p);
      }
    }
  }

  lemma PrefixAboveArena(h: Heap, p: nat)
    requires p in h.live && h.live[p].Large? && AllocOk(h, p, h.live[p])
    ensures h.arenaEnd + HEADER + 2 * WORD <= p
  {
    hide IsUsed, AlignedTo;
    var x := h.live[p];
    UsedApart(h.arenaEnd, h.blocks, x.block, x.blockSize, x.block, x.blockSize);
  }

  lemma CarveImage(m: Memory, heads: Heads, h: Heap, k: Bucket, size: nat)
    requires HeapOk(h) && Image(m, heads, h) && RoundUp8(h.arenaPtr) + CellSize(k) <= h.arenaEnd
    ensures Image(m[RoundUp8(h.arenaPtr) := k], heads, Carve(h, k, size))
  {
    hide HeapOk, Linked, Chain, Quiet, ClassSize, RoundUp8;
    var a := RoundUp8(h.arenaPtr);
    CarvedIsQuiet(h, k);
    QuietFrame(m, m[a := k], heads, h);
  }

  // ---------------------------------------------------------------- blocks

  /** Rewriting headers only keeps lists and tags. */
  lemma HeadersFrame(m: Memory, m': Memory, heads: Heads, h: Heap)
    requires HeapOk(h) && Chains(m, heads, h) && Tags(m, h) && OnlyHeaders(m, m', h.arenaEnd, h.blocks)
    ensures Chains(m', heads, h) && Tags(m', h)
  {
    hide HeapOk, HeaderWord, Chain, ClassSize, IsUsed, AlignedTo;
    HeapParts(h);
    forall k: Bucket
      ensures Chain(m', heads[k], h.lists[k])
    {
      forall x | x in h.lists[k]
        ensures Load(m', x) == Load(m, x)
      {
        ListCellsAreCells(h, k, x);
        CellWordIsOwn(h, x);
      }
      ChainFrame(m, m', heads[k], h.lists[k]);
    }
    forall p | p in h.live
      ensures Tagged(m', p, h.live[p])
    {
      TagKept(m, m', h, p);
    }
  }

  lemma TagKept(m: Memory, m': Memory, h: Heap, p: nat)
    requires HeapOk(h) && p in h.live && Tagged(m, p, h.live[p]) && OnlyHeaders(m, m', h.arenaEnd, h.blocks)
    ensures Tagged(m', p, h.live[p])
  {
    hide HeapOk, HeaderWord, ClassSize, IsUsed, AlignedTo, LiveOk;
    HeapParts(h);
    LiveIsOk(h, p);
    var x := h.live[p];
    if x.Small? {
      CellWordIsOwn(h, p - WORD);
    } else {
      PayloadIsNoHeader(h, p, p - WORD);
      PayloadIsNoHeader(h, p, p - 2 * WORD);
    }
  }

  lemma PayloadIsNoHeader(h: Heap, p: nat, x: nat)
    requires p in h.live && h.live[p].Large? && IsUsed(h.arenaEnd, h.blocks, h.live[p].block, h.live[p].blockSize)
    requires h.live[p].block + HEADER <= x < h.live[p].block + HEADER + h.live[p].blockSize
    ensures !HeaderWord(h.arenaEnd, h.blocks, x)
  {
    hide IsUsed, HeaderWord;
    if HeaderWord(h.arenaEnd, h.blocks, x) {
      HeaderOutsidePayload(h.arenaEnd, h.blocks, h.live[p].block, h.live[p].blockSize, x);
    }
  }

  /** Taking a block. */
  lemma ReserveImage(m: Memory, m': Memory, heads: Heads, h: Heap, i: nat, n: nat)
    requires HeapOk(h) && Image(m, heads, h) && i < |h.blocks| && h.blocks[i].free
    requires h.blocks[i].size >= n && n % 8 == 0
    requires Linked(m', h.arenaEnd, Take(h.blocks, i, n)) && OnlyHeaders(m, m', h.arenaEnd, Take(h.blocks, i, n))
    ensures Image(m', heads, Reserve(h, i, n))
  {
    hide HeapOk, Take, Linked, OnlyHeaders, Chain, Tagged, Unclaimed;
    ReserveKeepsHeap(h, i, n);
    HeadersFrame(m, m', heads, Reserve(h, i, n));
  }

  /** Releasing a block. */
  lemma FreeLargeImage(m: Memory, m': Memory, heads: Heads, h: Heap, p: nat)
    requires HeapOk(h) && Image(m, heads, h) && p in h.live && h.live[p].Large? && AllocOk(h, p, h.live[p])
    requires Linked(m', h.arenaEnd, Dealloc(h, p).blocks) && OnlyHeaders(m, m', h.arenaEnd, h.blocks)
    ensures Image(m', heads, Dealloc(h, p))
  {
    hide HeapOk, Linked, OnlyHeaders, Chain, Tagged, AllocOk, Release, IndexOf;
    HeadersFrame(m, m', heads, h);
  }

  // ---------------------------------------------------------------- inside a block just taken

  lemma UnclaimedIsQuiet(h: Heap, b: nat, m: nat, x: nat)
    requires HeapOk(h) && Unclaimed(h, b, m) && b + HEADER <= x < b + HEADER + m
    ensures Quiet(h, x)
  {
    hide HeapOk, IsUsed, HeaderWord, ClassSize, AlignedTo;
    HeapParts(h);
    if HeaderWord(h.arenaEnd, h.blocks, x) {
      HeaderOutsidePayload(h.arenaEnd, h.blocks, b, m, x);
    }
    UnclaimedIsEmpty(h, b, m, x);
    forall p
      ensures !PrefixWord(h, p, x)
    {
      if PrefixWord(h, p, x) {
        LiveIsOk(h, p);
        UsedApart(h.arenaEnd, h.blocks, b, m, h.live[p].block, h.live[p].blockSize);
      }
    }
  }

  lemma ClaimImage(m: Memory, heads: Heads, h: Heap, b: nat, n: nat, p: nat, size: nat, align: nat)
    requires HeapOk(h) && Image(m, heads, h) && Unclaimed(h, b, n)
    requires b + HEADER + 2 * WORD <= p && p + size <= b + HEADER + n
    ensures Image(m[p - 2 * WORD := SENTINEL][p - WORD := b], heads, Claim(h, b, n, p, size, align))
  {
    hide HeapOk, Linked, Chain, Quiet, Unclaimed;
    UnclaimedIsQuiet(h, b, n, p - 2 * WORD);
    UnclaimedIsQuiet(h, b, n, p - WORD);
    QuietFrame(m, m[p - 2 * WORD := SENTINEL][p - WORD := b], heads, h);
  }

  ghost predicate SameOutside(m: Memory, m': Memory, s: set<nat>) {
    forall x: nat | x !in s :: Load(m', x) == Load(m, x)
  }

  lemma SlabIsQuiet(m: Memory, m': Memory, h: Heap, b: nat, n: nat, k: Bucket, count: nat)
    requires HeapOk(h) && Unclaimed(h, b, n) && n >= count * CellSize(k) && SameOutside(m, m', SlabSet(b, k, count))
    ensures SameButQuiet(m, m', h)
  {
    hide HeapOk, Unclaimed, Quiet, SlabSet, ClassSize, SlabCell;
    forall x: nat | !Quiet(h, x)
      ensures Load(m', x) == Load(m, x)
    {
      if x in SlabSet(b, k, count) {
        var j := SlabMember(b, k, count, x);
        UnclaimedAligned(h, b, n);
        SlabCellFacts(b, k, j, count);
        UnclaimedIsQuiet(h, b, n, x);
      }
    }
  }

  lemma UnclaimedAligned(h: Heap, b: nat, n: nat)
    requires Unclaimed(h, b, n)
    ensures b % 8 == 0
  {
  }

  /** Cutting a block just taken into cells threaded on an empty list. */
  lemma CutImage(m: Memory, m': Memory, heads: Heads, head: nat, h: Heap, b: nat, n: nat, k: Bucket, count: nat,
                 size: nat)
    requires HeapOk(h) && Image(m, heads, h) && Unclaimed(h, b, n) && n >= count * CellSize(k) && h.lists[k] == []
    requires SameOutside(m, m', SlabSet(b, k, count)) && Chain(m', head, SlabList(b, k, count))
    requires Load(m', SlabCell(b, k, 0)) == k
    ensures Image(m', heads[k := head], Cut(h, b, n, k, count, size))
  {
    hide HeapOk, Linked, Chain, SlabSet, SlabCell, SlabList, Unclaimed, SameButQuiet, ClassSize, CellSize, SameOutside;
    SlabIsQuiet(m, m', h, b, n, k, count);
    QuietFrame(m, m', heads, h);
    assert SlabList(b, k, count) + [] == SlabList(b, k, count);
  }

  lemma SlabListStep(m: Memory, head: nat, b: nat, k: Bucket, i: nat)
    requires i > 0 && b % 8 == 0 && Chain(m, head, SlabList(b, k, i))
    ensures Chain(m[SlabCell(b, k, i) := head], SlabCell(b, k, i), SlabList(b, k, i + 1))
  {
    hide Chain, SlabCell, ClassSize, CellSize;
    var a, l := SlabCell(b, k, i), SlabList(b, k, i);
    SlabListAt(b, k, i);
    forall x | x in l
      ensures x != a
    {
      var j :| 0 <= j < |l| && l[j] == x;
      SlabCellsApart(b, k, i - 1 - j, i);
    }
    SlabCellFacts(b, k, i, i + 1);
    ConsChain(m, head, l, a);
  }

  lemma SlabSetStep(m: Memory, m': Memory, b: nat, k: Bucket, i: nat, v: nat)
    requires SameOutside(m, m', SlabSet(b, k, i))
    ensures SameOutside(m, m'[SlabCell(b, k, i) := v], SlabSet(b, k, i + 1))
  {
    hide SlabCell;
  }

  lemma SlabFirst(m: Memory, m': Memory, head: nat, b: nat, k: Bucket, count: nat, v: nat)
    requires count > 0 && SameOutside(m, m', SlabSet(b, k, count)) && Chain(m', head, SlabList(b, k, count))
    ensures SameOutside(m, m'[SlabCell(b, k, 0) := v], SlabSet(b, k, count))
    ensures Chain(m'[SlabCell(b, k, 0) := v], head, SlabList(b, k, count))
  {
    hide SlabCell, Chain, SlabList;
    var l := SlabList(b, k, count);
    forall x | x in l
      ensures x != SlabCell(b, k, 0)
    {
      var i :| 0 <= i < |l| && l[i] == x;
      SlabListFacts(b, k, count, i);
    }
    ChainFrame(m', m'[SlabCell(b, k, 0) := v], head, l);
  }

  // ---------------------------------------------------------------- the callers' words

  /** Every word of a live payload belongs to its holder alone. */
  lemma PayloadIsQuiet(h: Heap, p: nat, x: nat)
    requires HeapOk(h) && p in h.live && p <= x < p + Capacity(h, p)
    ensures Quiet(h, x)
  {
    hide HeapOk, IsUsed, HeaderWord, ClassSize, AlignedTo, Placed, Before, BlocksOk, CellsOk, LiveOk;
    HeapParts(h);
    LiveIsOk(h, p);
    LiveInRegion(h, p);
    assert !HeaderWord(h.arenaEnd, h.blocks, x) by {
      PayloadNoHeader(h, p, x);
    }
    assert x !in h.cells by {
      PayloadNoCell(h, p, x);
    }
    forall q
      ensures !PrefixWord(h, q, x)
    {
      if PrefixWord(h, q, x) {
        PayloadNoPrefix(h, p, q, x);
      }
    }
  }

  lemma PayloadNoHeader(h: Heap, p: nat, x: nat)
    requires HeapOk(h) && p in h.live && p <= x < p + Capacity(h, p)
    ensures !HeaderWord(h.arenaEnd, h.blocks, x)
  {
    hide HeapOk, IsUsed, HeaderWord, ClassSize, AlignedTo, Placed;
    HeapParts(h);
    LiveIsOk(h, p);
    if h.live[p].Large? {
      PayloadIsNoHeader(h, p, x);
    } else if HeaderWord(h.arenaEnd, h.blocks, x) {
      HeaderOutsideCell(h, p - WORD, CellSize(h.live[p].bucket), x);
    }
  }

  lemma PayloadNoCell(h: Heap, p: nat, x: nat)
    requires HeapOk(h) && p in h.live && p <= x < p + Capacity(h, p)
    ensures x !in h.cells
  {
    hide HeapOk, IsUsed, ClassSize, AlignedTo, Placed, BlocksOk;
    HeapParts(h);
    LiveIsOk(h, p);
    if x in h.cells && h.live[p].Large? {
      PlacedCellMeetsBlock(h, x, CellSize(h.cells[x]), h.live[p].block, h.live[p].blockSize);
    }
  }

  lemma PayloadNoPrefix(h: Heap, p: nat, q: nat, x: nat)
    requires HeapOk(h) && p in h.live && p <= x < p + Capacity(h, p) && q in h.live && h.live[q].Large?
    ensures !PrefixWord(h, q, x)
  {
    hide HeapOk, IsUsed, ClassSize, AlignedTo;
    HeapParts(h);
    LiveIsOk(h, p);
    LiveIsOk(h, q);
    if p != q {
      LiveApart(h, p, q);
    }
  }

  /** Whatever word callers write into what they hold, the heap's own structure stays intact. */
  lemma CallersCannotDisturb(m: Memory, heads: Heads, h: Heap, p: nat, x: nat, v: nat)
    requires HeapOk(h) && Image(m, heads, h) && p in h.live && p <= x && x + WORD <= p + Capacity(h, p) && x % WORD == 0
    ensures Image(m[x := v], heads, h)
  {
    hide HeapOk, Image, Quiet, Capacity;
    PayloadIsQuiet(h, p, x);
    QuietFrame(m, m[x := v], heads, h);
  }
}
