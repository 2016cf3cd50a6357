/** Every operation of the allocator keeps the heap invariant. */
module HeapSafety {
  import opened Bytes
  import opened LargeList
  import opened HeapModel

  // ---------------------------------------------------------------- reusing a free cell

  lemma PopKeepsHeap(h: Heap, k: Bucket, size: nat)
    requires HeapOk(h) && h.lists[k] != [] && size <= ClassSize(k)
    ensures HeapOk(Pop(h, k, size)) && h.lists[k][0] + WORD !in h.live
  {
    hide BlocksOk, ClassSize, AlignedTo, IsUsed, Placed;
    var h', a := Pop(h, k, size), h.lists[k][0];
    assert IsFreeCell(h, a, k);
    assert BlocksOk(h') by {
      SameBlocks(h, h');
    }
    assert CellsOk(h') by {
      forall x | x in h.cells
        ensures Placed(h', x, CellSize(h.cells[x]))
      {
        SamePlaced(h, h', x, CellSize(h.cells[x]));
      }
    }
    assert LiveOk(h') by {
      forall p | p in h'.live
        ensures AllocOk(h', p, h'.live[p])
      {
        assert p != a + WORD ==> AllocOk(h, p, h.live[p]);
      }
    }
    PopLists(h, k, size);
  }

  lemma SameBlocks(h: Heap, h': Heap)
    requires BlocksOk(h) && h'.blocks == h.blocks && h'.slabs == h.slabs
    requires h'.arenaEnd == h.arenaEnd && h'.arenaStart == h.arenaStart && h'.arenaPtr == h.arenaPtr
    ensures BlocksOk(h')
  {
  }

  lemma SamePlaced(h: Heap, h': Heap, a: nat, n: nat)
    requires Placed(h, a, n) && h'.slabs == h.slabs && h'.arenaStart == h.arenaStart && h'.arenaPtr >= h.arenaPtr
    ensures Placed(h', a, n)
  {
    if b :| Inside(h, b, a, n) {
      assert Inside(h', b, a, n);
    }
  }

  lemma PopLists(h: Heap, k: Bucket, size: nat)
    requires ListsOk(h) && NoCellLost(h) && h.lists[k] != []
    ensures ListsOk(Pop(h, k, size)) && NoCellLost(Pop(h, k, size))
  {
    hide ClassSize;
    var h', a := Pop(h, k, size), h.lists[k][0];
    assert IsFreeCell(h, a, k);
    forall j: Bucket, i | 0 <= i < |h'.lists[j]|
      ensures IsFreeCell(h', h'.lists[j][i], j)
    {
      if j == k {
        assert h'.lists[j][i] == h.lists[k][i + 1];
      }
      assert IsFreeCell(h, h'.lists[j][i], j);
    }
    forall x | x in h'.cells
      ensures (x + WORD in h'.live && h'.live[x + WORD].Small?) || x in h'.lists[h'.cells[x]]
    {
      if x != a && h.cells[x] == k && x in h.lists[k] {
        var i :| 0 <= i < |h.lists[k]| && h.lists[k][i] == x;
        assert h'.lists[k][i - 1] == x;
      }
    }
  }

  // ---------------------------------------------------------------- returning a cell

  lemma FreeSmallKeepsHeap(h: Heap, p: nat)
    requires HeapOk(h) && p in h.live && h.live[p].Small?
    ensures AllocOk(h, p, h.live[p]) && HeapOk(Dealloc(h, p))
  {
    hide BlocksOk, ClassSize, AlignedTo, IsUsed, Placed;
    assert AllocOk(h, p, h.live[p]);
    var h', k, a := Dealloc(h, p), h.live[p].bucket, p - WORD;
    assert BlocksOk(h') by {
      SameBlocks(h, h');
    }
    assert CellsOk(h') by {
      forall x | x in h.cells
        ensures Placed(h', x, CellSize(h.cells[x]))
      {
        SamePlaced(h, h', x, CellSize(h.cells[x]));
      }
    }
    FreeSmallLive(h, p, h');
    FreeSmallLists(h, p);
  }

  lemma FreeSmallLive(h: Heap, p: nat, h': Heap)
    requires HeapOk(h) && p in h.live && h.live[p].Small? && AllocOk(h, p, h.live[p]) && h' == Dealloc(h, p)
    ensures LiveOk(h')
  {
    hide BlocksOk, CellsOk, ListsOk, NoCellLost, ClassSize, AlignedTo, IsUsed, Placed;
    forall q | q in h'.live
      ensures AllocOk(h', q, h'.live[q])
    {
      assert AllocOk(h, q, h.live[q]);
    }
  }

  lemma FreeSmallLists(h: Heap, p: nat)
    requires ListsOk(h) && NoCellLost(h) && p in h.live && h.live[p].Small? && AllocOk(h, p, h.live[p])
    ensures ListsOk(Dealloc(h, p)) && NoCellLost(Dealloc(h, p))
  {
    hide ClassSize;
    var h', k, a := Dealloc(h, p), h.live[p].bucket, p - WORD;
    forall j: Bucket, i | 0 <= i < |h'.lists[j]|
      ensures IsFreeCell(h', h'.lists[j][i], j)
    {
      if j == k && i > 0 {
        assert h'.lists[j][i] == h.lists[k][i - 1];
        assert IsFreeCell(h, h.lists[k][i - 1], k);
      } else if j != k {
        assert IsFreeCell(h, h.lists[j][i], j);
      }
    }
    forall i | 0 <= i < |h.lists[k]|
      ensures h.lists[k][i] != a
    {
      assert IsFreeCell(h, h.lists[k][i], k);
    }
    forall x | x in h'.cells
      ensures (x + WORD in h'.live && h'.live[x + WORD].Small?) || x in h'.lists[h'.cells[x]]
    {
      if x == a {
        assert h'.lists[k][0] == a;
      } else if x in h.lists[h.cells[x]] && h.cells[x] == k {
        var i :| 0 <= i < |h.lists[k]| && h.lists[k][i] == x;
        assert h'.lists[k][i + 1] == x;
      }
    }
  }

  // ---------------------------------------------------------------- carving from the arena

  lemma SlabsAboveArena(h: Heap, b: nat)
    requires BlocksOk(h) && b in h.slabs
    ensures h.arenaEnd <= b
  {
    UsedApart(h.arenaEnd, h.blocks, b, h.slabs[b], b, h.slabs[b]);
  }

  /** A stretch of arena beyond the bump pointer meets no cell and no payload. */
  lemma BeyondPtrIsUnused(h: Heap, a: nat, n: nat, x: nat)
    requires BlocksOk(h) && h.arenaPtr <= a && a + n <= h.arenaEnd && n >= 16
    ensures x in h.cells && Placed(h, x, CellSize(h.cells[x])) ==> Before(x, CellSize(h.cells[x]), a, n)
    ensures x in h.live && h.live[x].Large? && LargeOk(h, x, h.live[x]) ==> a + n <= x
  {
    hide ClassSize, AlignedTo;
    if x in h.cells && Placed(h, x, CellSize(h.cells[x])) {
      if b :| Inside(h, b, x, CellSize(h.cells[x])) {
        SlabsAboveArena(h, b);
      }
    }
    if x in h.live && h.live[x].Large? && LargeOk(h, x, h.live[x]) {
      var y := h.live[x];
      UsedApart(h.arenaEnd, h.blocks, y.block, y.blockSize, y.block, y.blockSize);
    }
  }

  lemma CarveIsFresh(h: Heap, k: Bucket)
    requires HeapOk(h) && RoundUp8(h.arenaPtr) + CellSize(k) <= h.arenaEnd
    ensures var a := RoundUp8(h.arenaPtr); a !in h.cells && a + WORD !in h.live
  {
    hide ClassSize, AlignedTo, IsUsed, NoFreeNeighbours, SizesAligned, Placed;
    var a := RoundUp8(h.arenaPtr);
    BeyondPtrIsUnused(h, a, CellSize(k), a);
    BeyondPtrIsUnused(h, a, CellSize(k), a + WORD);
    assert a + WORD in h.live ==> AllocOk(h, a + WORD, h.live[a + WORD]);
  }

  lemma CarveKeepsHeap(h: Heap, k: Bucket, size: nat)
    requires HeapOk(h) && size <= ClassSize(k) && RoundUp8(h.arenaPtr) + CellSize(k) <= h.arenaEnd
    ensures HeapOk(Carve(h, k, size)) && RoundUp8(h.arenaPtr) + WORD !in h.live
  {
    hide BlocksOk, CellsOk, ListsOk, LiveOk, NoCellLost, ClassSize, CellSize, Carve;
    CarveIsFresh(h, k);
    CarveBlocks(h, k, size);
    CarveCells(h, k, size);
    CarveLive(h, k, size);
    CarveLists(h, k, size);
  }

  lemma CarveBlocks(h: Heap, k: Bucket, size: nat)
    requires BlocksOk(h) && RoundUp8(h.arenaPtr) + CellSize(k) <= h.arenaEnd
    ensures BlocksOk(Carve(h, k, size))
  {
    hide ClassSize, IsUsed, NoFreeNeighbours, SizesAligned;
  }

  lemma CarveLive(h: Heap, k: Bucket, size: nat)
    requires LiveOk(h) && size <= ClassSize(k) && RoundUp8(h.arenaPtr) !in h.cells
    requires RoundUp8(h.arenaPtr) + WORD !in h.live
    ensures LiveOk(Carve(h, k, size))
  {
    hide ClassSize, IsUsed, AlignedTo;
    var h', a := Carve(h, k, size), RoundUp8(h.arenaPtr);
    forall q | q in h'.live
      ensures AllocOk(h', q, h'.live[q])
    {
      if q != a + WORD {
        assert AllocOk(h, q, h.live[q]);
      }
    }
  }

  lemma CarveCells(h: Heap, k: Bucket, size: nat)
    requires BlocksOk(h) && CellsOk(h) && RoundUp8(h.arenaPtr) + CellSize(k) <= h.arenaEnd
    requires RoundUp8(h.arenaPtr) !in h.cells
    ensures CellsOk(Carve(h, k, size))
  {
    var h', a := Carve(h, k, size), RoundUp8(h.arenaPtr);
    assert Placed(h', a, CellSize(k));
    hide ClassSize, IsUsed, NoFreeNeighbours, SizesAligned, Placed;
    forall x | x in h'.cells
      ensures x % 8 == 0 && Placed(h', x, CellSize(h'.cells[x]))
    {
      if x != a {
        SamePlaced(h, h', x, CellSize(h.cells[x]));
      }
    }
    forall x | x in h.cells
      ensures Before(x, CellSize(h.cells[x]), a, CellSize(k)) && Before(a, CellSize(k), x, CellSize(h.cells[x]))
    {
      BeyondPtrIsUnused(h, a, CellSize(k), x);
    }
  }

  lemma CarveLists(h: Heap, k: Bucket, size: nat)
    requires ListsOk(h) && NoCellLost(h) && RoundUp8(h.arenaPtr) !in h.cells && RoundUp8(h.arenaPtr) + WORD !in h.live
    ensures ListsOk(Carve(h, k, size)) && NoCellLost(Carve(h, k, size))
  {
    hide ClassSize;
    var h', a := Carve(h, k, size), RoundUp8(h.arenaPtr);
    forall j: Bucket, i | 0 <= i < |h'.lists[j]|
      ensures IsFreeCell(h', h'.lists[j][i], j)
    {
      assert IsFreeCell(h, h.lists[j][i], j);
    }
  }

  // ---------------------------------------------------------------- taking a block

  lemma FreeNotUsed(start: nat, bs: seq<Block>, i: nat, size: nat)
    requires i < |bs| && bs[i].free
    ensures !IsUsed(start, bs, Addr(start, bs, i), size)
  {
    if j: nat :| UsedAt(start, bs, j, Addr(start, bs, i), size) {
      AddrInjective(start, bs, i, j);
    }
  }

  lemma {:induction false} AddrAligned(start: nat, bs: seq<Block>, i: nat)
    requires start % 8 == 0 && SizesAligned(bs) && i < |bs|
    ensures Addr(start, bs, i) % 8 == 0
    decreases i
  {
    if i > 0 {
      AddrAligned(start, bs, i - 1);
    }
  }

  /** The heap once block `i` is taken for `n` bytes but nothing is put into it yet. */
  ghost function Reserve(h: Heap, i: nat, n: nat): Heap
    requires i < |h.blocks| && h.blocks[i].size >= n
  {
    h.(blocks := Take(h.blocks, i, n))
  }

  /** Block `b` of `m` bytes is in use and nobody has anything in it. */
  ghost predicate Unclaimed(h: Heap, b: nat, m: nat) {
    && IsUsed(h.arenaEnd, h.blocks, b, m) && b !in h.slabs && b % 8 == 0
    && forall p | p in h.live && h.live[p].Large? :: h.live[p].block != b
  }

  lemma ReserveBlocks(h: Heap, i: nat, n: nat)
    requires BlocksOk(h) && i < |h.blocks| && h.blocks[i].free && h.blocks[i].size >= n && n % 8 == 0
    ensures BlocksOk(Reserve(h, i, n))
  {
    hide NoFreeNeighbours, SizesAligned, IsUsed, Take;
    TakeKeepsOrder(h.blocks, i, n);
    forall b | b in h.slabs
      ensures IsUsed(h.arenaEnd, Take(h.blocks, i, n), b, h.slabs[b])
    {
      TakeUsed(h.arenaEnd, h.blocks, i, n, b, h.slabs[b]);
    }
  }

  lemma ReserveCells(h: Heap, i: nat, n: nat)
    requires CellsOk(h) && ListsOk(h) && NoCellLost(h) && i < |h.blocks| && h.blocks[i].size >= n
    ensures CellsOk(Reserve(h, i, n)) && ListsOk(Reserve(h, i, n)) && NoCellLost(Reserve(h, i, n))
  {
    hide ClassSize, Take, Placed;
    var r := Reserve(h, i, n);
    forall a | a in h.cells
      ensures a % 8 == 0 && Placed(r, a, CellSize(r.cells[a]))
    {
      SamePlaced(h, r, a, CellSize(h.cells[a]));
    }
    forall k: Bucket, j | 0 <= j < |h.lists[k]|
      ensures IsFreeCell(r, r.lists[k][j], k)
    {
      assert IsFreeCell(h, h.lists[k][j], k);
    }
  }

  lemma ReserveLive(h: Heap, i: nat, n: nat)
    requires LiveOk(h) && i < |h.blocks| && h.blocks[i].free && h.blocks[i].size >= n
    ensures LiveOk(Reserve(h, i, n))
  {
    hide ClassSize, Take, AlignedTo, IsUsed;
    var r := Reserve(h, i, n);
    forall p | p in h.live
      ensures AllocOk(r, p, r.live[p])
    {
      assert AllocOk(h, p, h.live[p]);
      if h.live[p].Large? {
        TakeUsed(h.arenaEnd, h.blocks, i, n, h.live[p].block, h.live[p].blockSize);
      }
    }
  }

  lemma ReservedIsUnclaimed(h: Heap, i: nat, n: nat)
    requires BlocksOk(h) && LiveOk(h) && i < |h.blocks| && h.blocks[i].free && h.blocks[i].size >= n
    ensures i < |Take(h.blocks, i, n)| && Take(h.blocks, i, n)[i].size >= n
    ensures Unclaimed(Reserve(h, i, n), Addr(h.arenaEnd, h.blocks, i), Take(h.blocks, i, n)[i].size)
  {
    hide ClassSize, AlignedTo, IsUsed, NoFreeNeighbours, SizesAligned, Addr;
    var b, m := Addr(h.arenaEnd, h.blocks, i), Take(h.blocks, i, n)[i].size;
    TakeUsed(h.arenaEnd, h.blocks, i, n, b, m);
    AddrAligned(h.arenaEnd, h.blocks, i);
    if b in h.slabs {
      FreeNotUsed(h.arenaEnd, h.blocks, i, h.slabs[b]);
    }
    forall p | p in h.live && h.live[p].Large?
      ensures h.live[p].block != b
    {
      assert AllocOk(h, p, h.live[p]);
      FreeNotUsed(h.arenaEnd, h.blocks, i, h.live[p].blockSize);
    }
  }

  lemma ReserveKeepsHeap(h: Heap, i: nat, n: nat)
    requires HeapOk(h) && i < |h.blocks| && h.blocks[i].free && h.blocks[i].size >= n && n % 8 == 0
    ensures HeapOk(Reserve(h, i, n))
    ensures i < |Take(h.blocks, i, n)| && Take(h.blocks, i, n)[i].size >= n
    ensures Unclaimed(Reserve(h, i, n), Addr(h.arenaEnd, h.blocks, i), Take(h.blocks, i, n)[i].size)
  {
    hide BlocksOk, CellsOk, ListsOk, LiveOk, NoCellLost, Unclaimed, Reserve, Take;
    ReserveBlocks(h, i, n);
    ReserveCells(h, i, n);
    ReserveLive(h, i, n);
    ReservedIsUnclaimed(h, i, n);
  }

  /** No payload starts in an unclaimed block, and no cell reaches into it. */
  lemma UnclaimedIsEmpty(h: Heap, b: nat, m: nat, x: nat)
    requires BlocksOk(h) && CellsOk(h) && LiveOk(h) && Unclaimed(h, b, m)
    ensures b < x <= b + HEADER + m ==> x !in h.live
    ensures x in h.cells ==> Before(x, CellSize(h.cells[x]), b, HEADER + m)
  {
    hide ClassSize, AlignedTo, BlocksOk, IsUsed, Placed;
    if x in h.cells {
      PlacedCellMeetsBlock(h, x, CellSize(h.cells[x]), b, m);
    }
    if x in h.live {
      var y := h.live[x];
      assert AllocOk(h, x, y);
      if y.Small? {
        PlacedCellMeetsBlock(h, x - WORD, CellSize(y.bucket), b, m);
      } else {
        UsedApart(h.arenaEnd, h.blocks, b, m, y.block, y.blockSize);
      }
    }
  }

  // ---------------------------------------------------------------- a large payload

  /** Put a payload into an unclaimed block. */
  ghost function Claim(h: Heap, b: nat, m: nat, p: nat, size: nat, align: nat): Heap {
    h.(live := h.live[p := Large(b, m, size, align)])
  }

  lemma ClaimKeepsHeap(h: Heap, b: nat, m: nat, p: nat, size: nat, align: nat)
    requires HeapOk(h) && Unclaimed(h, b, m)
    requires b + HEADER + 2 * WORD <= p && p + size <= b + HEADER + m && AlignedTo(p, align) && p % 8 == 0
    ensures HeapOk(Claim(h, b, m, p, size, align)) && p !in h.live
  {
    hide ClassSize, AlignedTo, IsUsed, BlocksOk, Placed;
    var h' := Claim(h, b, m, p, size, align);
    UnclaimedIsEmpty(h, b, m, p);
    SameBlocks(h, h');
    ClaimCells(h, b, m, p, size, align);
    assert LiveOk(h') by {
      hide CellsOk, ListsOk, NoCellLost;
      forall q | q in h'.live
        ensures AllocOk(h', q, h'.live[q])
      {
        assert q != p ==> AllocOk(h, q, h.live[q]);
      }
    }
  }

  lemma ClaimCells(h: Heap, b: nat, m: nat, p: nat, size: nat, align: nat)
    requires HeapOk(h) && Unclaimed(h, b, m) && b < p <= b + HEADER + m && p !in h.live
    ensures var h' := Claim(h, b, m, p, size, align); CellsOk(h') && ListsOk(h') && NoCellLost(h')
  {
    hide ClassSize, AlignedTo, IsUsed, BlocksOk, Placed, LiveOk, Unclaimed;
    var h' := Claim(h, b, m, p, size, align);
    forall a | a in h.cells
      ensures a % 8 == 0 && Placed(h', a, CellSize(h.cells[a])) && a + WORD != p
    {
      SamePlaced(h, h', a, CellSize(h.cells[a]));
      UnclaimedIsEmpty(h, b, m, a);
    }
    forall k: Bucket, j | 0 <= j < |h.lists[k]|
      ensures IsFreeCell(h', h'.lists[k][j], k)
    {
      assert IsFreeCell(h, h.lists[k][j], k);
    }
  }

  lemma PayloadFits(b: nat, size: nat, align: nat)
    requires b % 8 == 0 && AlignOk(align)
    ensures var p := LargePayload(b, align);
            && b + HEADER + 2 * WORD <= p && p + size <= b + HEADER + LargeNeed(size, align)
            && AlignedTo(p, align) && p % 8 == 0
  {
    AlignUpIsWordAligned(b + HEADER + 2 * WORD, align);
  }

  lemma PlaceLargeKeepsHeap(h: Heap, i: nat, size: nat, align: nat)
    requires HeapOk(h) && AlignOk(align) && i < |h.blocks| && h.blocks[i].free
    requires h.blocks[i].size >= LargeNeed(size, align)
    ensures HeapOk(PlaceLarge(h, i, size, align)) && LargePayload(Addr(h.arenaEnd, h.blocks, i), align) !in h.live
  {
    hide HeapOk, Take, AlignUp, AlignedTo, IsUsed, RoundUp8, LargePayload, Addr;
    var n, b := LargeNeed(size, align), Addr(h.arenaEnd, h.blocks, i);
    ReserveKeepsHeap(h, i, n);
    PayloadFits(b, size, align);
    ClaimKeepsHeap(Reserve(h, i, n), b, Take(h.blocks, i, n)[i].size, LargePayload(b, align), size, align);
    assert PlaceLarge(h, i, size, align) ==
           Claim(Reserve(h, i, n), b, Take(h.blocks, i, n)[i].size, LargePayload(b, align), size, align);
  }

  // ---------------------------------------------------------------- freeing a large payload

  lemma LiveIsOk(h: Heap, p: nat)
    requires LiveOk(h) && p in h.live
    ensures AllocOk(h, p, h.live[p])
  {
  }

  lemma FreeLargeKeepsHeap(h: Heap, p: nat)
    requires HeapOk(h) && p in h.live && h.live[p].Large?
    ensures AllocOk(h, p, h.live[p]) && HeapOk(Dealloc(h, p))
  {
    hide BlocksOk, CellsOk, ListsOk, LiveOk, NoCellLost, AllocOk, Dealloc;
    LiveIsOk(h, p);
    FreeLargeBlocks(h, p);
    FreeLargeLive(h, p);
    FreeLargeCells(h, p);
  }

  lemma FreeLargeCells(h: Heap, p: nat)
    requires CellsOk(h) && ListsOk(h) && NoCellLost(h) && p in h.live && h.live[p].Large? && AllocOk(h, p, h.live[p])
    ensures CellsOk(Dealloc(h, p)) && ListsOk(Dealloc(h, p)) && NoCellLost(Dealloc(h, p))
  {
    hide BlocksOk, LiveOk, ClassSize, IsUsed, AlignedTo, Placed, Release, IndexOf;
    var h' := Dealloc(h, p);
    forall a | a in h.cells
      ensures a % 8 == 0 && Placed(h', a, CellSize(h.cells[a]))
    {
      SamePlaced(h, h', a, CellSize(h.cells[a]));
    }
    forall k: Bucket, j | 0 <= j < |h.lists[k]|
      ensures IsFreeCell(h', h'.lists[k][j], k)
    {
      assert IsFreeCell(h, h.lists[k][j], k);
    }
  }

  lemma FreeLargeBlocks(h: Heap, p: nat)
    requires BlocksOk(h) && p in h.live && h.live[p].Large? && AllocOk(h, p, h.live[p])
    ensures BlocksOk(Dealloc(h, p))
  {
    hide NoFreeNeighbours, SizesAligned, IsUsed, Release, AlignedTo, Addr;
    var x := h.live[p];
    var i := IndexOf(h.arenaEnd, h.blocks, x.block, x.blockSize);
    ReleaseKeepsOrder(h.blocks, i);
    forall b | b in h.slabs
      ensures IsUsed(h.arenaEnd, Release(h.blocks, i), b, h.slabs[b])
    {
      ReleaseUsed(h.arenaEnd, h.blocks, i, b, h.slabs[b]);
    }
  }

  lemma FreeLargeLive(h: Heap, p: nat)
    requires LiveOk(h) && p in h.live && h.live[p].Large? && AllocOk(h, p, h.live[p])
    ensures LiveOk(Dealloc(h, p))
  {
    hide IsUsed, Release, AlignedTo, Addr, ClassSize;
    var x, h' := h.live[p], Dealloc(h, p);
    var i := IndexOf(h.arenaEnd, h.blocks, x.block, x.blockSize);
    forall q | q in h'.live
      ensures AllocOk(h', q, h'.live[q])
    {
      assert AllocOk(h, q, h.live[q]);
      if h.live[q].Large? {
        ReleaseUsed(h.arenaEnd, h.blocks, i, h.live[q].block, h.live[q].blockSize);
      }
    }
  }

  // ---------------------------------------------------------------- cutting a slab

  lemma MultipleInRange(j: nat, n: nat, c: nat)
    requires j < n && c % 8 == 0
    ensures 0 <= j * c && j * c + c <= n * c && (j * c) % 8 == 0
  {
    var d := n - j - 1;
    assert n * c == j * c + c + d * c;
    var e := c / 8;
    assert j * c == (j * e) * 8;
    DivModUnique(j * c, 8, j * e, 0);
  }

  lemma SlabCellFacts(b: nat, k: Bucket, j: nat, n: nat)
    requires j < n && b % 8 == 0
    ensures b + HEADER <= SlabCell(b, k, j) && SlabCell(b, k, j) + CellSize(k) <= b + HEADER + n * CellSize(k)
    ensures SlabCell(b, k, j) % 8 == 0
  {
    hide CellSize;
    MultipleInRange(j, n, CellSize(k));
    var x := j * CellSize(k);
    assert SlabCell(b, k, j) == b + HEADER + x;
  }

  lemma SlabCellsApart(b: nat, k: Bucket, i: nat, j: nat)
    requires i < j
    ensures SlabCell(b, k, i) + CellSize(k) <= SlabCell(b, k, j)
  {
    var c := CellSize(k);
    hide CellSize;
    assert (i + 1) * c <= j * c;
  }

  lemma {:induction false} SlabListAt(b: nat, k: Bucket, n: nat)
    ensures |SlabList(b, k, n)| == (if n == 0 then 0 else n - 1)
    ensures forall i | 0 <= i < |SlabList(b, k, n)| :: SlabList(b, k, n)[i] == SlabCell(b, k, n - 1 - i)
    decreases n
  {
    hide SlabCell;
    if n > 1 {
      SlabListAt(b, k, n - 1);
    }
  }

  /** Cut the unclaimed block `b` into `n` cells and hand out the first. */
  ghost function Cut(h: Heap, b: nat, m: nat, k: Bucket, n: nat, size: nat): Heap {
    HandOut(h.(slabs := h.slabs[b := m],
               cells := map a | a in h.cells.Keys + SlabSet(b, k, n) :: if a in SlabSet(b, k, n) then k else h.cells[a],
               lists := h.lists[k := SlabList(b, k, n) + h.lists[k]]),
            SlabCell(b, k, 0), k, size)
  }

  /** What an unclaimed block says about the cells that will be cut from it. */
  ghost predicate NewCells(h: Heap, b: nat, m: nat, k: Bucket, s: set<nat>) {
    && (forall a | a in s :: a !in h.cells && a + WORD !in h.live && a % 8 == 0)
    && (forall a | a in s :: b + HEADER <= a && a + CellSize(k) <= b + HEADER + m)
    && (forall a, c | a in s && c in s && a != c :: Before(a, CellSize(k), c, CellSize(k)))
    && (forall a, c | a in s && c in h.cells :: Before(a, CellSize(k), c, CellSize(h.cells[c])))
  }

  lemma SlabMember(b: nat, k: Bucket, n: nat, a: nat) returns (j: nat)
    requires a in SlabSet(b, k, n)
    ensures j < n && a == SlabCell(b, k, j)
  {
    hide SlabCell;
    j :| 0 <= j < n && a == SlabCell(b, k, j);
  }

  lemma NewCellFacts(h: Heap, b: nat, m: nat, k: Bucket, n: nat, a: nat)
    requires BlocksOk(h) && CellsOk(h) && LiveOk(h) && Unclaimed(h, b, m)
             && m >= n * CellSize(k) && a in SlabSet(b, k, n)
    ensures a !in h.cells && a + WORD !in h.live && a % 8 == 0
    ensures b + HEADER <= a && a + CellSize(k) <= b + HEADER + m
    ensures forall c | c in h.cells :: Before(a, CellSize(k), c, CellSize(h.cells[c]))
  {
    hide ClassSize, BlocksOk, CellsOk, LiveOk, IsUsed, SlabSet, SlabCell;
    var j := SlabMember(b, k, n, a);
    SlabCellFacts(b, k, j, n);
    UnclaimedIsEmpty(h, b, m, a + WORD);
    forall c | c in h.cells
      ensures Before(a, CellSize(k), c, CellSize(h.cells[c]))
    {
      UnclaimedIsEmpty(h, b, m, c);
    }
  }

  lemma NewCellsApart(b: nat, k: Bucket, n: nat, a: nat, c: nat)
    requires a in SlabSet(b, k, n) && c in SlabSet(b, k, n) && a != c
    ensures Before(a, CellSize(k), c, CellSize(k))
  {
    hide SlabSet, SlabCell, CellSize;
    var i := SlabMember(b, k, n, a);
    var j := SlabMember(b, k, n, c);
    if i < j {
      SlabCellsApart(b, k, i, j);
    } else {
      SlabCellsApart(b, k, j, i);
    }
  }

  lemma CutMakesNewCells(h: Heap, b: nat, m: nat, k: Bucket, n: nat)
    requires BlocksOk(h) && CellsOk(h) && LiveOk(h) && Unclaimed(h, b, m) && m >= n * CellSize(k)
    ensures NewCells(h, b, m, k, SlabSet(b, k, n))
  {
    hide ClassSize, CellSize, BlocksOk, CellsOk, LiveOk, Unclaimed, SlabSet, SlabCell, Before;
    var s := SlabSet(b, k, n);
    forall a | a in s
      ensures a !in h.cells && a + WORD !in h.live && a % 8 == 0
      ensures b + HEADER <= a && a + CellSize(k) <= b + HEADER + m
      ensures forall c | c in h.cells :: Before(a, CellSize(k), c, CellSize(h.cells[c]))
    {
      NewCellFacts(h, b, m, k, n, a);
    }
    forall a, c | a in s && c in s && a != c
      ensures Before(a, CellSize(k), c, CellSize(k))
    {
      NewCellsApart(b, k, n, a, c);
    }
  }

  lemma CutBlocks(h: Heap, b: nat, m: nat, k: Bucket, n: nat, size: nat)
    requires BlocksOk(h) && Unclaimed(h, b, m)
    ensures BlocksOk(Cut(h, b, m, k, n, size))
  {
    hide NoFreeNeighbours, SizesAligned, IsUsed, SlabSet, SlabCell, SlabList;
  }

  lemma PlacedWithSlab(h: Heap, h': Heap, b: nat, a: nat, n: nat)
    requires b !in h.slabs && b in h'.slabs && h'.slabs - {b} == h.slabs
    requires h'.arenaStart == h.arenaStart && h'.arenaPtr == h.arenaPtr
    requires Placed(h, a, n) || Inside(h', b, a, n)
    ensures Placed(h', a, n)
  {
    if c :| Inside(h, c, a, n) {
      assert c in h'.slabs - {b};
      assert Inside(h', c, a, n);
    }
  }

  lemma CutCells(h: Heap, b: nat, m: nat, k: Bucket, n: nat, size: nat)
    requires CellsOk(h) && Unclaimed(h, b, m) && NewCells(h, b, m, k, SlabSet(b, k, n))
    ensures CellsOk(Cut(h, b, m, k, n, size))
  {
    hide ClassSize, Placed, SlabSet, SlabCell, SlabList, IsUsed, Before, CellSize;
    var h', s := Cut(h, b, m, k, n, size), SlabSet(b, k, n);
    assert h'.slabs - {b} == h.slabs;
    forall a | a in h'.cells
      ensures a % 8 == 0 && Placed(h', a, CellSize(h'.cells[a]))
    {
      assert a in s ==> Inside(h', b, a, CellSize(k));
      PlacedWithSlab(h, h', b, a, CellSize(h'.cells[a]));
    }
    forall a, c | a in h'.cells && c in h'.cells && a != c
      ensures Before(a, CellSize(h'.cells[a]), c, CellSize(h'.cells[c]))
    {
      if a in h.cells && c in s {
        assert Before(c, CellSize(k), a, CellSize(h.cells[a]));
        BeforeSym(c, CellSize(k), a, CellSize(h.cells[a]));
      }
    }
  }

  lemma BeforeSym(a: nat, n: nat, b: nat, m: nat)
    ensures Before(a, n, b, m) == Before(b, m, a, n)
  {
  }

  lemma CutLive(h: Heap, b: nat, m: nat, k: Bucket, n: nat, size: nat)
    requires LiveOk(h) && Unclaimed(h, b, m) && NewCells(h, b, m, k, SlabSet(b, k, n)) && n > 0 && size <= ClassSize(k)
    ensures LiveOk(Cut(h, b, m, k, n, size)) && SlabCell(b, k, 0) + WORD !in h.live
  {
    hide ClassSize, SlabCell, SlabList, IsUsed, Before, CellSize, AlignedTo;
    var h', s := Cut(h, b, m, k, n, size), SlabSet(b, k, n);
    assert SlabCell(b, k, 0) in s;
    hide SlabSet;
    forall q | q in h'.live
      ensures AllocOk(h', q, h'.live[q])
    {
      if q != SlabCell(b, k, 0) + WORD {
        assert AllocOk(h, q, h.live[q]);
        assert h.live[q].Small? ==> q - WORD in h.cells;
      }
    }
  }

  lemma SlabListFacts(b: nat, k: Bucket, n: nat, i: nat)
    requires i < |SlabList(b, k, n)|
    ensures SlabList(b, k, n)[i] in SlabSet(b, k, n) && SlabList(b, k, n)[i] != SlabCell(b, k, 0)
    ensures forall j | i < j < |SlabList(b, k, n)| :: SlabList(b, k, n)[i] != SlabList(b, k, n)[j]
  {
    hide SlabCell, SlabList, CellSize;
    SlabListAt(b, k, n);
    SlabCellsApart(b, k, 0, n - 1 - i);
    forall j | i < j < |SlabList(b, k, n)|
      ensures SlabList(b, k, n)[i] != SlabList(b, k, n)[j]
    {
      SlabCellsApart(b, k, n - 1 - j, n - 1 - i);
    }
  }

  lemma SlabListHasAll(b: nat, k: Bucket, n: nat, a: nat)
    requires a in SlabSet(b, k, n) && a != SlabCell(b, k, 0)
    ensures a in SlabList(b, k, n)
  {
    hide SlabCell, SlabList, SlabSet;
    SlabListAt(b, k, n);
    var j := SlabMember(b, k, n, a);
    assert SlabList(b, k, n)[n - 1 - j] == a;
  }

  lemma CutLists(h: Heap, b: nat, m: nat, k: Bucket, n: nat, size: nat)
    requires ListsOk(h) && NewCells(h, b, m, k, SlabSet(b, k, n)) && h.lists[k] == [] && n > 0
    ensures ListsOk(Cut(h, b, m, k, n, size))
  {
    hide ClassSize, SlabCell, SlabList, CellSize, Before;
    var h', s, l := Cut(h, b, m, k, n, size), SlabSet(b, k, n), SlabList(b, k, n);
    assert SlabCell(b, k, 0) in s;
    hide SlabSet;
    assert h'.lists[k] == l;
    forall j: Bucket, i | 0 <= i < |h'.lists[j]|
      ensures IsFreeCell(h', h'.lists[j][i], j)
    {
      if j == k {
        SlabListFacts(b, k, n, i);
      } else {
        assert IsFreeCell(h, h.lists[j][i], j);
      }
    }
    forall j: Bucket, i, i' | 0 <= i < i' < |h'.lists[j]|
      ensures h'.lists[j][i] != h'.lists[j][i']
    {
      if j == k {
        SlabListFacts(b, k, n, i);
      }
    }
  }

  lemma CutLosesNothing(h: Heap, b: nat, m: nat, k: Bucket, n: nat, size: nat)
    requires NoCellLost(h) && NewCells(h, b, m, k, SlabSet(b, k, n)) && h.lists[k] == [] && n > 0
    ensures NoCellLost(Cut(h, b, m, k, n, size))
  {
    hide ClassSize, SlabCell, SlabList, SlabSet, CellSize, Before;
    var h', s := Cut(h, b, m, k, n, size), SlabSet(b, k, n);
    assert h'.lists[k] == SlabList(b, k, n);
    forall a | a in h'.cells
      ensures (a + WORD in h'.live && h'.live[a + WORD].Small?) || a in h'.lists[h'.cells[a]]
    {
      if a in s && a != SlabCell(b, k, 0) {
        SlabListHasAll(b, k, n, a);
      }
    }
  }

  lemma CutSlabKeepsHeap(h: Heap, i: nat, k: Bucket, size: nat)
    requires HeapOk(h) && h.lists[k] == [] && size <= ClassSize(k)
    requires i < |h.blocks| && h.blocks[i].free && h.blocks[i].size >= SLAB_COUNT * CellSize(k)
    ensures HeapOk(CutSlab(h, i, k, size))
    ensures SlabCell(Addr(h.arenaEnd, h.blocks, i), k, 0) + WORD !in h.live
  {
    hide BlocksOk, CellsOk, ListsOk, LiveOk, NoCellLost, Take, Unclaimed, NewCells, ClassSize, CellSize, SlabCell;
    hide SlabSet, SlabList, Addr;
    var n, b := SLAB_COUNT * CellSize(k), Addr(h.arenaEnd, h.blocks, i);
    ReserveKeepsHeap(h, i, n);
    var r, m := Reserve(h, i, n), Take(h.blocks, i, n)[i].size;
    CutMakesNewCells(r, b, m, k, SLAB_COUNT);
    CutBlocks(r, b, m, k, SLAB_COUNT, size);
    CutCells(r, b, m, k, SLAB_COUNT, size);
    CutLive(r, b, m, k, SLAB_COUNT, size);
    CutLists(r, b, m, k, SLAB_COUNT, size);
    CutLosesNothing(r, b, m, k, SLAB_COUNT, size);
    assert CutSlab(h, i, k, size) == Cut(r, b, m, k, SLAB_COUNT, size);
  }

  // ---------------------------------------------------------------- one request

  /** A fresh payload of at least the size and alignment asked for, and nobody else's moved. */
  ghost predicate Served(h: Heap, h': Heap, p: nat, size: nat, align: nat) {
    && p !in h.live && p in h'.live && h'.live - {p} == h.live
    && h'.live[p].size == size && size <= Capacity(h', p) && AlignedTo(p, align) && p >= WORD
  }

  lemma SmallAligned(p: nat, align: nat)
    requires p % 8 == 0 && AlignOk(align) && align <= WORD
    ensures AlignedTo(p, align)
  {
    SmallPowersDivide(p);
  }

  lemma SmallServed(h: Heap, h': Heap, p: nat, k: Bucket, size: nat, align: nat)
    requires CellsOk(h') && LiveOk(h') && p !in h.live && h'.live == h.live[p := Small(k, size)]
    requires AlignOk(align) && align <= WORD
    ensures Served(h, h', p, size, align)
  {
    hide ClassSize, Placed, AlignedTo;
    assert AllocOk(h', p, h'.live[p]);
    assert h'.live - {p} == h.live;
    SmallAligned(p, align);
  }

  lemma PopServes(h: Heap, k: Bucket, size: nat, align: nat)
    requires HeapOk(h) && h.lists[k] != [] && size <= ClassSize(k) && AlignOk(align) && align <= WORD
    ensures HeapOk(Pop(h, k, size)) && Served(h, Pop(h, k, size), h.lists[k][0] + WORD, size, align)
  {
    hide HeapOk, ClassSize, Served, AlignOk;
    PopKeepsHeap(h, k, size);
    HeapParts(Pop(h, k, size));
    SmallServed(h, Pop(h, k, size), h.lists[k][0] + WORD, k, size, align);
  }

  lemma CarveServes(h: Heap, k: Bucket, size: nat, align: nat)
    requires HeapOk(h) && RoundUp8(h.arenaPtr) + CellSize(k) <= h.arenaEnd
             && size <= ClassSize(k) && AlignOk(align) && align <= WORD
    ensures HeapOk(Carve(h, k, size)) && Served(h, Carve(h, k, size), RoundUp8(h.arenaPtr) + WORD, size, align)
  {
    hide HeapOk, ClassSize, CellSize, Served, AlignOk, RoundUp8;
    CarveKeepsHeap(h, k, size);
    HeapParts(Carve(h, k, size));
    SmallServed(h, Carve(h, k, size), RoundUp8(h.arenaPtr) + WORD, k, size, align);
  }

  lemma CutSlabServes(h: Heap, i: nat, k: Bucket, size: nat, align: nat)
    requires HeapOk(h) && h.lists[k] == [] && size <= ClassSize(k) && AlignOk(align) && align <= WORD
    requires i < |h.blocks| && h.blocks[i].free && h.blocks[i].size >= SLAB_COUNT * CellSize(k)
    ensures HeapOk(CutSlab(h, i, k, size))
    ensures Served(h, CutSlab(h, i, k, size), SlabCell(Addr(h.arenaEnd, h.blocks, i), k, 0) + WORD, size, align)
  {
    hide HeapOk, ClassSize, CellSize, Served, AlignOk, SlabCell, SlabSet, SlabList, Take, Addr;
    CutSlabKeepsHeap(h, i, k, size);
    HeapParts(CutSlab(h, i, k, size));
    SmallServed(h, CutSlab(h, i, k, size), SlabCell(Addr(h.arenaEnd, h.blocks, i), k, 0) + WORD, k, size, align);
  }

  lemma AllocSmallFacts(h: Heap, k: Bucket, size: nat, align: nat)
    requires HeapOk(h) && size <= ClassSize(k) && AlignOk(align) && align <= WORD
    ensures var (h', r) := AllocSmall(h, k, size);
            HeapOk(h') && (r.None? ==> h' == h) && (r.Some? ==> Served(h, h', r.value, size, align))
  {
    hide HeapOk, ClassSize, CellSize, SlabCell, FirstFit, RoundUp8, Served, Addr, AlignOk, Pop, Carve, CutSlab;
    if h.lists[k] != [] {
      PopServes(h, k, size, align);
    } else if RoundUp8(h.arenaPtr) + CellSize(k) <= h.arenaEnd {
      CarveServes(h, k, size, align);
    } else if FirstFit(h.blocks, SLAB_COUNT * CellSize(k), 0).Some? {
      CutSlabServes(h, FirstFit(h.blocks, SLAB_COUNT * CellSize(k), 0).value, k, size, align);
    }
  }

  lemma HeapParts(h: Heap)
    requires HeapOk(h)
    ensures BlocksOk(h) && CellsOk(h) && ListsOk(h) && LiveOk(h) && NoCellLost(h)
  {
  }

  lemma AllocLargeFacts(h: Heap, size: nat, align: nat)
    requires HeapOk(h) && AlignOk(align)
    ensures var (h', r) := AllocLarge(h, size, align);
            HeapOk(h') && (r.None? ==> h' == h) && (r.Some? ==> Served(h, h', r.value, size, align))
  {
    hide HeapOk, Take, FirstFit, LargeNeed, LargePayload, Addr, LiveOk, AlignedTo;
    var (h', r) := AllocLarge(h, size, align);
    if r.Some? {
      var p := r.value;
      PlaceLargeKeepsHeap(h, FirstFit(h.blocks, LargeNeed(size, align), 0).value, size, align);
      HeapParts(h');
      LiveIsOk(h', p);
      assert h'.live - {p} == h.live;
    }
  }

  lemma AllocFacts(h: Heap, size: nat, align: nat)
    requires HeapOk(h) && AlignOk(align)
    ensures var (h', r) := Alloc(h, size, align);
            HeapOk(h') && (r.None? ==> h' == h) && (r.Some? ==> Served(h, h', r.value, size, align))
  {
    hide HeapOk, Served, AllocSmall, AllocLarge;
    if align <= WORD && BucketFor(size).Some? {
      AllocSmallFacts(h, BucketFor(size).value, size, align);
    } else {
      AllocLargeFacts(h, size, align);
    }
  }

  ghost predicate HasBlock(h: Heap, n: nat) {
    exists i: nat :: i < |h.blocks| && h.blocks[i].free && h.blocks[i].size >= n
  }

  /** There is a cell, room for one, a block to cut, or a block large enough. */
  ghost predicate CanServe(h: Heap, size: nat, align: nat) {
    if align <= WORD && BucketFor(size).Some? then
      var k := BucketFor(size).value;
      h.lists[k] != [] || RoundUp8(h.arenaPtr) + CellSize(k) <= h.arenaEnd || HasBlock(h, SLAB_COUNT * CellSize(k))
    else HasBlock(h, LargeNeed(size, align))
  }

  lemma FitIffHasBlock(h: Heap, n: nat)
    ensures FirstFit(h.blocks, n, 0).Some? <==> HasBlock(h, n)
  {
  }

  /** No request is refused that could have been served. */
  lemma AllocFailsOnlyWhenFull(h: Heap, size: nat, align: nat)
    requires align > 0
    ensures Alloc(h, size, align).1.Some? <==> CanServe(h, size, align)
  {
    hide HasBlock, FirstFit, ClassSize, CellSize, LargeNeed, RoundUp8, Pop, Carve, CutSlab, PlaceLarge, LargePayload;
    hide Addr, SlabCell;
    if align <= WORD && BucketFor(size).Some? {
      FitIffHasBlock(h, SLAB_COUNT * CellSize(BucketFor(size).value));
    } else {
      FitIffHasBlock(h, LargeNeed(size, align));
    }
  }

  lemma DeallocKeepsHeap(h: Heap, p: nat)
    requires HeapOk(h) && p in h.live
    ensures AllocOk(h, p, h.live[p]) && HeapOk(Dealloc(h, p))
  {
    hide HeapOk, AllocOk, Dealloc;
    if h.live[p].Small? {
      FreeSmallKeepsHeap(h, p);
    } else {
      FreeLargeKeepsHeap(h, p);
    }
  }

  // ---------------------------------------------------------------- freeing undoes allocating

  /** The request is met without carving a new cell. */
  ghost predicate Recycles(h: Heap, size: nat, align: nat) {
    align <= WORD && BucketFor(size).Some? ==> h.lists[BucketFor(size).value] != []
  }

  lemma FreeUndoesPop(h: Heap, k: Bucket, size: nat)
    requires HeapOk(h) && h.lists[k] != [] && size <= ClassSize(k)
    ensures var h' := Pop(h, k, size); var p := h.lists[k][0] + WORD;
            p in h'.live && AllocOk(h', p, h'.live[p]) && Dealloc(h', p) == h
  {
    hide ClassSize, BlocksOk, CellsOk, LiveOk, NoCellLost;
    var h', p := Pop(h, k, size), h.lists[k][0] + WORD;
    assert IsFreeCell(h, h.lists[k][0], k);
    assert [h.lists[k][0]] + h.lists[k][1..] == h.lists[k];
    assert h'.live - {p} == h.live;
    assert h'.lists[k := h.lists[k]] == h.lists;
  }

  lemma FreeUndoesPlaceLarge(h: Heap, i: nat, size: nat, align: nat)
    requires HeapOk(h) && AlignOk(align) && i < |h.blocks| && h.blocks[i].free
    requires h.blocks[i].size >= LargeNeed(size, align)
    ensures var h' := PlaceLarge(h, i, size, align); var p := LargePayload(Addr(h.arenaEnd, h.blocks, i), align);
            p in h'.live && AllocOk(h', p, h'.live[p]) && Dealloc(h', p) == h
  {
    hide HeapOk, BlocksOk, LargeNeed, LargePayload, LiveOk, AllocOk, NoFreeNeighbours;
    var h', b := PlaceLarge(h, i, size, align), Addr(h.arenaEnd, h.blocks, i);
    var p := LargePayload(b, align);
    PlaceLargeKeepsHeap(h, i, size, align);
    HeapParts(h');
    LiveIsOk(h', p);
    assert h'.live - {p} == h.live;
    PlacedIndex(h, i, LargeNeed(size, align));
    LargeIsUsed(h', p);
    HeapParts(h);
    BlocksParts(h);
    ReleaseUndoesTake(h.blocks, i, LargeNeed(size, align));
  }

  lemma BlocksParts(h: Heap)
    requires BlocksOk(h)
    ensures NoFreeNeighbours(h.blocks)
  {
  }

  lemma LargeIsUsed(h: Heap, p: nat)
    requires p in h.live && h.live[p].Large? && AllocOk(h, p, h.live[p])
    ensures IsUsed(h.arenaEnd, h.blocks, h.live[p].block, h.live[p].blockSize)
  {
  }

  /** The block just taken is the one found again by its address. */
  lemma PlacedIndex(h: Heap, i: nat, n: nat)
    requires i < |h.blocks| && h.blocks[i].free && h.blocks[i].size >= n
    ensures var b := Addr(h.arenaEnd, h.blocks, i); var cs := Take(h.blocks, i, n);
            && i < |cs| && IsUsed(h.arenaEnd, cs, b, cs[i].size)
            && IndexOf(h.arenaEnd, cs, b, cs[i].size) == i
  {
    hide IsUsed;
    var b, cs := Addr(h.arenaEnd, h.blocks, i), Take(h.blocks, i, n);
    TakeUsed(h.arenaEnd, h.blocks, i, n, b, cs[i].size);
    if Splits(h.blocks[i], n) {
      TakeAddr(h.arenaEnd, h.blocks, i, n, i);
    } else {
      SetFreeAddr(h.arenaEnd, h.blocks, i, false, i);
    }
    AddrInjective(h.arenaEnd, cs, i, IndexOf(h.arenaEnd, cs, b, cs[i].size));
  }

  lemma FreeOfNewCell(h: Heap, h': Heap, p: nat, k: Bucket)
    requires p in h'.live && h'.live[p].Small? && h'.live[p].bucket == k
    requires AllocOk(h', p, h'.live[p]) && h.lists[k] == []
    ensures Dealloc(h', p) != h
  {
    hide ClassSize;
    assert Dealloc(h', p).lists[k] != [];
  }

  lemma SmallUndone(h: Heap, k: Bucket, size: nat)
    requires HeapOk(h) && size <= ClassSize(k) && AllocSmall(h, k, size).1.Some?
    ensures var (h', r) := AllocSmall(h, k, size);
            && r.value in h'.live && AllocOk(h', r.value, h'.live[r.value])
            && (Dealloc(h', r.value) == h <==> h.lists[k] != [])
  {
    hide HeapOk, AllocOk, Take, ClassSize, Addr, SlabCell, SlabSet, SlabList, Dealloc, RoundUp8;
    var (h', r) := AllocSmall(h, k, size);
    if h.lists[k] != [] {
      FreeUndoesPop(h, k, size);
    } else {
      AllocSmallFacts(h, k, size, WORD);
      HeapParts(h');
      LiveIsOk(h', r.value);
      FreeOfNewCell(h, h', r.value, k);
    }
  }

  /** Freeing what was just allocated restores the heap exactly, unless a cell had to be carved for it. */
  lemma FreeUndoesAlloc(h: Heap, size: nat, align: nat)
    requires HeapOk(h) && AlignOk(align) && Alloc(h, size, align).1.Some?
    ensures var (h', r) := Alloc(h, size, align);
            && r.value in h'.live && AllocOk(h', r.value, h'.live[r.value])
            && (Dealloc(h', r.value) == h <==> Recycles(h, size, align))
  {
    hide HeapOk, AllocOk, LargeNeed, LargePayload, Take, ClassSize, Addr, Dealloc, AllocSmall, PlaceLarge;
    if align > WORD || BucketFor(size).None? {
      FreeUndoesPlaceLarge(h, FirstFit(h.blocks, LargeNeed(size, align), 0).value, size, align);
    } else {
      SmallUndone(h, BucketFor(size).value, size);
    }
  }

  // ---------------------------------------------------------------- the region

  /** The first block's header, if there is one, is aligned. */
  predicate HeaderAligned(start: nat, size: nat) {
    size - size / 4 * 3 > HEADER ==> (start + size / 4 * 3) % 8 == 0
  }

  /** The heap after initialisation: three quarters bump arena, the rest one free block if it can hold one. */
  function InitHeap(start: nat, size: nat): (h: Heap)
    requires HeaderAligned(start, size)
    ensures HeapOk(h)
  {
    var arena := size / 4 * 3;
    var rest := size - arena;
    Heap(start, start, start + arena, if rest > HEADER then [Block(rest - HEADER, true)] else [],
         seq(NUM_BUCKETS, _ => []), map[], map[], map[])
  }

  ghost predicate SameRegion(h: Heap, h': Heap) {
    h'.arenaStart == h.arenaStart && h'.arenaEnd == h.arenaEnd && Total(h'.blocks) == Total(h.blocks)
  }

  lemma SameItself(h: Heap)
    ensures SameRegion(h, h)
  {
  }

  lemma AllocConserves(h: Heap, size: nat, align: nat)
    requires align > 0
    ensures SameRegion(h, Alloc(h, size, align).0)
  {
    hide Total, Take, FirstFit, ClassSize, CellSize, SlabCell, SlabSet, SlabList, LargeNeed, LargePayload, RoundUp8;
    hide Addr;
    if align <= WORD && BucketFor(size).Some? {
      var n := SLAB_COUNT * CellSize(BucketFor(size).value);
      var i := FirstFit(h.blocks, n, 0);
      if i.Some? {
        TakeConserves(h.blocks, i.value, n);
      }
    } else {
      var i := FirstFit(h.blocks, LargeNeed(size, align), 0);
      if i.Some? {
        TakeConserves(h.blocks, i.value, LargeNeed(size, align));
      }
    }
  }

  lemma DeallocConserves(h: Heap, p: nat)
    requires p in h.live && AllocOk(h, p, h.live[p])
    ensures SameRegion(h, Dealloc(h, p))
  {
    hide HeapOk, Total, Release, IsUsed, ClassSize, AlignedTo, Addr;
    if h.live[p].Large? {
      ReleaseConserves(h.blocks, IndexOf(h.arenaEnd, h.blocks, h.live[p].block, h.live[p].blockSize));
    }
  }

  lemma PlacedInRegion(h: Heap, a: nat, n: nat)
    requires BlocksOk(h) && Placed(h, a, n)
    ensures h.arenaStart <= a && a + n <= h.arenaEnd + Total(h.blocks)
  {
    hide IsUsed, Total, SizesAligned, NoFreeNeighbours;
    if b :| Inside(h, b, a, n) {
      UsedApart(h.arenaEnd, h.blocks, b, h.slabs[b], b, h.slabs[b]);
    }
  }

  lemma CellInRegion(h: Heap, p: nat, k: Bucket, size: nat)
    requires BlocksOk(h) && CellsOk(h) && SmallOk(h, p, k, size)
    ensures h.arenaStart <= p - WORD && p - WORD + CellSize(k) <= h.arenaEnd + Total(h.blocks) && p % 8 == 0
  {
    hide BlocksOk, ClassSize, Placed, Total;
    PlacedInRegion(h, p - WORD, CellSize(k));
  }

  /** What a payload occupies, header and prefix included, lies in the heap's region. */
  lemma LiveInRegion(h: Heap, p: nat)
    requires HeapOk(h) && p in h.live
    ensures (h.live[p].Small? ==> p >= WORD) && h.arenaStart <= Foot(h, p).0
    ensures Foot(h, p).0 + Foot(h, p).1 <= h.arenaEnd + Total(h.blocks)
    ensures Foot(h, p).0 < p && p + h.live[p].size <= Foot(h, p).0 + Foot(h, p).1
    ensures h.live[p].size <= Capacity(h, p) && p % 8 == 0 && (h.live[p].Large? ==> AlignedTo(p, h.live[p].align))
  {
    hide HeapOk, BlocksOk, CellsOk, ListsOk, LiveOk, NoCellLost, ClassSize, IsUsed, AlignedTo, Total;
    HeapParts(h);
    LiveIsOk(h, p);
    ArenaInOrder(h);
    match h.live[p] {
      case Small(k, size) =>
        CellInRegion(h, p, k, size);
      case Large(b, n, _, _) =>
        UsedApart(h.arenaEnd, h.blocks, b, n, b, n);
    }
  }

  lemma ArenaInOrder(h: Heap)
    requires BlocksOk(h)
    ensures h.arenaStart <= h.arenaPtr <= h.arenaEnd
  {
  }

  /** The heap is the region: three quarters arena, and behind it blocks up to the end, if a header fits there. */
  ghost predicate Fills(h: Heap, start: nat, size: nat) {
    && h.arenaStart == start && h.arenaEnd == start + size / 4 * 3
    && h.arenaEnd + Total(h.blocks) == if size - size / 4 * 3 > 32 then start + size else h.arenaEnd
  }

  /** At first nothing is in use: the arena is untouched, and all that a header leaves of the rest is one free block. */
  lemma InitRegion(start: nat, size: nat)
    requires HeaderAligned(start, size)
    ensures var h, rest := InitHeap(start, size), size - size / 4 * 3;
            && Fills(h, start, size) && h.arenaPtr == start && h.live == map[] && (forall k: Bucket :: h.lists[k] == [])
            && h.blocks == if rest > 32 then [Block(rest - 32, true)] else []
  {
    var rest := size - size / 4 * 3;
    if rest > HEADER {
      assert [Block(rest - HEADER, true)][..0] == [];
    }
  }

  /** A class is at most twice as large as what it is for, or the smallest. */
  lemma ClassIsTight(n: nat)
    requires n <= 4096
    ensures ClassSize(BucketFor(n).value) <= 2 * n + 8
  {
  }

  /** No request is given much more than it asked for. */
  lemma AllocIsTight(h: Heap, n: nat, align: nat)
    requires align > 0 && Alloc(h, n, align).1.Some?
    ensures var (h', p) := Alloc(h, n, align);
            && p.value in h'.live
            && match h'.live[p.value]
               case Small(k, _) => n <= ClassSize(k) <= 2 * n + 8 && CellSize(k) == ClassSize(k) + 8
               case Large(_, blockSize, _, _) => blockSize < (n + align + 16 + 7) / 8 * 8 + 48
  {
    hide FirstFit, Addr, LargePayload, RoundUp8, SlabCell, SlabSet, SlabList, Take;
    if align <= WORD && n <= 4096 {
      ClassIsTight(n);
      hide ClassSize;
    } else {
      NeedInBytes(n, align);
      TakeIsTight(h.blocks, FirstFit(h.blocks, LargeNeed(n, align), 0).value, LargeNeed(n, align));
      hide LargeNeed;
    }
  }

  /** A slab serves one request and leaves 31 cells for the next ones. */
  lemma SlabLeaves31(h: Heap, i: nat, k: Bucket, size: nat)
    requires i < |h.blocks| && h.blocks[i].size >= 32 * CellSize(k) && h.lists[k] == []
    ensures var h' := CutSlab(h, i, k, size); |h'.lists[k]| == 31 && |h'.live.Keys - h.live.Keys| <= 1
  {
    hide Addr, Take, SlabCell, SlabSet, CellSize;
    SlabListLength(Addr(h.arenaEnd, h.blocks, i), k, SLAB_COUNT);
    var h' := CutSlab(h, i, k, size);
    var p := SlabCell(Addr(h.arenaEnd, h.blocks, i), k, 0) + WORD;
    assert h'.live.Keys - h.live.Keys == if p in h.live then {} else {p};
  }

  lemma {:induction false} SlabListLength(b: nat, k: Bucket, n: nat)
    ensures |SlabList(b, k, n)| == if n == 0 then 0 else n - 1
  {
    hide SlabCell;
    if n > 1 {
      SlabListLength(b, k, n - 1);
    }
  }

  /** A new heap serves every request for which its last quarter has room. */
  lemma FirstRequestServed(start: nat, size: nat, n: nat, align: nat)
    requires HeaderAligned(start, size) && align > 0
    requires (n + align + 16 + 7) / 8 * 8 + 32 <= size - size / 4 * 3
    ensures Alloc(InitHeap(start, size), n, align).1.Some?
  {
    InitRegion(start, size);
    var h, quarter := InitHeap(start, size), size - size / 4 * 3;
    AllocFailsOnlyWhenFull(h, n, align);
    NeedInBytes(n, align);
    if align <= WORD && n <= 4096 {
      ClassIsTight(n);
      RoundsUpLittle(start);
      assert size / 4 * 3 >= 3 * (quarter - 3);
    } else {
      assert h.blocks[0].size == quarter - 32;
      assert HasBlock(h, LargeNeed(n, align));
    }
    hide InitHeap, Total, ClassSize, RoundUp8, LargeNeed;
  }

  lemma NeedInBytes(n: nat, align: nat)
    ensures LargeNeed(n, align) == (n + align + 16 + 7) / 8 * 8
  {
  }

  lemma RoundsUpLittle(x: nat)
    ensures RoundUp8(x) <= x + 7
  {
  }
}
