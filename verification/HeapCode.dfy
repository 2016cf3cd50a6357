/** The allocator's own code: pointer loops and word writes, proved to be the heap operations. */
module HeapCode {
  import opened Bytes
  import opened LargeList
  import opened HeapMemory
  import opened HeapModel
  import opened HeapSafety
  import opened HeapImage
  import opened HeapWords
  import opened HeapBytes

  // ---------------------------------------------------------------- the allocator

  function Pointer(r: Option<nat>): nat {
    if r.Some? then r.value else NULL
  }

  /** Whatever list is in memory, its block at `a` is freed if it was in use, and nothing happens if it was free. */
  ghost predicate Releases(m: Memory, m': Memory, a: nat) {
    forall start: nat, bs: seq<Block>, i: nat | Linked(m, start, bs) && i < |bs| && Addr(start, bs, i) == a ::
      if bs[i].free then m' == m else Linked(m', start, Release(bs, i)) && OnlyHeaders(m, m', start, bs)
  }

  lemma WordsRelease(m: Memory, a: nat)
    ensures Releases(m, ReleaseWords(m, a), a)
  {
    hide Linked, Addr, Release, OnlyHeaders, MergeIfFree;
    forall start: nat, bs: seq<Block>, i: nat | Linked(m, start, bs) && i < |bs| && Addr(start, bs, i) == a
      ensures if bs[i].free then ReleaseWords(m, a) == m
              else Linked(ReleaseWords(m, a), start, Release(bs, i)) && OnlyHeaders(m, ReleaseWords(m, a), start, bs)
    {
      LinkedHere(m, start, bs, i);
      if !bs[i].free {
        ReleaseLinks(m, start, bs, i);
      }
    }
  }

  class SegregatedAllocator {
    var freeLists: Heads
    var largeHead: nat
    var arenaPtr: nat
    var arenaEnd: nat
    var mem: Memory
    /** The heap these words stand for. */
    ghost var heap: Heap

    ghost function State(): Words
      reads this
    {
      Words(mem, freeLists, heap)
    }

    ghost predicate Valid()
      reads this
    {
      && Good(State())
      && arenaPtr == heap.arenaPtr && arenaEnd == heap.arenaEnd
      && largeHead == (if heap.blocks == [] then NULL else heap.arenaEnd)
    }

    constructor (start: nat, size: nat, memory: Memory)
      requires start > 0 && HeaderAligned(start, size)
      ensures Valid() && State() == InitWords(start, size, memory) && Fills(heap, start, size)
    {
      var arenaBytes := size / 4 * 3;
      var lbStart, lbSize := start + arenaBytes, size - arenaBytes;
      var m, head := memory, NULL;
      if lbSize > HEADER {
        m := m[lbStart := lbSize - HEADER];
        m := m[lbStart + 8 := NULL];
        m := m[lbStart + 16 := NULL];
        m := m[lbStart + 24 := 1];
        head := lbStart;
      }
      freeLists := seq(NUM_BUCKETS, _ => NULL);
      largeHead, arenaPtr, arenaEnd, mem := head, start, lbStart, m;
      heap := InitHeap(start, size);
      new;
      InitRegion(start, size);
      hide HeapOk, Image, Fills;
      assert State() == InitWords(start, size, memory);
    }

    method TakeBlock(a: nat, n: nat)
      modifies this`mem
      ensures mem == TakeWords(old(mem), a, n)
    {
      if Load(mem, a) >= n + HEADER + 16 {
        var next := a + HEADER + n;
        mem := mem[next := Load(mem, a) - n - HEADER];
        mem := mem[next + 8 := Load(mem, a + 8)];
        mem := mem[next + 16 := a];
        mem := mem[next + 24 := 1];
        if Load(mem, next + 8) != NULL {
          mem := mem[Load(mem, next + 8) + 16 := next];
        }
        mem := mem[a := n];
        mem := mem[a + 8 := next];
      }
      mem := mem[a + 24 := 0];
    }

    /** First fit along the next pointers. */
    method AllocLargeRaw(size: nat) returns (p: nat)
      requires Valid()
      modifies this`mem, this`heap
      ensures Valid()
      ensures var i := FirstFit(old(heap).blocks, RoundUp8(size), 0);
              if i.None? then p == NULL && State() == old(State())
              else
                && p == Addr(old(heap).arenaEnd, old(heap).blocks, i.value) + HEADER
                && mem == TakeWords(old(mem), p - HEADER, RoundUp8(size))
                && heap == Reserve(old(heap), i.value, RoundUp8(size))
    {
      hide HeapOk, Image, TakeWords, RoundUp8, Addr, FirstFit;
      var n := RoundUp8(size);
      var current := largeHead;
      ghost var i := 0;
      ListStart(heap);
      while current != NULL
        invariant i <= |heap.blocks| && heap == old(heap) && mem == old(mem) && Valid()
        invariant current == (if i < |heap.blocks| then Addr(heap.arenaEnd, heap.blocks, i) else NULL)
        invariant FirstFit(heap.blocks, n, 0) == FirstFit(heap.blocks, n, i)
        decreases |heap.blocks| - i
      {
        BlockWords(mem, freeLists, heap, i);
        FitStep(heap.blocks, n, i);
        if Load(mem, current + 24) != 0 && Load(mem, current) >= n {
          TakeBlock(current, n);
          TakeImage(old(mem), freeLists, heap, i, n);
          heap := Reserve(heap, i, n);
          return current + HEADER;
        }
        current := Load(mem, current + 8);
        i := i + 1;
      }
      BlockNotNull(mem, freeLists, heap, i);
      FitStep(heap.blocks, n, i);
      p := NULL;
    }

    /** One coalescing step: the block at `a` takes over the block at `b`. */
    method Absorb(a: nat, b: nat)
      modifies this`mem
      ensures mem == MergeWords(old(mem), a, b)
    {
      mem := mem[a := Load(mem, a) + Load(mem, b) + HEADER];
      var after := Load(mem, b + 8);
      mem := mem[a + 8 := after];
      if after != NULL {
        mem := mem[after + 16 := a];
      }
    }

    /** Free a block by the address of its payload, coalescing with free neighbours. */
    method FreeLargeRaw(ptr: nat)
      requires ptr == NULL || ptr >= HEADER
      modifies this`mem
      ensures mem == if ptr == NULL then old(mem) else ReleaseWords(old(mem), ptr - HEADER)
      ensures ptr != NULL ==> Releases(old(mem), mem, ptr - HEADER)
    {
      hide MergeWords, Releases;
      if ptr == NULL {
        return;
      }
      WordsRelease(mem, ptr - HEADER);
      var block := ptr - HEADER;
      if Load(mem, block + 24) != 0 {
        return;
      }
      mem := mem[block + 24 := 1];
      var next := Load(mem, block + 8);
      if next != NULL && Load(mem, next + 24) != 0 {
        Absorb(block, next);
      }
      var prev := Load(mem, block + 16);
      if prev != NULL && Load(mem, prev + 24) != 0 {
        Absorb(prev, block);
      }
    }

    /** Thread all but the first cell of a slab onto the list, and tag the first. */
    method ThreadSlab(slab: nat, bucket: Bucket)
      requires slab >= HEADER
      modifies this`mem, this`freeLists
      ensures var t := Threaded(old(mem), old(freeLists)[bucket], slab - HEADER, bucket, SLAB_COUNT);
              mem == t.0[slab := bucket] && freeLists == old(freeLists)[bucket := t.1]
    {
      hide ClassSize, SlabCell;
      var total := CellSize(bucket);
      ghost var b := slab - HEADER;
      var i := 1;
      while i < SLAB_COUNT
        invariant 1 <= i <= SLAB_COUNT && freeLists == old(freeLists)[bucket := freeLists[bucket]]
        invariant (mem, freeLists[bucket]) == Threaded(old(mem), old(freeLists)[bucket], b, bucket, i)
      {
        var blk := slab + i * total;
        SlabCellIs(b, bucket, i, total);
        mem := mem[blk := freeLists[bucket]];
        freeLists := freeLists[bucket := blk];
        i := i + 1;
      }
      mem := mem[slab := bucket];
    }

    /** The arena is exhausted: cut a slab from the large region. */
    method AllocSlab(bucket: Bucket, ghost size: nat) returns (p: nat)
      requires Valid() && heap.lists[bucket] == [] && size <= ClassSize(bucket)
      modifies this`mem, this`heap, this`freeLists
      ensures Valid()
      ensures var i := FirstFit(old(heap).blocks, SLAB_COUNT * CellSize(bucket), 0);
              if i.None? then p == NULL && State() == old(State())
              else
                && State() == SlabWords(old(State()), i.value, bucket, size)
                && p == SlabCell(Addr(old(heap).arenaEnd, old(heap).blocks, i.value), bucket, 0) + WORD
    {
      hide Good, Addr, FirstFit, CellSize, ClassSize, CutSlab, RoundUp8, SlabCell, Threaded, TakeWords, Take;
      ghost var n := SLAB_COUNT * CellSize(bucket);
      ghost var w := State();
      RoundUp8Exact(n);
      var slab := AllocLargeRaw(CellSize(bucket) * SLAB_COUNT);
      if slab == NULL {
        return NULL;
      }
      ghost var i := FirstFit(w.heap.blocks, n, 0).value;
      ThreadSlab(slab, bucket);
      heap := CutSlab(w.heap, i, bucket, size);
      assert State() == SlabWords(w, i, bucket, size);
      SlabGood(w, i, bucket, size);
      SlabFields(w.heap, i, bucket, size);
      SlabCellIs(slab - HEADER, bucket, 0, CellSize(bucket));
      p := slab + WORD;
    }

    /** Serve a small request from its list, from the arena, or from a new slab. */
    method AllocSmall(bucket: Bucket, ghost size: nat) returns (p: nat)
      requires Valid() && size <= ClassSize(bucket)
      modifies this`mem, this`heap, this`freeLists, this`arenaPtr
      ensures Valid() && State() == AllocSmallWords(old(State()), bucket, size)
      ensures p == Pointer(HeapModel.AllocSmall(old(heap), bucket, size).1)
    {
      hide HeapOk, Image, Addr, FirstFit, CellSize, ClassSize, CutSlab, RoundUp8, SlabCell, Carve, Pop, SlabWords;
      var total := CellSize(bucket);
      var head := freeLists[bucket];
      ghost var w := State();
      ListHead(mem, freeLists, heap, bucket);
      if head != NULL {
        PopGood(w, bucket, size);
        PopFields(heap, bucket, size);
        var next := Load(mem, head);
        freeLists := freeLists[bucket := next];
        mem := mem[head := bucket];
        heap := Pop(heap, bucket, size);
        return head + WORD;
      }
      var aligned := RoundUp8(arenaPtr);
      if aligned + total <= arenaEnd {
        CarveGood(w, bucket, size);
        CarveFields(heap, bucket, size);
        arenaPtr := aligned + total;
        mem := mem[aligned := bucket];
        heap := Carve(heap, bucket, size);
        return aligned + WORD;
      }
      p := AllocSlab(bucket, size);
    }

    /** Put a cell back at the front of the list its header names. */
    method FreeSmall(payload: nat)
      requires Valid() && payload in heap.live && heap.live[payload].Small?
      modifies this`mem, this`heap, this`freeLists
      ensures AllocOk(old(heap), payload, old(heap).live[payload])
      ensures Valid() && State() == FreeWords(old(State()), payload)
      ensures freeLists[old(heap).live[payload].bucket] == payload - WORD
    {
      hide HeapOk, Image, Dealloc, AllocOk;
      FreeGood(State(), payload);
      TagWords(mem, freeLists, heap, payload);
      DeallocFields(heap, payload);
      var block := payload - WORD;
      var bucket := Load(mem, block);
      mem := mem[block := freeLists[bucket]];
      freeLists := freeLists[bucket := block];
      heap := Dealloc(heap, payload);
    }

    /** The index of the smallest class that fits, by trying them in order. */
    static method BucketIndex(size: nat) returns (r: Option<Bucket>)
      ensures r == BucketFor(size)
    {
      var i := 0;
      while i < NUM_BUCKETS
        invariant 0 <= i <= NUM_BUCKETS && forall j: Bucket | j < i :: ClassSize(j) < size
      {
        if size <= BUCKET_SIZES[i] {
          FirstThatFits(size, i);
          return Some(i);
        }
        i := i + 1;
      }
      assert ClassSize(9) < size;
      r := None;
    }

    /** Serve any request: small ones from cells, the others from a block with a two-word prefix. */
    method AllocAligned(size: nat, align: nat) returns (p: nat)
      requires Valid() && AlignOk(align)
      modifies this`mem, this`heap, this`freeLists, this`arenaPtr
      ensures Valid() && State() == AllocWords(old(State()), size, align)
      ensures heap == Alloc(old(heap), size, align).0 && p == Pointer(Alloc(old(heap), size, align).1)
    {
      hide Good, HeapModel.AllocSmall, AllocSmallWords, LargeNeed, LargePayload, Reserve, RoundUp8, Addr, FirstFit,
        PlaceLarge, BucketFor, ClassSize, TakeWords;
      AllocGood(State(), size, align);
      if align <= WORD {
        var bucket := BucketIndex(size);
        if bucket.Some? {
          BucketFits(size);
          p := AllocSmall(bucket.value, size);
          return;
        }
      }
      ghost var w, n := State(), LargeNeed(size, align);
      NeedIs(size, align);
      var raw := AllocLargeRaw(size + (align + 2 * WORD));
      if raw == NULL {
        return NULL;
      }
      ghost var i := FirstFit(w.heap.blocks, n, 0).value;
      var blockAddr := raw - HEADER;
      var candidate := raw + 2 * WORD;
      var remainder := candidate % align;
      var padding := if remainder == 0 then 0 else align - remainder;
      var alignedAddr := candidate + padding;
      PayloadIs(blockAddr, align, alignedAddr);
      mem := mem[alignedAddr - 2 * WORD := SENTINEL];
      mem := mem[alignedAddr - WORD := blockAddr];
      heap := PlaceLarge(w.heap, i, size, align);
      PlaceLargeFields(w.heap, i, size, align);
      p := alignedAddr;
    }

    /**
     Take back a payload.  Which way it goes is decided by the word two in front of it;
     for a cell that word belongs to whatever lies there, and the cell reaches its list
     exactly when that word is not the sentinel.
     */
    method DeallocAligned(p: nat)
      requires Valid() && (p == NULL || p in heap.live)
      modifies this`mem, this`heap, this`freeLists
      ensures p == NULL ==> Valid() && State() == old(State())
      ensures p != NULL ==> p >= 2 * WORD && AllocOk(old(heap), p, old(heap).live[p])
      ensures p != NULL && Legal(old(State()), Free(p)) ==> Valid() && State() == FreeWords(old(State()), p)
      ensures p != NULL && old(heap).live[p].Small? ==>
                (freeLists[old(heap).live[p].bucket] == p - 8 <==> Load(old(mem), p - 16) != 0xFFFF_FFFF_FFFF_FFFF)
    {
      hide HeapOk, Image, Dealloc, AllocOk, Release, ReleaseWords, Releases;
      if p == NULL {
        return;
      }
      TagWords(mem, freeLists, heap, p);
      FreeGood(State(), p);
      var header := Load(mem, p - 2 * WORD);
      if header == SENTINEL {
        var blockAddr := Load(mem, p - WORD);
        ghost var m := mem;
        FreeLargeRaw(blockAddr + HEADER);
        if heap.live[p].Large? {
          DeallocFields(heap, p);
          heap := Dealloc(heap, p);
        } else {
          LiveIsNotHead(m, freeLists, heap, p);
        }
      } else {
        FreeSmall(p);
      }
    }

    /**
     How much a payload can hold, `None` where the class index is out of range.  Right for
     every block; for a cell, right exactly when the word two in front happens to be its class.
     */
    method CapacityOf(p: nat) returns (r: Option<int>)
      requires Valid() && p in heap.live
      ensures p >= 2 * WORD
      ensures heap.live[p].Large? ==> r == Some(Capacity(heap, p))
      ensures heap.live[p].Small? && Load(mem, p - 2 * WORD) != SENTINEL ==>
                (r == Some(Capacity(heap, p)) <==> Load(mem, p - 2 * WORD) == heap.live[p].bucket)
      ensures heap.live[p].Small? && Load(mem, p - 2 * WORD) == SENTINEL ==>
                var k := heap.live[p].bucket; r == Some(k + HEADER + Load(mem, k) - p)
    {
      hide HeapOk, Image;
      TagWords(mem, freeLists, heap, p);
      var header := Load(mem, p - 2 * WORD);
      if header == SENTINEL {
        var blockAddr := Load(mem, p - WORD);
        if heap.live[p].Large? {
          BlockSizeWord(mem, freeLists, heap, p);
        }
        r := Some(blockAddr + HEADER + Load(mem, blockAddr) - p);
      } else if header < NUM_BUCKETS {
        r := Some(BUCKET_SIZES[header]);
        ClassesDiffer(header, heap.live[p].bucket);
      } else {
        r := None;
      }
    }

    /** Copy bytes between places that do not overlap. */
    method CopyBytes(src: nat, dst: nat, n: nat)
      requires src % 8 == 0 && dst % 8 == 0 && HeapBytes.Apart(src, dst, n)
      modifies this`mem
      ensures CopiedBytes(old(mem), mem, src, dst, n)
    {
      hide CopiedBytes, LowBytes;
      var i := 0;
      while i < n / 8
        invariant 0 <= i <= n / 8 && CopiedWords(old(mem), mem, src, dst, i)
      {
        OneMoreWord(old(mem), mem, src, dst, n, i);
        mem := mem[dst + 8 * i := Load(mem, src + 8 * i)];
        i := i + 1;
      }
      ghost var m1 := mem;
      if n % 8 != 0 {
        mem := mem[dst + 8 * i := LowBytes(Load(mem, dst + 8 * i), Load(mem, src + 8 * i), n % 8)];
      }
      WordsThenBytes(old(mem), m1, mem, src, dst, n);
    }

    /**
     Give a block a new size: a fresh payload gets as many of its bytes as fit, and the block
     is freed.  Null is a plain allocation; without room nothing changes.
     */
    method Realloc(p: nat, newSize: nat, align: nat) returns (q: nat)
      requires Valid() && AlignOk(align) && (p == NULL || (p in heap.live && heap.live[p].Large?))
      modifies this`mem, this`heap, this`freeLists, this`arenaPtr
      ensures Valid() && q == Pointer(Alloc(old(heap), newSize, align).1)
      ensures p == NULL ==> heap == Alloc(old(heap), newSize, align).0
      ensures p != NULL && q == NULL ==> State() == old(State())
      ensures p != NULL && q != NULL ==>
                var h := Alloc(old(heap), newSize, align).0;
                && p in h.live && AllocOk(h, p, h.live[p]) && heap == Dealloc(h, p)
                && q != p && q in heap.live && q !in old(heap).live
                && forall j: nat | j < newSize && j < Capacity(old(heap), p) ::
                     ByteFrom(mem, q, j) == ByteFrom(old(mem), p, j)
    {
      hide Good, Alloc, AllocWords, FreeWords, Dealloc, AllocOk, CopiedBytes, ByteFrom, KeepsData;
      ghost var w0 := State();
      AllocGood(w0, newSize, align);
      AllocOutcome(w0, newSize, align);
      q := AllocAligned(newSize, align);
      if p == NULL || q == NULL {
        return;
      }
      ghost var w1 := State();
      OldAndNew(w0, newSize, align, p, q);
      var capacity := CapacityOf(p);
      var copySize: nat := Min(newSize, capacity.value);
      CopyBytes(p, q, copySize);
      CopyStaysInPayload(w1, mem, p, q, copySize);
      ghost var w2 := State();
      FreeGood(w2, p);
      DeallocKeepsOthers(w2.heap, p, q);
      DeallocAligned(p);
      BytesArrived(w0.mem, w1.mem, w2.mem, mem, w0.heap, w2.heap, p, q, copySize);
    }
  }

  function Min(a: nat, b: int): int {
    if a <= b then a else b
  }

  lemma AllocOutcome(w: Words, size: nat, align: nat)
    requires Good(w) && AlignOk(align)
    ensures var (h', r) := Alloc(w.heap, size, align);
            (r.None? ==> AllocWords(w, size, align) == w) && (r.Some? ==> r.value != NULL)
  {
    hide HeapOk, Image, FirstFit, PlaceLarge, PlaceWords, PopWords, CarveWords, SlabWords, Pop, Carve, CutSlab,
      LargeNeed, LargePayload, ClassSize, CellSize, RoundUp8, Addr, SlabCell, Served;
    AllocFacts(w.heap, size, align);
    var (h', r) := Alloc(w.heap, size, align);
    if r.Some? {
      ServedNotNull(w.heap, h', r.value, size, align);
    }
  }

  lemma ServedNotNull(h: Heap, h': Heap, p: nat, size: nat, align: nat)
    requires Served(h, h', p, size, align)
    ensures p != NULL
  {
    hide AlignedTo, ClassSize;
  }

  /** After the allocation both payloads are held, apart, and as large as they should be. */
  lemma OldAndNew(w: Words, size: nat, align: nat, p: nat, q: nat)
    requires Good(w) && AlignOk(align) && p in w.heap.live && w.heap.live[p].Large?
    requires Alloc(w.heap, size, align).1 == Some(q)
    ensures var w1 := AllocWords(w, size, align);
            && Good(w1) && w1.heap == Alloc(w.heap, size, align).0 && KeepsData(w.mem, w1.mem, w.heap)
            && p in w1.heap.live && w1.heap.live[p] == w.heap.live[p]
            && q in w1.heap.live && p != q && q !in w.heap.live
            && size <= Capacity(w1.heap, q) && p % 8 == 0 && q % 8 == 0
            && Capacity(w1.heap, p) == Capacity(w.heap, p) >= 0
            && Before(p, Capacity(w1.heap, p), q, Capacity(w1.heap, q)) && w1.heap.live[q].size == size
  {
    hide HeapOk, Image, Alloc, AllocWords, ClassSize, AlignedTo;
    AllocGood(w, size, align);
    AllocFacts(w.heap, size, align);
    AllocKeepsOthers(w.heap, size, align, p);
    var h := AllocWords(w, size, align).heap;
    LiveInRegion(h, p);
    LiveInRegion(h, q);
    LiveApart(h, p, q);
    FeetHoldPayloads(h, p);
    FeetHoldPayloads(h, q);
  }

  lemma FeetHoldPayloads(h: Heap, p: nat)
    requires HeapOk(h) && p in h.live
    ensures (h.live[p].Small? ==> p >= WORD) && Capacity(h, p) >= 0
    ensures Foot(h, p).0 <= p && p + Capacity(h, p) == Foot(h, p).0 + Foot(h, p).1
  {
    hide HeapOk, ClassSize;
    LiveInRegion(h, p);
  }

  /** The copy writes only words of the new payload. */
  lemma CopyStaysInPayload(w: Words, m': Memory, p: nat, q: nat, n: nat)
    requires Good(w) && q in w.heap.live && n <= Capacity(w.heap, q) && CopiedBytes(w.mem, m', p, q, n)
    ensures Good(w.(mem := m'))
  {
    hide HeapOk, Image, Quiet, ByteFrom, ClassSize;
    forall x: nat | !Quiet(w.heap, x)
      ensures Load(m', x) == Load(w.mem, x)
    {
      if q <= x < q + n {
        PayloadIsQuiet(w.heap, q, x);
      }
    }
    QuietFrame(w.mem, m', w.heads, w.heap);
  }

  lemma WordUnder(m: Memory, m': Memory, base: nat, j: nat)
    requires base % 8 == 0 && Load(m', base + 8 * (j / 8)) == Load(m, base + 8 * (j / 8))
    ensures ByteFrom(m', base, j) == ByteFrom(m, base, j)
  {
    WordOfByte(base, j);
  }

  /** What the fresh payload holds in the end is what the old one held at first. */
  lemma BytesArrived(m0: Memory, m1: Memory, m2: Memory, m3: Memory, h0: Heap, h2: Heap, p: nat, q: nat, n: nat)
    requires KeepsData(m0, m1, h0) && CopiedBytes(m1, m2, p, q, n) && KeepsData(m2, m3, h2)
    requires p in h0.live && n <= Capacity(h0, p) && q in h2.live && n <= Capacity(h2, q) && p % 8 == 0 && q % 8 == 0
    ensures forall j: nat | j < n :: ByteFrom(m3, q, j) == ByteFrom(m0, p, j)
  {
    hide ByteFrom, ClassSize;
    forall j: nat | j < n
      ensures ByteFrom(m3, q, j) == ByteFrom(m0, p, j)
    {
      assert 8 * (j / 8) <= j;
      WordUnder(m0, m1, p, j);
      WordUnder(m2, m3, q, j);
    }
  }

  lemma FirstThatFits(size: nat, i: Bucket)
    requires size <= ClassSize(i) && forall j: Bucket | j < i :: ClassSize(j) < size
    ensures BucketFor(size) == Some(i)
  {
    var r := BucketFor(size);
    assert ClassSize(i) <= ClassSize(9);
    assert !(r.value < i) && !(i < r.value);
  }

  lemma BucketFits(size: nat)
    ensures BucketFor(size).Some? ==> size <= ClassSize(BucketFor(size).value)
  {
  }

  lemma NeedIs(size: nat, align: nat)
    ensures LargeNeed(size, align) == RoundUp8(size + (align + 2 * WORD))
  {
  }

  lemma PayloadIs(b: nat, align: nat, p: nat)
    requires align > 0
    requires var c := b + HEADER + 2 * WORD; p == c + (if c % align == 0 then 0 else align - c % align)
    ensures LargePayload(b, align) == p
  {
  }

  lemma PlaceLargeFields(h: Heap, i: nat, size: nat, align: nat)
    requires i < |h.blocks| && align > 0 && h.blocks[i].size >= LargeNeed(size, align)
    ensures var h' := PlaceLarge(h, i, size, align);
            h'.arenaPtr == h.arenaPtr && h'.arenaEnd == h.arenaEnd && h'.blocks != []
  {
    hide LargeNeed, LargePayload, Addr;
  }

  lemma ClassesDiffer(i: Bucket, j: Bucket)
    ensures BUCKET_SIZES[i] == ClassSize(j) <==> i == j
  {
    assert i != j ==> BUCKET_SIZES[i] != BUCKET_SIZES[j];
  }

  /**
   The word that decides can be any word at all: when the cell in front of a cell is
   held by a caller, whatever that caller keeps in its last word is read instead.
   */
  lemma NeighbourDecides(m: Memory, heads: Heads, h: Heap, p: nat, q: nat, v: nat)
    requires HeapOk(h) && Image(m, heads, h) && p in h.live && q in h.live && h.live[p].Small? && h.live[q].Small?
    requires q == p + ClassSize(h.live[p].bucket) + WORD
    ensures WordOf(h, p, q - 2 * WORD)
    ensures Image(m[q - 2 * WORD := v], heads, h) && Load(m[q - 2 * WORD := v], q - 2 * WORD) == v
  {
    hide HeapOk, Image, ClassSize;
    LiveInRegion(h, q);
    CallersCannotDisturb(m, heads, h, p, q - 2 * WORD, v);
  }

  lemma CarvesNext(h: Heap)
    requires h.lists[0] == [] && h.arenaPtr % 8 == 0 && h.arenaPtr + 16 <= h.arenaEnd
    ensures Alloc(h, 8, 8) == (Carve(h, 0, 8), Some(h.arenaPtr + 8))
    ensures var h' := Carve(h, 0, 8);
            && h'.lists == h.lists && h'.arenaPtr == h.arenaPtr + 16 && h'.arenaEnd == h.arenaEnd
            && h'.live == h.live[h.arenaPtr + 8 := Small(0, 8)]
  {
    RoundUp8Exact(h.arenaPtr);
    hide RoundUp8, FirstFit, CutSlab;
    assert BucketFor(8) == Some(0) && CellSize(0) == 16;
  }

  lemma FreshHeap(h: Heap)
    requires h == InitHeap(4096, 4096)
    ensures h.lists[0] == [] && h.arenaPtr == 4096 && h.arenaEnd == 7168 && h.live == map[]
  {
  }

  /** A run in which a freed cell does not come back: the cell in front of it holds the sentinel as data. */
  method FreeGoesAstray() returns (lists: Heads, p: nat, q: nat)
    ensures p == 4104 && q == 4120 && lists[0] != q - WORD
  {
    hide HeapOk, Image, Alloc, AllocWords, FreeWords, Carve, Dealloc, AllocOk;
    var a := new SegregatedAllocator(4096, 4096, map[]);
    FreshHeap(a.heap);
    CarvesNext(a.heap);
    CarvesNext(Carve(a.heap, 0, 8));
    p := a.AllocAligned(8, 8);
    q := a.AllocAligned(8, 8);
    NeighbourDecides(a.mem, a.freeLists, a.heap, p, q, SENTINEL);
    a.mem := a.mem[p := SENTINEL];
    a.DeallocAligned(q);
    lists := a.freeLists;
  }

  lemma SlabFields(h: Heap, i: nat, k: Bucket, size: nat)
    requires i < |h.blocks| && h.blocks[i].size >= SLAB_COUNT * CellSize(k)
    ensures var h' := CutSlab(h, i, k, size); h'.arenaPtr == h.arenaPtr && h'.arenaEnd == h.arenaEnd && h'.blocks != []
  {
    hide Addr, SlabSet, SlabList, SlabCell, CellSize;
  }

  lemma PopFields(h: Heap, k: Bucket, size: nat)
    requires h.lists[k] != []
    ensures Pop(h, k, size).arenaPtr == h.arenaPtr && Pop(h, k, size).arenaEnd == h.arenaEnd
    ensures Pop(h, k, size).blocks == h.blocks
  {
  }

  lemma CarveFields(h: Heap, k: Bucket, size: nat)
    ensures Carve(h, k, size).arenaPtr == RoundUp8(h.arenaPtr) + CellSize(k)
    ensures Carve(h, k, size).arenaEnd == h.arenaEnd && Carve(h, k, size).blocks == h.blocks
  {
  }

  lemma DeallocFields(h: Heap, p: nat)
    requires p in h.live && AllocOk(h, p, h.live[p])
    ensures Dealloc(h, p).arenaPtr == h.arenaPtr && Dealloc(h, p).arenaEnd == h.arenaEnd
    ensures (Dealloc(h, p).blocks == []) == (h.blocks == [])
  {
    hide Addr, AlignedTo, ClassSize;
  }

  lemma ListStart(h: Heap)
    ensures h.blocks != [] ==> Addr(h.arenaEnd, h.blocks, 0) == h.arenaEnd
  {
  }

  /** What the loop reads from the header it stands on. */
  lemma BlockWords(m: Memory, heads: Heads, h: Heap, i: nat)
    requires Image(m, heads, h) && i < |h.blocks|
    ensures var a := Addr(h.arenaEnd, h.blocks, i);
            && Load(m, a) == h.blocks[i].size && (Load(m, a + 24) != 0 <==> h.blocks[i].free)
            && Load(m, a + 8) == (if i + 1 < |h.blocks| then Addr(h.arenaEnd, h.blocks, i + 1) else NULL)
  {
    hide Addr, Chains, Tags;
    LinkedHere(m, h.arenaEnd, h.blocks, i);
  }

  lemma BlockNotNull(m: Memory, heads: Heads, h: Heap, i: nat)
    requires Image(m, heads, h)
    ensures i < |h.blocks| ==> Addr(h.arenaEnd, h.blocks, i) != NULL
  {
    if i < |h.blocks| {
      AddrOrder(h.arenaEnd, h.blocks, i, |h.blocks|);
    }
  }

  lemma FitStep(bs: seq<Block>, n: nat, i: nat)
    requires i <= |bs|
    ensures i == |bs| ==> FirstFit(bs, n, i) == None
    ensures i < |bs| && bs[i].free && bs[i].size >= n ==> FirstFit(bs, n, i) == Some(i)
    ensures i < |bs| && !(bs[i].free && bs[i].size >= n) ==> FirstFit(bs, n, i) == FirstFit(bs, n, i + 1)
  {
  }

}
