/** `map_page` and `init_paging` as they work on physical memory. */
module AddressSpaces {
  import opened Bytes
  import opened Frames
  import opened PageTables
  import opened PageTree
  import opened PageRights
  import opened Paging
  import opened PageCost

  class AddressSpace {
    var mem: Memory
    const root: nat
    const alloc: FrameAllocator
    ghost var tables: Tables

    ghost function Abs(): Space
      reads this, alloc
    {
      Space(mem, tables, alloc.Remaining())
    }

    ghost predicate Valid()
      reads this, alloc
    {
      SpaceOk(Abs(), root)
    }

    /** A zeroed root table. */
    constructor (mem: Memory, root: nat, alloc: FrameAllocator)
      requires FrameAddress(root) && root in mem
      requires FreshFrames(Space(mem, map[root := Node(4, root, 0)], alloc.Remaining()))
      ensures Valid() && this.root == root && this.alloc == alloc && this.mem == mem[root := ZERO_PAGE]
      ensures tables == map[root := Node(4, root, 0)]
      ensures forall q | PathOk(q) :: WalkPath(this.mem, root, q) == None
      ensures Covers(this.mem, root, {})
    {
      this.mem, this.root, this.alloc := mem[root := ZERO_PAGE], root, alloc;
      tables := map[root := Node(4, root, 0)];
      new;
      EmptyTree(this.mem, root);
    }

    /** Zero the frame and point the slot at it. */
    method HangTable(parent: nat, slot: nat, f: nat)
      requires parent in mem && parent != f && slot < 512 && FrameAddress(f)
      requires parent in tables && tables[parent].level > 1
      modifies this
      ensures mem == Hang(old(mem), parent, slot, f)
      ensures tables == old(tables)[f := Node(old(tables)[parent].level - 1, parent, slot)]
    {
      mem := mem[f := ZERO_PAGE];
      mem := mem[parent := WithEntry(mem[parent], slot, TableEntry(f))];
      tables := tables[f := Node(tables[parent].level - 1, parent, slot)];
    }

    method EnsureTable(parent: nat, slot: nat) returns (child: Option<nat>)
      requires Valid() && parent in tables && tables[parent].level > 1 && slot < 512
      modifies this, alloc
      ensures (Abs(), child) == Ensure(old(Abs()), parent, slot)
    {
      hide SpaceOk, Entry, Hang, IsPresent, Target;
      EnsureReady(Abs(), root, parent);
      if !IsPresent(Entry(mem[parent], slot)) {
        var frame := alloc.AllocateFrame();
        if frame.None? {
          return None;
        }
        HangChildren(mem, parent, slot, frame.value, parent, slot);
        HangTable(parent, slot, frame.value);
      }
      assert Child(mem, parent, slot).Some?;
      return Some(Target(Entry(mem[parent], slot)));
    }

    method DescendTo(virt: nat) returns (pt: Option<nat>)
      requires Valid()
      modifies this, alloc
      ensures (Abs(), pt) == Descend(old(Abs()), root, PathOf(virt))
    {
      ghost var p := PathOf(virt);
      assert p == Path(Index(virt, 4), Index(virt, 3), Index(virt, 2), Index(virt, 1));
      hide SpaceOk, Evolves, SameWalks, LinksKept, NoChildren, Ensure, PathOf, Index, Child;
      RootIsTop(Abs(), root);
      EnsureFacts(Abs(), root, root, p.i4);
      var pdpt := EnsureTable(root, Index(virt, 4));
      if pdpt.None? {
        return None;
      }
      EnsureFacts(Abs(), root, pdpt.value, p.i3);
      var pd := EnsureTable(pdpt.value, Index(virt, 3));
      if pd.None? {
        return None;
      }
      pt := EnsureTable(pd.value, Index(virt, 2));
    }

    /** False where the source panics for want of a frame. */
    method MapPage(virt: nat, phys: nat, flags: u64) returns (ok: bool)
      requires Valid() && FrameAddress(phys) && FlagsOk(flags)
      modifies this, alloc
      ensures (Abs(), ok) == MapAt(old(Abs()), root, PathOf(virt), LeafEntry(phys, flags))
      ensures ok <==> Missing(old(mem), root, PathOf(virt)) <= |old(alloc.Remaining())|
      ensures ok ==> Mapped(old(Abs()), root, PathOf(virt), LeafEntry(phys, flags), Abs())
      ensures ok ==> Retranslated(old(mem), mem, root, virt, phys, flags)
    {
      ghost var before := Abs();
      LeafFields(phys, flags);
      MapRefinesUpdate(Abs(), root, PathOf(virt), LeafEntry(phys, flags));
      DescendFacts(Abs(), root, PathOf(virt));
      assert PathOf(virt).i1 == Index(virt, 1);
      hide SpaceOk, Evolves, SameWalks, Mapped, Descend, LeafEntry, WithEntry, PathOf, WalkPath, Index, Missing;
      hide Retranslated;
      var pt := DescendTo(virt);
      if pt.None? {
        return false;
      }
      TableInMemory(Abs(), root, pt.value);
      mem := mem[pt.value := WithEntry(mem[pt.value], Index(virt, 1), LeafEntry(phys, flags))];
      MappedTranslates(before, Abs(), root, virt, phys, flags);
      return true;
    }
  }

  lemma TableInMemory(sp: Space, root: nat, f: nat)
    requires SpaceOk(sp, root) && f in sp.tables
    ensures f in sp.mem
  {
    assert TableOk(sp.mem, root, sp.tables, f);
  }

  lemma EmptyTree(mem: Memory, root: nat)
    requires FrameAddress(root) && root in mem && mem[root] == ZERO_PAGE
    ensures IsTree(mem, root, map[root := Node(4, root, 0)])
    ensures forall q | PathOk(q) :: WalkPath(mem, root, q) == None
    ensures Covers(mem, root, {})
  {
    forall i: nat | i < 512
      ensures Child(mem, root, i) == None
    {
      ZeroEntry(i);
    }
    hide Child;
    NothingCovered(mem, root);
    forall q | PathOk(q)
      ensures WalkPath(mem, root, q) == None
    {
      assert Table3(mem, root, q) == None;
    }
  }

  // ---------------------------------------------------------------- by page address

  lemma PathIffPage(v: nat, w: nat)
    ensures PathOf(v) == PathOf(w) <==> PageOf(v) == PageOf(w)
  {
    SamePageIffSameIndices(v, w);
  }

  /** One page now has leaf `e`; all other addresses translate as before. */
  ghost predicate Updated(mem: Memory, mem': Memory, root: nat, virt: nat, e: u64) {
    forall w: nat :: Walk(mem', root, w) == if PageOf(w) == PageOf(virt) then Some(e) else Walk(mem, root, w)
  }

  lemma MappedIsUpdate(sp: Space, sp': Space, root: nat, virt: nat, e: u64)
    requires Mapped(sp, root, PathOf(virt), e, sp')
    ensures Updated(sp.mem, sp'.mem, root, virt, e)
  {
    hide WalkPath, PathOf, PageOf, SpaceOk, Evolves;
    forall w: nat
      ensures Walk(sp'.mem, root, w) == if PageOf(w) == PageOf(virt) then Some(e) else Walk(sp.mem, root, w)
    {
      PathIffPage(w, virt);
      assert PathOk(PathOf(w));
    }
  }

  /** For the hardware: the page leads to the frame with the rights in the flags; all other addresses as before. */
  ghost predicate Retranslated(mem: Memory, mem': Memory, root: nat, virt: nat, phys: nat, flags: u64) {
    forall w: nat ::
      Translate(mem', root, w) ==
      if PageOf(w) == PageOf(virt)
      then Some(Mapping(phys, flags / 2 % 2 == 1, flags / 4 % 2 == 1, flags < 0x8000_0000_0000_0000))
      else Translate(mem, root, w)
  }

  lemma MappedTranslates(sp: Space, sp': Space, root: nat, virt: nat, phys: nat, flags: u64)
    requires SpaceOk(sp, root) && FrameAddress(phys) && FlagsOk(flags)
    requires Mapped(sp, root, PathOf(virt), LeafEntry(phys, flags), sp')
    ensures Retranslated(sp.mem, sp'.mem, root, virt, phys, flags)
  {
    MappedIsUpdate(sp, sp', root, virt, LeafEntry(phys, flags));
    LeafGives(phys, flags);
    MappedIsTree(sp, sp', root, virt, LeafEntry(phys, flags));
    hide Mapped, WalkPath, PageOf, Translate, LeafEntry, LeafMapping, PathOf, IsTree, Walk;
    forall w: nat
      ensures Translate(sp'.mem, root, w) ==
              if PageOf(w) == PageOf(virt) then Some(LeafMapping(LeafEntry(phys, flags)))
              else Translate(sp.mem, root, w)
    {
      LeafDecidesAt(sp.mem, root, sp.tables, w);
      LeafDecidesAt(sp'.mem, root, sp'.tables, w);
    }
  }

  lemma MappedIsTree(sp: Space, sp': Space, root: nat, virt: nat, e: u64)
    requires Mapped(sp, root, PathOf(virt), e, sp')
    ensures IsTree(sp'.mem, root, sp'.tables)
  {
  }

  // ---------------------------------------------------------------- identity mapping

  function PageAt(base: nat, k: nat): nat {
    base + k * PAGE_SIZE
  }

  ghost function RangePages(base: nat, count: nat): set<nat> {
    set k: nat | k < count :: PageAt(base, k)
  }

  /** Exactly the pages in `pages` are mapped, each to itself, for the kernel, to read, write and execute. */
  ghost predicate IdentityOn(mem: Memory, root: nat, pages: set<nat>) {
    forall w: nat ::
      Translate(mem, root, w) == if PageOf(w) in pages then Some(Mapping(PageOf(w), true, false, true)) else None
  }

  lemma IdentityGrows(mem: Memory, mem': Memory, root: nat, pages: set<nat>, a: nat)
    requires IdentityOn(mem, root, pages) && a % PAGE_SIZE == 0 && a < LOW_LIMIT
    requires Retranslated(mem, mem', root, a, a, WRITABLE)
    ensures IdentityOn(mem', root, pages + {a})
  {
    PageOfAligned(a);
    WritableOnly();
    hide Translate, PageOf;
    forall w: nat
      ensures Translate(mem', root, w) ==
              if PageOf(w) in pages + {a} then Some(Mapping(PageOf(w), true, false, true)) else None
    {
      assert PageOf(w) in pages + {a} <==> PageOf(w) in pages || PageOf(w) == a;
    }
  }

  lemma WritableOnly()
    ensures WRITABLE / 2 % 2 == 1 && WRITABLE / 4 % 2 != 1 && WRITABLE < 0x8000_0000_0000_0000
  {
  }

  /** Maps a page to itself, if the tables on the way to it can be had. */
  method MapSelf(space: AddressSpace, a: nat, flags: u64) returns (ok: bool, ghost used: nat)
    requires space.Valid() && FrameAddress(a) && FlagsOk(flags)
    modifies space, space.alloc
    ensures used == Missing(old(space.mem), space.root, PathOf(a)) <= 3
    ensures ok <==> used <= |old(space.Abs()).rest|
    ensures ok ==>
              && space.Valid() && Evolves(old(space.Abs()), space.Abs(), used)
              && Updated(old(space.mem), space.mem, space.root, a, LeafEntry(a, flags))
              && Retranslated(old(space.mem), space.mem, space.root, a, a, flags)
              && AllAdded(old(space.mem), space.mem, space.root, PathOf(a))
              && |old(space.Abs()).rest| == |space.Abs().rest| + used
  {
    hide SpaceOk, Missing, WalkPath, PathOf, LeafEntry, Updated, AllAdded, MapAt, Retranslated;
    ghost var sp := space.Abs();
    used := Missing(sp.mem, space.root, PathOf(a));
    MissingAtMostThree(sp.mem, space.root, PathOf(a));
    ok := space.MapPage(a, a, flags);
    if ok {
      MappedIsUpdate(sp, space.Abs(), space.root, a, LeafEntry(a, flags));
      MapAdds(sp, space.root, PathOf(a), LeafEntry(a, flags));
    }
  }

  /** `pages` are mapped to themselves, and exactly their tables exist. */
  ghost predicate Established(mem: Memory, root: nat, pages: set<nat>) {
    LowPages(pages) && IdentityOn(mem, root, pages) && Covers(mem, root, pages)
  }

  lemma EstablishedGrows(mem: Memory, mem': Memory, root: nat, pages: set<nat>, a: nat)
    requires Established(mem, root, pages) && a % PAGE_SIZE == 0 && a < LOW_LIMIT
    requires Retranslated(mem, mem', root, a, a, WRITABLE) && AllAdded(mem, mem', root, PathOf(a))
    ensures Established(mem', root, pages + {a})
    ensures TableCount(pages + {a}) == TableCount(pages) + Missing(mem, root, PathOf(a))
  {
    hide IdentityOn, Covers, Retranslated, AllAdded, PathOf, TableCount, Missing;
    IdentityGrows(mem, mem', root, pages, a);
    CoversGrows(mem, mem', root, pages, a);
    MissingIsNew(mem, root, pages, a);
  }

  /** From `pages` to `done`: the tables that `done` needs beyond those of `pages` have been taken, no more. */
  ghost predicate Spent(start: Space, sp: Space, pages: set<nat>, done: set<nat>) {
    && TableCount(pages) <= TableCount(done) && Evolves(start, sp, TableCount(done) - TableCount(pages))
    && TableCount(done) + |sp.rest| == TableCount(pages) + |start.rest|
  }

  lemma SpentNothing(sp: Space, pages: set<nat>)
    ensures Spent(sp, sp, pages, pages)
  {
    hide TableCount;
    EvolvesSelf(sp);
  }

  lemma SpentOnOne(sp: Space, sp': Space, used: nat, pages: set<nat>, done: set<nat>)
    requires Evolves(sp, sp', used) && |sp.rest| == |sp'.rest| + used && TableCount(done) == TableCount(pages) + used
    ensures Spent(sp, sp', pages, done)
  {
    hide TableCount, Evolves;
  }

  lemma SpentOn(start: Space, sp: Space, sp': Space, pages: set<nat>, some: set<nat>, done: set<nat>)
    requires Spent(start, sp, pages, some) && Spent(sp, sp', some, done)
    ensures Spent(start, sp', pages, done)
  {
    hide TableCount, Evolves;
    EvolvesOn(start, sp, sp', TableCount(some) - TableCount(pages), TableCount(done) - TableCount(some));
  }

  method IdentityMap(space: AddressSpace, base: nat, count: nat, ghost pages: set<nat>) returns (ok: bool)
    requires space.Valid() && base % PAGE_SIZE == 0 && base + count * PAGE_SIZE <= LOW_LIMIT
    requires Established(space.mem, space.root, pages)
    modifies space, space.alloc
    ensures ok <==> TableCount(pages + RangePages(base, count)) <= TableCount(pages) + |old(space.Abs()).rest|
    ensures ok ==>
              && space.Valid() && Established(space.mem, space.root, pages + RangePages(base, count))
              && Spent(old(space.Abs()), space.Abs(), pages, pages + RangePages(base, count))
  {
    hide SpaceOk, Established, Evolves, Updated, LeafEntry, AllAdded, TableCount, Missing, PathOf, RangePages;
    hide Retranslated, Spent;
    ghost var all := pages + RangePages(base, count);
    ghost var done, start := pages, space.Abs();
    EmptyRange(pages, base);
    SpentNothing(start, pages);
    for k := 0 to count
      invariant space.Valid() && done == pages + RangePages(base, k)
      invariant Established(space.mem, space.root, done)
      invariant Spent(start, space.Abs(), pages, done)
    {
      var a := base + k * PAGE_SIZE;
      ghost var before := space.Abs();
      IdentityStep(base, k, count);
      PartOfRange(pages, base, k, count);
      MissingCounts(before.mem, space.root, done, a);
      MorePagesMoreTables(done + {a}, all);
      SpentLeaves(start, before, pages, done);
      ghost var used;
      ok, used := MapSelf(space, a, WRITABLE);
      if !ok {
        return;
      }
      EstablishedGrows(before.mem, space.mem, space.root, done, a);
      SpentOnOne(before, space.Abs(), used, done, done + {a});
      SpentOn(start, before, space.Abs(), pages, done, done + {a});
      done := done + {a};
    }
    SpentLeaves(start, space.Abs(), pages, done);
    return true;
  }

  lemma SpentLeaves(start: Space, sp: Space, pages: set<nat>, done: set<nat>)
    requires Spent(start, sp, pages, done)
    ensures TableCount(done) + |sp.rest| == TableCount(pages) + |start.rest|
  {
  }

  lemma MissingCounts(mem: Memory, root: nat, pages: set<nat>, a: nat)
    requires Established(mem, root, pages) && a < LOW_LIMIT
    ensures TableCount(pages + {a}) == TableCount(pages) + Missing(mem, root, PathOf(a))
  {
    hide IdentityOn, Covers, TableCount, Missing, PathOf;
    MissingIsNew(mem, root, pages, a);
  }

  lemma EmptyRange(pages: set<nat>, base: nat)
    ensures pages + RangePages(base, 0) == pages
  {
    assert RangePages(base, 0) == {};
  }

  lemma PartOfRange(pages: set<nat>, base: nat, k: nat, count: nat)
    requires k < count
    ensures pages + RangePages(base, k) + {base + k * PAGE_SIZE} == pages + RangePages(base, k + 1)
    ensures pages + RangePages(base, k + 1) <= pages + RangePages(base, count)
  {
    assert PageAt(base, k) == base + k * PAGE_SIZE;
    assert RangePages(base, k + 1) == RangePages(base, k) + {PageAt(base, k)};
    forall x | x in RangePages(base, k + 1)
      ensures x in RangePages(base, count)
    {
      var j: nat :| j < k + 1 && x == PageAt(base, j);
    }
  }

  lemma IdentityStep(base: nat, k: nat, count: nat)
    requires base % PAGE_SIZE == 0 && k < count && base + count * PAGE_SIZE <= LOW_LIMIT
    ensures var a := base + k * PAGE_SIZE; a % PAGE_SIZE == 0 && a < LOW_LIMIT && FrameAddress(a)
  {
    DivModUnique(base + k * PAGE_SIZE, PAGE_SIZE, base / PAGE_SIZE + k, 0);
  }

  /** The descriptor kinds that init_paging maps. */
  predicate MappedKind(kind: u32) {
    kind == 7 || 1 <= kind <= 6 || 9 <= kind <= 12
  }

  ghost function ListedPages(regions: seq<Descriptor>): set<nat> {
    if regions == [] then {}
    else
      var d := regions[|regions| - 1];
      ListedPages(regions[..|regions| - 1]) + (if MappedKind(d.kind) then RangePages(d.start, d.pages) else {})
  }

  lemma {:induction false} ListedGrows(regions: seq<Descriptor>, i: nat)
    requires i <= |regions|
    ensures ListedPages(regions[..i]) <= ListedPages(regions)
    decreases |regions|
  {
    if i == |regions| {
      assert regions[..i] == regions;
    } else {
      ListedGrows(regions[..|regions| - 1], i);
      assert regions[..|regions| - 1][..i] == regions[..i];
    }
  }

  ghost predicate DescriptorsLow(regions: seq<Descriptor>) {
    forall i | 0 <= i < |regions| ::
      regions[i].start % PAGE_SIZE == 0 && regions[i].start + regions[i].pages * PAGE_SIZE <= LOW_LIMIT
  }

  ghost function FramebufferPages(fbBase: nat, fbSize: nat): set<nat> {
    RangePages(fbBase, (fbSize + PAGE_SIZE - 1) / PAGE_SIZE)
  }

  /**
   Builds the kernel's identity map.  Null is the panic for want of a frame.  On
   return exactly the pages of the listed descriptors and of the framebuffer are mapped,
   each to itself, although the tables are themselves carved out of the memory being
   mapped while the loops run; the tables too can be reached through the map.  It fails
   exactly when there are fewer frames than the root and the tables those pages need.
   */
  method InitPaging(mem: Memory, alloc: FrameAllocator, fbBase: nat, fbSize: nat) returns (space: AddressSpace?)
    requires FreshFrames(Space(mem, map[], alloc.Remaining()))
    requires DescriptorsLow(alloc.memoryMap) && fbBase % PAGE_SIZE == 0 && fbBase + fbSize <= LOW_LIMIT
    modifies alloc
    ensures space != null ==>
              && fresh(space) && space.Valid() && space.alloc == alloc
              && IdentityOn(space.mem, space.root, ListedPages(alloc.memoryMap) + FramebufferPages(fbBase, fbSize))
              && forall f | f in space.tables ::
                   Translate(space.mem, space.root, f) == Some(Mapping(f, true, false, true))
    ensures space != null <==>
              1 + TableCount(ListedPages(alloc.memoryMap) + FramebufferPages(fbBase, fbSize)) <=
              |old(alloc.Remaining())|
  {
    hide IdentityOn, WalkPath, PathOf, Covers, TableCount, ListedPages, RangePages, Translate, RestOf, Supply, Spent;
    hide Established;
    ghost var rest := alloc.Remaining();
    RemainingIsListed(alloc);
    var pml4 := alloc.AllocateFrame();
    if pml4.None? {
      return null;
    }
    RestAfterRoot(mem, rest);
    var sp := new AddressSpace(mem, pml4.value, alloc);
    EmptyEstablished(sp.mem, sp.root, sp.tables);
    hide SpaceOk, FreshFrames;
    ghost var sp0 := sp.Abs();
    NoTablesYet();
    ghost var listed := ListedPages(alloc.memoryMap);
    ghost var all := listed + FramebufferPages(fbBase, fbSize);
    MorePagesMoreTables(listed, all);
    var ok := MapListed(sp);
    if !ok {
      return null;
    }
    ghost var before := sp.Abs();
    SpentLeaves(sp0, before, {}, listed);
    FramebufferFits(fbBase, fbSize);
    ok := IdentityMap(sp, fbBase, (fbSize + PAGE_SIZE - 1) / PAGE_SIZE, listed);
    if !ok {
      return null;
    }
    SpentOn(sp0, before, sp.Abs(), {}, listed, all);
    TablesAreMapped(sp0, sp.Abs(), sp.root, rest, alloc.memoryMap, all);
    return sp;
  }

  /** The loop over the descriptors. */
  method MapListed(sp: AddressSpace) returns (ok: bool)
    requires sp.Valid() && Established(sp.mem, sp.root, {}) && DescriptorsLow(sp.alloc.memoryMap)
    modifies sp, sp.alloc
    ensures ok <==> TableCount(ListedPages(sp.alloc.memoryMap)) <= |old(sp.Abs()).rest|
    ensures ok ==>
              && sp.Valid() && Established(sp.mem, sp.root, ListedPages(sp.alloc.memoryMap))
              && Spent(old(sp.Abs()), sp.Abs(), {}, ListedPages(sp.alloc.memoryMap))
  {
    hide SpaceOk, TableCount, ListedPages, RangePages, Spent, Established;
    var regions := sp.alloc.memoryMap;
    ghost var sp0, pages, all := sp.Abs(), {}, ListedPages(regions);
    NoPagesYet(regions);
    NoTablesYet();
    SpentNothing(sp0, {});
    for i := 0 to |regions|
      invariant sp.Valid() && pages == ListedPages(regions[..i]) && Established(sp.mem, sp.root, pages)
      invariant Spent(sp0, sp.Abs(), {}, pages)
    {
      ghost var before := sp.Abs();
      var d := regions[i];
      OneMoreDescriptor(regions, i, all);
      SpentLeaves(sp0, before, {}, pages);
      if MappedKind(d.kind) {
        MorePagesMoreTables(pages + RangePages(d.start, d.pages), all);
        ok := IdentityMap(sp, d.start, d.pages, pages);
        if !ok {
          return;
        }
        SpentOn(sp0, before, sp.Abs(), {}, pages, pages + RangePages(d.start, d.pages));
        pages := pages + RangePages(d.start, d.pages);
      }
    }
    assert regions[..|regions|] == regions;
    SpentLeaves(sp0, sp.Abs(), {}, pages);
    return true;
  }

  lemma EmptyEstablished(mem: Memory, root: nat, ts: Tables)
    requires IsTree(mem, root, ts) && Covers(mem, root, {}) && forall q | PathOk(q) :: WalkPath(mem, root, q) == None
    ensures Established(mem, root, {})
  {
    hide IsTree, Covers, WalkPath, IdentityOn;
    EmptyIdentity(mem, root, ts);
  }

  /** Which pages are listed, by the kinds of the UEFI specification, section 7.2. */
  lemma {:induction false} ListedMembers(regions: seq<Descriptor>, a: nat)
    ensures a in ListedPages(regions) <==>
            exists i | 0 <= i < |regions| ::
              regions[i].kind in {1, 2, 3, 4, 5, 6, 7, 9, 10, 11, 12} && InDescriptor(regions[i], a)
  {
    if regions != [] {
      var n := |regions| - 1;
      ListedMembers(regions[..n], a);
      RangeIsDescriptor(regions[n], a);
      hide InDescriptor, RangePages;
      assert forall i | 0 <= i < n :: regions[..n][i] == regions[i];
      if i :| 0 <= i < |regions| && regions[i].kind in {1, 2, 3, 4, 5, 6, 7, 9, 10, 11, 12} &&
              InDescriptor(regions[i], a)
      {
        assert i < n ==> regions[..n][i].kind in {1, 2, 3, 4, 5, 6, 7, 9, 10, 11, 12};
      }
    }
  }

  lemma RangeIsDescriptor(d: Descriptor, a: nat)
    ensures a in RangePages(d.start, d.pages) <==> InDescriptor(d, a)
  {
    if a in RangePages(d.start, d.pages) {
      var k: nat :| k < d.pages && a == PageAt(d.start, k);
      assert PageOfDescriptor(d, k) == a;
    }
    if InDescriptor(d, a) {
      var k: nat :| k < d.pages && PageOfDescriptor(d, k) == a;
      assert PageAt(d.start, k) == a;
    }
  }

  /** The framebuffer's pages are those that hold a byte of it. */
  lemma FramebufferMembers(fbBase: nat, fbSize: nat, a: nat)
    requires fbBase % 4096 == 0
    ensures a in FramebufferPages(fbBase, fbSize) <==> exists x | fbBase <= x < fbBase + fbSize :: x - x % 4096 == a
  {
    var n := (fbSize + 4095) / 4096;
    if a in FramebufferPages(fbBase, fbSize) {
      var k: nat :| k < n && a == PageAt(fbBase, k);
      DivModUnique(a, 4096, fbBase / 4096 + k, 0);
      assert fbBase <= a < fbBase + fbSize && a - a % 4096 == a;
    }
    if x :| fbBase <= x < fbBase + fbSize && x - x % 4096 == a {
      var k := (x - fbBase) / 4096;
      DivModUnique(x, 4096, fbBase / 4096 + k, (x - fbBase) % 4096);
      assert k < n && a == PageAt(fbBase, k);
    }
  }

  /** Every frame the allocator can hand out is listed. */
  lemma RemainingIsListed(alloc: FrameAllocator)
    ensures forall f | f in alloc.Remaining() :: f in ListedPages(alloc.memoryMap)
  {
    var regions, n := alloc.memoryMap, alloc.index;
    if n < |regions| {
      forall f | f in alloc.Remaining()
        ensures f in ListedPages(regions)
      {
        if f in RestOf(regions[n], alloc.offset) {
          var k :| 0 <= k < |RestOf(regions[n], alloc.offset)| && RestOf(regions[n], alloc.offset)[k] == f;
          assert PageOfDescriptor(regions[n], alloc.offset + k) == f;
          assert regions[n].kind == 7 && InDescriptor(regions[n], f);
        } else {
          SupplyMembers(regions[n + 1..], f);
          var i :| 0 <= i < |regions[n + 1..]| && Yields(regions[n + 1..][i], f);
          assert regions[n + 1..][i] == regions[n + 1 + i];
        }
        ListedMembers(regions, f);
      }
    }
  }

  lemma TablesAreMapped(sp0: Space, sp: Space, root: nat, rest: seq<nat>, regions: seq<Descriptor>, all: set<nat>)
    requires rest != [] && sp0.tables.Keys == {rest[0]} && sp0.rest == rest[1..] && Spent(sp0, sp, {}, all)
    requires forall f | f in rest :: f in ListedPages(regions)
    requires ListedPages(regions) <= all && Established(sp.mem, root, all) && forall a | a in rest :: a % PAGE_SIZE == 0
    ensures forall f | f in sp.tables :: Translate(sp.mem, root, f) == Some(Mapping(f, true, false, true))
    ensures IdentityOn(sp.mem, root, all)
  {
    hide ListedPages, Covers, Translate, PageOf, TableCount;
    forall f | f in sp.tables
      ensures Translate(sp.mem, root, f) == Some(Mapping(f, true, false, true))
    {
      assert f in sp.tables.Keys;
      assert f in rest;
      PageOfAligned(f);
    }
  }

  lemma NoPagesYet(regions: seq<Descriptor>)
    ensures ListedPages(regions[..0]) == {}
  {
  }

  lemma NoTablesYet()
    ensures TableCount({}) == 0
  {
    assert Regions({}, RegionSize(1)) == Regions({}, RegionSize(2)) == Regions({}, RegionSize(3)) == {};
  }

  lemma OneMoreDescriptor(regions: seq<Descriptor>, i: nat, all: set<nat>)
    requires i < |regions| && ListedPages(regions) <= all
    ensures var d := regions[i];
            && ListedPages(regions[..i + 1]) ==
               ListedPages(regions[..i]) + (if MappedKind(d.kind) then RangePages(d.start, d.pages) else {})
            && ListedPages(regions[..i + 1]) <= all
    ensures ListedPages(regions[..i]) + {} == ListedPages(regions[..i])
  {
    ListedGrows(regions, i + 1);
    assert regions[..i + 1][..i] == regions[..i];
  }

  /** The condition can be met: memory in one 2 MiB region, four frames of it, and no framebuffer. */
  lemma SmallMemorySuffices(start: nat, count: nat)
    requires start % PAGE_SIZE == 0 && start > 0 && count >= 4 && start + count * PAGE_SIZE <= LOW_LIMIT
    requires start / RegionSize(3) == (start + (count - 1) * PAGE_SIZE) / RegionSize(3)
    ensures var regions := [Descriptor(CONVENTIONAL, start, count)];
            && MapOk(regions) && DescriptorsLow(regions)
            && 1 + TableCount(ListedPages(regions) + FramebufferPages(0, 0)) <= |Supply(regions)|
  {
    var regions := [Descriptor(CONVENTIONAL, start, count)];
    var pages := ListedPages(regions) + FramebufferPages(0, 0);
    assert regions[..0] == [] && regions[1..] == [];
    assert ListedPages([]) == {} && ListedPages(regions) == {} + RangePages(start, count);
    forall a | a in pages
      ensures a < LOW_LIMIT && a / RegionSize(3) == start / RegionSize(3)
    {
      InTheRegion(start, count, a);
    }
    OneRegionNeedsThree(pages, start);
    assert |Supply(regions)| == |RestOf(regions[0], 0)| + |Supply([])| == count;
  }

  lemma InTheRegion(start: nat, count: nat, a: nat)
    requires count > 0 && start + count * PAGE_SIZE <= LOW_LIMIT && a in RangePages(start, count)
    requires start / RegionSize(3) == (start + (count - 1) * PAGE_SIZE) / RegionSize(3)
    ensures a < LOW_LIMIT && a / RegionSize(3) == start / RegionSize(3)
  {
    var k: nat :| k < count && a == PageAt(start, k);
    assert start <= a <= start + (count - 1) * PAGE_SIZE;
  }

  lemma FramebufferFits(fbBase: nat, fbSize: nat)
    requires fbBase % PAGE_SIZE == 0 && fbBase + fbSize <= LOW_LIMIT
    ensures fbBase + (fbSize + PAGE_SIZE - 1) / PAGE_SIZE * PAGE_SIZE <= LOW_LIMIT
  {
    var a := fbBase / PAGE_SIZE;
    assert fbBase == a * PAGE_SIZE;
  }

  lemma RestAfterRoot(mem: Memory, rest: seq<nat>)
    requires FreshFrames(Space(mem, map[], rest)) && rest != []
    ensures FreshFrames(Space(mem, map[rest[0] := Node(4, rest[0], 0)], rest[1..]))
  {
  }

  lemma EmptyIdentity(mem: Memory, root: nat, ts: Tables)
    requires IsTree(mem, root, ts) && forall q | PathOk(q) :: WalkPath(mem, root, q) == None
    ensures IdentityOn(mem, root, {})
  {
    hide WalkPath, Translate;
    forall w: nat
      ensures Translate(mem, root, w) == None
    {
      assert PathOk(PathOf(w));
      LeafDecidesAt(mem, root, ts, w);
    }
  }

  /** What InitPaging asks of the allocator holds of a new one over any sane memory map. */
  lemma BootFramesAreFresh(regions: seq<Descriptor>, mem: Memory)
    requires MapOk(regions) && DescriptorsLow(regions) && forall f | f in Supply(regions) :: f in mem
    ensures FreshFrames(Space(mem, map[], Supply(regions)))
    ensures forall f | f in Supply(regions) :: 0 < f < LOW_LIMIT
  {
    SupplyIsFresh(regions);
    forall k | 0 <= k < |Supply(regions)|
      ensures Supply(regions)[k] < LOW_LIMIT
    {
      SupplyMembers(regions, Supply(regions)[k]);
    }
  }
}
