/** Which tables exist, and how many frames a set of pages costs: one for every region it touches at each level. */
module PageCost {
  import opened Bytes
  import opened Frames
  import opened PageTables
  import opened PageTree
  import opened Paging

  // ---------------------------------------------------------------- which tables exist

  /** The first `d` indices are the same. */
  predicate Agree(p: Path, q: Path, d: nat) {
    p.i4 == q.i4 && (d >= 2 ==> p.i3 == q.i3) && (d >= 3 ==> p.i2 == q.i2)
  }

  /** The table that the first `d` indices lead to. */
  function TableAt(mem: Memory, root: nat, q: Path, d: nat): Option<nat>
    requires PathOk(q) && 1 <= d <= 3
  {
    if d == 1 then Table3(mem, root, q) else if d == 2 then Table2(mem, root, q) else Table1(mem, root, q)
  }

  ghost predicate HasTable(mem: Memory, root: nat, q: Path, d: nat)
    requires PathOk(q) && 1 <= d <= 3
  {
    TableAt(mem, root, q, d).Some?
  }

  lemma PrefixDecides(mem: Memory, root: nat, p: Path, q: Path, d: nat)
    requires PathOk(p) && PathOk(q) && 1 <= d <= 3 && Agree(p, q, d)
    ensures TableAt(mem, root, p, d) == TableAt(mem, root, q, d)
  {
    hide Child;
  }

  lemma HangTables(mem: Memory, root: nat, ts: Tables, parent: nat, slot: nat, frame: nat, q: Path)
    requires IsTree(mem, root, ts) && parent in ts && ts[parent].level > 1 && slot < 512
    requires Child(mem, parent, slot) == None && FrameAddress(frame) && frame !in ts && PathOk(q)
    ensures parent in mem
    ensures var mem' := Hang(mem, parent, slot, frame);
            && Table3(mem', root, q) == (if parent == root && q.i4 == slot then Some(frame) else Table3(mem, root, q))
            && Table2(mem', root, q) ==
               (if Table3(mem, root, q) == Some(parent) && q.i3 == slot then Some(frame) else Table2(mem, root, q))
            && Table1(mem', root, q) ==
               (if Table2(mem, root, q) == Some(parent) && q.i2 == slot then Some(frame) else Table1(mem, root, q))
  {
    assert TableOk(mem, root, ts, parent);
    assert TableOk(mem, root, ts, root);
    hide Child, Entry, Hang;
    var mem' := Hang(mem, parent, slot, frame);
    WalkStaysInTree(mem, root, ts, q);
    HangChildren(mem, parent, slot, frame, root, q.i4);
    var u3 := Table3(mem', root, q);
    if u3.Some? {
      HangChildren(mem, parent, slot, frame, u3.value, q.i3);
    }
    var u2 := Table2(mem', root, q);
    if u2.Some? {
      HangChildren(mem, parent, slot, frame, u2.value, q.i2);
    }
  }

  /** Tables below `p` exist down to depth `d` where they did not; all others as before. */
  ghost predicate Added(mem: Memory, mem': Memory, root: nat, p: Path, d: nat) {
    forall q, k | PathOk(q) && 1 <= k <= 3 ::
      HasTable(mem', root, q, k) <==> HasTable(mem, root, q, k) || (k == d && Agree(p, q, k))
  }

  /** The table from which depth `d` of `p` hangs. */
  ghost predicate IsParent(mem: Memory, root: nat, p: Path, d: nat, parent: nat)
    requires PathOk(p) && 1 <= d <= 3
  {
    if d == 1 then parent == root else TableAt(mem, root, p, d - 1) == Some(parent)
  }

  function SlotAt(p: Path, d: nat): nat {
    if d == 1 then p.i4 else if d == 2 then p.i3 else p.i2
  }

  /** Only paths that agree with `p` so far pass through its table. */
  lemma ParentDecides(mem: Memory, root: nat, ts: Tables, p: Path, q: Path, parent: nat)
    requires IsTree(mem, root, ts) && PathOk(p) && PathOk(q)
    ensures Table3(mem, root, p) == Some(parent) ==> (Table3(mem, root, q) == Some(parent) <==> p.i4 == q.i4)
    ensures Table2(mem, root, p) == Some(parent) ==> (Table2(mem, root, q) == Some(parent) <==> Agree(p, q, 2))
    ensures Table3(mem, root, p) == Some(parent) ==> parent != root && Table2(mem, root, q) != Some(parent)
    ensures Table2(mem, root, p) == Some(parent) ==> parent != root && Table3(mem, root, q) != Some(parent)
    ensures Table3(mem, root, q) != Some(root) && Table2(mem, root, q) != Some(root)
  {
    hide Child;
    assert TableOk(mem, root, ts, root);
    WalkStaysInTree(mem, root, ts, p);
    WalkStaysInTree(mem, root, ts, q);
  }

  lemma TakeAdds(sp: Space, root: nat, p: Path, d: nat, parent: nat)
    requires PathOk(p) && 1 <= d <= 3 && IsParent(sp.mem, root, p, d, parent) && CanTake(sp, root, parent, SlotAt(p, d))
    ensures Added(sp.mem, Take(sp, parent, SlotAt(p, d)).mem, root, p, d)
  {
    hide Child, IsTree, Hang, Table3, Table2, Table1;
    var slot := SlotAt(p, d);
    var mem' := Hang(sp.mem, parent, slot, sp.rest[0]);
    forall q, k | PathOk(q) && 1 <= k <= 3
      ensures HasTable(mem', root, q, k) <==> HasTable(sp.mem, root, q, k) || (k == d && Agree(p, q, k))
    {
      HangTables(sp.mem, root, sp.tables, parent, slot, sp.rest[0], q);
      ParentDecides(sp.mem, root, sp.tables, p, q, parent);
    }
  }

  lemma PresentAdds(mem: Memory, root: nat, p: Path, d: nat)
    requires PathOk(p) && 1 <= d <= 3 && HasTable(mem, root, p, d)
    ensures Added(mem, mem, root, p, d)
  {
    hide Table3, Table2, Table1;
    forall q, k | PathOk(q) && 1 <= k <= 3 && k == d && Agree(p, q, k)
      ensures HasTable(mem, root, q, k)
    {
      PrefixDecides(mem, root, p, q, k);
    }
  }

  lemma ChildIsTable(mem: Memory, root: nat, p: Path, d: nat, parent: nat)
    requires PathOk(p) && 1 <= d <= 3 && IsParent(mem, root, p, d, parent)
    ensures SlotAt(p, d) < 512 && TableAt(mem, root, p, d) == Child(mem, parent, SlotAt(p, d))
  {
    hide Child;
  }

  lemma EnsureAdds(sp: Space, root: nat, p: Path, d: nat, parent: nat)
    requires SpaceOk(sp, root) && PathOk(p) && 1 <= d <= 3 && IsParent(sp.mem, root, p, d, parent)
    requires parent in sp.tables && sp.tables[parent].level > 1 && SlotAt(p, d) < 512
    requires Ensure(sp, parent, SlotAt(p, d)).1.Some?
    ensures var r := Ensure(sp, parent, SlotAt(p, d));
            Added(sp.mem, r.0.mem, root, p, d) && TableAt(r.0.mem, root, p, d) == r.1
  {
    hide Child, IsTree, Added, Take, Table3, Table2, Table1, FreshFrames, Hang;
    var slot := SlotAt(p, d);
    ChildIsTable(sp.mem, root, p, d, parent);
    EnsureReady(sp, root, parent);
    if Child(sp.mem, parent, slot).Some? {
      PresentAdds(sp.mem, root, p, d);
    } else {
      TakeAdds(sp, root, p, d, parent);
      TakenIsThere(sp, root, p, d, parent);
    }
  }

  lemma TakenIsThere(sp: Space, root: nat, p: Path, d: nat, parent: nat)
    requires PathOk(p) && 1 <= d <= 3 && IsParent(sp.mem, root, p, d, parent) && CanTake(sp, root, parent, SlotAt(p, d))
    ensures TableAt(Take(sp, parent, SlotAt(p, d)).mem, root, p, d) == Some(sp.rest[0])
  {
    hide Child, IsTree, Hang, Table3, Table2, Table1;
    HangTables(sp.mem, root, sp.tables, parent, SlotAt(p, d), sp.rest[0], p);
  }

  /** After mapping a page its three tables exist, and otherwise the same ones as before. */
  ghost predicate AllAdded(mem: Memory, mem': Memory, root: nat, p: Path) {
    forall q, k | PathOk(q) && 1 <= k <= 3 ::
      HasTable(mem', root, q, k) <==> HasTable(mem, root, q, k) || Agree(p, q, k)
  }

  lemma AddedThrice(m0: Memory, m1: Memory, m2: Memory, m3: Memory, root: nat, p: Path)
    requires Added(m0, m1, root, p, 1) && Added(m1, m2, root, p, 2) && Added(m2, m3, root, p, 3)
    ensures AllAdded(m0, m3, root, p)
  {
    hide HasTable, Agree;
    forall q, k | PathOk(q) && 1 <= k <= 3
      ensures HasTable(m3, root, q, k) <==> HasTable(m0, root, q, k) || Agree(p, q, k)
    {
      assert HasTable(m1, root, q, k) <==> HasTable(m0, root, q, k) || (k == 1 && Agree(p, q, k));
      assert HasTable(m2, root, q, k) <==> HasTable(m1, root, q, k) || (k == 2 && Agree(p, q, k));
      assert HasTable(m3, root, q, k) <==> HasTable(m2, root, q, k) || (k == 3 && Agree(p, q, k));
    }
  }

  lemma DescendAdds(sp: Space, root: nat, p: Path)
    requires SpaceOk(sp, root) && PathOk(p) && Descend(sp, root, p).1.Some?
    ensures AllAdded(sp.mem, Descend(sp, root, p).0.mem, root, p)
  {
    hide SpaceOk, SameWalks, Evolves, LinksKept, NoChildren, Ensure, Added, AllAdded, Child, Table3, Table2, Table1;
    RootIsTop(sp, root);
    EnsureFacts(sp, root, root, p.i4);
    EnsureAdds(sp, root, p, 1, root);
    var r3 := Ensure(sp, root, p.i4);
    EnsureFacts(r3.0, root, r3.1.value, p.i3);
    EnsureAdds(r3.0, root, p, 2, r3.1.value);
    var r2 := Ensure(r3.0, r3.1.value, p.i3);
    EnsureFacts(r2.0, root, r2.1.value, p.i2);
    EnsureAdds(r2.0, root, p, 3, r2.1.value);
    AddedThrice(sp.mem, r3.0.mem, r2.0.mem, Descend(sp, root, p).0.mem, root, p);
  }

  lemma LeafKeepsTables(sp: Space, root: nat, p: Path, e: u64, pt: nat, q: Path, k: nat)
    requires SpaceOk(sp, root) && PathOk(p) && PathOk(q) && 1 <= k <= 3 && Table1(sp.mem, root, p) == Some(pt)
    ensures pt in sp.mem && TableAt(SetLeaf(sp.mem, pt, p.i1, e), root, q, k) == TableAt(sp.mem, root, q, k)
  {
    WalkStaysInTree(sp.mem, root, sp.tables, p);
    assert TableOk(sp.mem, root, sp.tables, pt);
    SetLeafTables(sp.mem, root, sp.tables, pt, p.i1, e, q);
  }

  lemma MapAdds(sp: Space, root: nat, p: Path, e: u64)
    requires SpaceOk(sp, root) && PathOk(p) && MapAt(sp, root, p, e).1
    ensures AllAdded(sp.mem, MapAt(sp, root, p, e).0.mem, root, p)
  {
    hide SpaceOk, SameWalks, Evolves, Missing, Descend, Table1, Table2, Table3, SetLeaf, TableAt, Agree;
    DescendFacts(sp, root, p);
    DescendAdds(sp, root, p);
    var r := Descend(sp, root, p);
    forall q, k | PathOk(q) && 1 <= k <= 3
      ensures HasTable(MapAt(sp, root, p, e).0.mem, root, q, k) <==> HasTable(r.0.mem, root, q, k)
    {
      LeafKeepsTables(r.0, root, p, e, r.1.value, q, k);
    }
  }

  // ---------------------------------------------------------------- counting them

  /** Bytes a table at depth `d` is responsible for: 512 GiB, 1 GiB, 2 MiB. */
  function RegionSize(d: nat): (n: nat)
    ensures n > 0
  {
    if d == 1 then 0x80_0000_0000 else if d == 2 then 0x4000_0000 else 0x20_0000
  }

  ghost function Regions(pages: set<nat>, size: nat): set<nat>
    requires size > 0
  {
    set a | a in pages :: a / size
  }

  /** Tables below the root that these pages need. */
  ghost function TableCount(pages: set<nat>): nat {
    |Regions(pages, RegionSize(1))| + |Regions(pages, RegionSize(2))| + |Regions(pages, RegionSize(3))|
  }

  ghost predicate LowPages(pages: set<nat>) {
    forall a | a in pages :: a < LOW_LIMIT
  }

  /** Exactly the tables that these pages need exist. */
  ghost predicate Covers(mem: Memory, root: nat, pages: set<nat>) {
    forall q, k | PathOk(q) && 1 <= k <= 3 :: HasTable(mem, root, q, k) <==> Needed(pages, q, k)
  }

  ghost predicate Needed(pages: set<nat>, q: Path, k: nat) {
    exists a | a in pages :: Agree(PathOf(a), q, k)
  }

  lemma Quotients(v: nat)
    requires v < LOW_LIMIT
    ensures v / RegionSize(1) == Index(v, 4)
    ensures v / RegionSize(2) == Index(v, 4) * 512 + Index(v, 3)
    ensures v / RegionSize(3) == (Index(v, 4) * 512 + Index(v, 3)) * 512 + Index(v, 2)
  {
    var q2, r2 := v / 0x20_0000, v % 0x20_0000;
    var q3, i2 := q2 / 512, q2 % 512;
    var q4, i3 := q3 / 512, q3 % 512;
    DivModUnique(v, 0x4000_0000, q3, i2 * 0x20_0000 + r2);
    DivModUnique(v, 0x80_0000_0000, q4, (i3 * 512 + i2) * 0x20_0000 + r2);
    assert q4 < 512;
  }

  lemma SameRegionIffAgree(a: nat, b: nat, d: nat)
    requires a < LOW_LIMIT && b < LOW_LIMIT && 1 <= d <= 3
    ensures a / RegionSize(d) == b / RegionSize(d) <==> Agree(PathOf(a), PathOf(b), d)
  {
    Quotients(a);
    Quotients(b);
    hide RegionSize, Index;
  }

  lemma NeededIffTouched(pages: set<nat>, a: nat, d: nat)
    requires LowPages(pages) && a < LOW_LIMIT && 1 <= d <= 3
    ensures Needed(pages, PathOf(a), d) <==> a / RegionSize(d) in Regions(pages, RegionSize(d))
  {
    hide PathOf, Agree, RegionSize;
    forall b | b in pages
      ensures b / RegionSize(d) == a / RegionSize(d) <==> Agree(PathOf(b), PathOf(a), d)
    {
      SameRegionIffAgree(b, a, d);
    }
  }

  lemma OneMorePage(pages: set<nat>, a: nat, size: nat)
    requires size > 0
    ensures Regions(pages + {a}, size) == Regions(pages, size) + {a / size}
    ensures |Regions(pages + {a}, size)| == |Regions(pages, size)| + if a / size in Regions(pages, size) then 0 else 1
  {
    var before, after := Regions(pages, size), Regions(pages + {a}, size);
    assert after == before + {a / size};
    hide Regions;
    if a / size in before {
      assert before + {a / size} == before;
    }
  }

  /** What is missing on the way to a page is what the page adds to the count. */
  lemma MissingIsNew(mem: Memory, root: nat, pages: set<nat>, a: nat)
    requires Covers(mem, root, pages) && LowPages(pages) && a < LOW_LIMIT
    ensures TableCount(pages + {a}) == TableCount(pages) + Missing(mem, root, PathOf(a))
  {
    hide PathOf, RegionSize, Regions, Child, Needed;
    var p := PathOf(a);
    forall d | 1 <= d <= 3
      ensures HasTable(mem, root, p, d) <==> a / RegionSize(d) in Regions(pages, RegionSize(d))
      ensures |Regions(pages + {a}, RegionSize(d))| ==
              |Regions(pages, RegionSize(d))| + if a / RegionSize(d) in Regions(pages, RegionSize(d)) then 0 else 1
    {
      NeededIffTouched(pages, a, d);
      OneMorePage(pages, a, RegionSize(d));
    }
    assert HasTable(mem, root, p, 1) <==> Table3(mem, root, p).Some?;
    assert HasTable(mem, root, p, 2) <==> Table2(mem, root, p).Some?;
    assert HasTable(mem, root, p, 3) <==> Table1(mem, root, p).Some?;
  }

  lemma CoversGrows(mem: Memory, mem': Memory, root: nat, pages: set<nat>, a: nat)
    requires Covers(mem, root, pages) && AllAdded(mem, mem', root, PathOf(a))
    ensures Covers(mem', root, pages + {a})
  {
    hide HasTable, PathOf, Agree;
    forall q, k | PathOk(q) && 1 <= k <= 3
      ensures HasTable(mem', root, q, k) <==> Needed(pages + {a}, q, k)
    {
      assert HasTable(mem, root, q, k) <==> Needed(pages, q, k);
      assert a in pages + {a};
      if Needed(pages + {a}, q, k) {
        var b :| b in pages + {a} && Agree(PathOf(b), q, k);
        assert b != a ==> b in pages;
      }
      if Needed(pages, q, k) {
        var b :| b in pages && Agree(PathOf(b), q, k);
        assert b in pages + {a};
      }
    }
  }

  lemma MorePagesMoreTables(pages: set<nat>, more: set<nat>)
    requires pages <= more
    ensures TableCount(pages) <= TableCount(more)
  {
    hide RegionSize;
    forall d | 1 <= d <= 3
      ensures |Regions(pages, RegionSize(d))| <= |Regions(more, RegionSize(d))|
    {
      assert Regions(pages, RegionSize(d)) <= Regions(more, RegionSize(d));
      SubsetSize(Regions(pages, RegionSize(d)), Regions(more, RegionSize(d)));
    }
  }

  lemma {:induction false} SubsetSize(a: set<nat>, b: set<nat>)
    requires a <= b
    ensures |a| <= |b|
    decreases |a|
  {
    if x :| x in a {
      SubsetSize(a - {x}, b - {x});
    }
  }

  /** A root without entries covers the empty set. */
  lemma NothingCovered(mem: Memory, root: nat)
    requires NoChildren(mem, root)
    ensures Covers(mem, root, {})
  {
    hide Child;
  }

  // ---------------------------------------------------------------- on top of tables that exist

  /** Regions that these pages touch and that have no table yet. */
  ghost function NewRegions(mem: Memory, root: nat, pages: set<nat>, d: nat): set<nat>
    requires 1 <= d <= 3
  {
    set a | a in pages && !HasTable(mem, root, PathOf(a), d) :: a / RegionSize(d)
  }

  /** Tables that these pages need beyond those that exist. */
  ghost function NewTables(mem: Memory, root: nat, pages: set<nat>): nat {
    |NewRegions(mem, root, pages, 1)| + |NewRegions(mem, root, pages, 2)| + |NewRegions(mem, root, pages, 3)|
  }

  /** The tables that existed and those that these pages need, and no others. */
  ghost predicate GrownBy(mem: Memory, mem': Memory, root: nat, pages: set<nat>) {
    forall q, k | PathOk(q) && 1 <= k <= 3 ::
      HasTable(mem', root, q, k) <==> HasTable(mem, root, q, k) || Needed(pages, q, k)
  }

  lemma GrownByNone(mem: Memory, root: nat)
    ensures GrownBy(mem, mem, root, {}) && NewTables(mem, root, {}) == 0
  {
    hide HasTable;
  }

  lemma GrownTwice(m0: Memory, m1: Memory, m2: Memory, root: nat, pages: set<nat>, more: set<nat>)
    requires GrownBy(m0, m1, root, pages) && GrownBy(m1, m2, root, more)
    ensures GrownBy(m0, m2, root, pages + more)
  {
    hide HasTable, Agree, PathOf;
    forall q, k | PathOk(q) && 1 <= k <= 3
      ensures HasTable(m2, root, q, k) <==> HasTable(m0, root, q, k) || Needed(pages + more, q, k)
    {
      NeededByEither(pages, more, q, k);
    }
  }

  lemma NeededByEither(pages: set<nat>, more: set<nat>, q: Path, k: nat)
    ensures Needed(pages + more, q, k) <==> Needed(pages, q, k) || Needed(more, q, k)
  {
    hide Agree, PathOf;
    if Needed(pages, q, k) {
      var a :| a in pages && Agree(PathOf(a), q, k);
      assert a in pages + more;
    }
    if Needed(more, q, k) {
      var a :| a in more && Agree(PathOf(a), q, k);
      assert a in pages + more;
    }
  }

  lemma MappedIsGrown(mem: Memory, mem': Memory, root: nat, a: nat)
    requires AllAdded(mem, mem', root, PathOf(a))
    ensures GrownBy(mem, mem', root, {a})
  {
    hide HasTable, Agree, PathOf;
    assert a in {a};
  }

  lemma NewAfter(m0: Memory, m1: Memory, root: nat, pages: set<nat>, a: nat, d: nat)
    requires GrownBy(m0, m1, root, pages) && LowPages(pages) && a < LOW_LIMIT && 1 <= d <= 3
    ensures HasTable(m1, root, PathOf(a), d) <==>
            HasTable(m0, root, PathOf(a), d) || a / RegionSize(d) in NewRegions(m0, root, pages, d)
  {
    hide HasTable, PathOf, Agree, RegionSize;
    forall b | b in pages
      ensures b / RegionSize(d) == a / RegionSize(d) <==> Agree(PathOf(b), PathOf(a), d)
      ensures Agree(PathOf(b), PathOf(a), d) ==>
              (HasTable(m0, root, PathOf(b), d) <==> HasTable(m0, root, PathOf(a), d))
    {
      SameRegionIffAgree(b, a, d);
      if Agree(PathOf(b), PathOf(a), d) {
        SameTable(m0, root, PathOf(b), PathOf(a), d);
      }
    }
  }

  lemma SameTable(mem: Memory, root: nat, p: Path, q: Path, d: nat)
    requires PathOk(p) && PathOk(q) && 1 <= d <= 3 && Agree(p, q, d)
    ensures HasTable(mem, root, p, d) <==> HasTable(mem, root, q, d)
  {
    hide TableAt;
    PrefixDecides(mem, root, p, q, d);
  }

  lemma NewRegionsAdd(m0: Memory, m1: Memory, root: nat, pages: set<nat>, more: set<nat>, d: nat)
    requires GrownBy(m0, m1, root, pages) && LowPages(pages) && LowPages(more) && 1 <= d <= 3
    ensures |NewRegions(m0, root, pages + more, d)| ==
            |NewRegions(m0, root, pages, d)| + |NewRegions(m1, root, more, d)|
  {
    hide HasTable, PathOf, RegionSize, GrownBy;
    var before, after := NewRegions(m0, root, pages, d), NewRegions(m1, root, more, d);
    forall a | a in more
      ensures HasTable(m1, root, PathOf(a), d) <==>
              HasTable(m0, root, PathOf(a), d) || a / RegionSize(d) in before
    {
      NewAfter(m0, m1, root, pages, a, d);
    }
    assert NewRegions(m0, root, pages + more, d) == before + after;
    assert before !! after;
  }

  /** What one set of pages costs and what another costs on top add up to what both cost. */
  lemma NewTablesAdd(m0: Memory, m1: Memory, root: nat, pages: set<nat>, more: set<nat>)
    requires GrownBy(m0, m1, root, pages) && LowPages(pages) && LowPages(more)
    ensures NewTables(m0, root, pages + more) == NewTables(m0, root, pages) + NewTables(m1, root, more)
  {
    hide GrownBy, LowPages, NewRegions;
    NewRegionsAdd(m0, m1, root, pages, more, 1);
    NewRegionsAdd(m0, m1, root, pages, more, 2);
    NewRegionsAdd(m0, m1, root, pages, more, 3);
  }

  lemma OnePageIsMissing(mem: Memory, root: nat, a: nat)
    ensures NewTables(mem, root, {a}) == Missing(mem, root, PathOf(a))
  {
    hide PathOf, RegionSize, Child;
    forall d | 1 <= d <= 3
      ensures NewRegions(mem, root, {a}, d) == if HasTable(mem, root, PathOf(a), d) then {} else {a / RegionSize(d)}
    {
    }
    var p := PathOf(a);
    assert HasTable(mem, root, p, 1) <==> Table3(mem, root, p).Some?;
    assert HasTable(mem, root, p, 2) <==> Table2(mem, root, p).Some?;
    assert HasTable(mem, root, p, 3) <==> Table1(mem, root, p).Some?;
  }

  lemma MoreCostsMore(mem: Memory, root: nat, pages: set<nat>, more: set<nat>)
    requires pages <= more
    ensures NewTables(mem, root, pages) <= NewTables(mem, root, more)
  {
    hide HasTable, PathOf, RegionSize;
    forall d | 1 <= d <= 3
      ensures |NewRegions(mem, root, pages, d)| <= |NewRegions(mem, root, more, d)|
    {
      assert NewRegions(mem, root, pages, d) <= NewRegions(mem, root, more, d);
      SubsetSize(NewRegions(mem, root, pages, d), NewRegions(mem, root, more, d));
    }
  }

  lemma {:induction false} QuotientsBound(pages: set<nat>, size: nat)
    requires size > 0
    ensures |Regions(pages, size)| <= |pages|
    decreases |pages|
  {
    if a :| a in pages {
      QuotientsBound(pages - {a}, size);
      OneMorePage(pages - {a}, a, size);
      assert pages - {a} + {a} == pages;
    }
  }

  lemma AtMostThreeEach(mem: Memory, root: nat, pages: set<nat>)
    ensures NewTables(mem, root, pages) <= 3 * |pages|
  {
    hide HasTable, PathOf, RegionSize;
    forall d | 1 <= d <= 3
      ensures |NewRegions(mem, root, pages, d)| <= |pages|
    {
      assert NewRegions(mem, root, pages, d) <= Regions(pages, RegionSize(d));
      SubsetSize(NewRegions(mem, root, pages, d), Regions(pages, RegionSize(d)));
      QuotientsBound(pages, RegionSize(d));
    }
  }

  // ---------------------------------------------------------------- a map that suffices

  lemma OneRegion(pages: set<nat>, d: nat, r: nat)
    requires forall a | a in pages :: a / RegionSize(d) == r
    ensures |Regions(pages, RegionSize(d))| <= 1
  {
    SubsetSize(Regions(pages, RegionSize(d)), {r});
  }

  lemma SmallerRegion(a: nat, b: nat)
    requires a < LOW_LIMIT && b < LOW_LIMIT && a / RegionSize(3) == b / RegionSize(3)
    ensures a / RegionSize(2) == b / RegionSize(2) && a / RegionSize(1) == b / RegionSize(1)
  {
    Quotients(a);
    Quotients(b);
  }

  /** Pages of one 2 MiB region need three tables. */
  lemma OneRegionNeedsThree(pages: set<nat>, x: nat)
    requires LowPages(pages) && x < LOW_LIMIT && forall a | a in pages :: a / RegionSize(3) == x / RegionSize(3)
    ensures TableCount(pages) <= 3
  {
    hide RegionSize, Regions;
    forall a | a in pages
      ensures a / RegionSize(2) == x / RegionSize(2) && a / RegionSize(1) == x / RegionSize(1)
    {
      SmallerRegion(a, x);
    }
    OneRegion(pages, 1, x / RegionSize(1));
    OneRegion(pages, 2, x / RegionSize(2));
    OneRegion(pages, 3, x / RegionSize(3));
  }
}
