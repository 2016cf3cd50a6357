/** Mapping pages: `map_page` refines an update of the map from pages to leaf entries. */
module Paging {
  import opened Bytes
  import opened Frames
  import opened PageTables
  import opened PageTree

  /** Physical memory, the table frames in it, and the frames the allocator has left. */
  datatype Space = Space(mem: Memory, tables: Tables, rest: seq<nat>)

  ghost predicate FreshFrames(sp: Space) {
    && Distinct(sp.rest)
    && forall k | 0 <= k < |sp.rest| :: FrameAddress(sp.rest[k]) && sp.rest[k] in sp.mem && sp.rest[k] !in sp.tables
  }

  ghost predicate SpaceOk(sp: Space, root: nat) {
    IsTree(sp.mem, root, sp.tables) && FreshFrames(sp)
  }

  /** `b` comes from `a` by turning the first `k` unused frames into tables; no other frame lost its contents. */
  ghost predicate Evolves(a: Space, b: Space, k: nat) {
    && k <= |a.rest| && b.rest == a.rest[k..]
    && b.mem.Keys == a.mem.Keys
    && b.tables.Keys == a.tables.Keys + (set f | f in a.rest[..k])
    && forall f | f in a.mem && f !in b.tables :: b.mem[f] == a.mem[f]
  }

  lemma EvolvesSelf(sp: Space)
    ensures Evolves(sp, sp, 0)
  {
    assert (set f | f in sp.rest[..0]) == {};
  }

  lemma EvolvesOn(a: Space, b: Space, c: Space, j: nat, k: nat)
    requires Evolves(a, b, j) && Evolves(b, c, k)
    ensures Evolves(a, c, j + k)
  {
    assert a.rest[..j + k] == a.rest[..j] + b.rest[..k];
    assert c.rest == a.rest[j + k..];
  }

  ghost predicate SameWalks(m: Memory, m': Memory, root: nat) {
    forall q | PathOk(q) :: WalkPath(m', root, q) == WalkPath(m, root, q)
  }

  // ---------------------------------------------------------------- one level

  /** The table in `slot` of `parent`, taken from the allocator, zeroed and hung there if absent. */
  ghost function Ensure(sp: Space, parent: nat, slot: nat): (Space, Option<nat>)
    requires slot < 512
  {
    var child := Child(sp.mem, parent, slot);
    if child.Some? then (sp, child)
    else if TakeOk(sp, parent, slot) then (Take(sp, parent, slot), Some(sp.rest[0]))
    else (sp, None)
  }

  /** Frames one level costs. */
  ghost function Cost(sp: Space, parent: nat, slot: nat): nat
    requires slot < 512
  {
    if Child(sp.mem, parent, slot).Some? then 0 else 1
  }

  ghost predicate TakeOk(sp: Space, parent: nat, slot: nat) {
    && parent in sp.tables && sp.tables[parent].level > 1 && parent in sp.mem
    && slot < 512 && sp.rest != [] && FrameAddress(sp.rest[0])
  }

  /** Taking the first unused frame as a table. */
  ghost function Take(sp: Space, parent: nat, slot: nat): Space
    requires TakeOk(sp, parent, slot)
  {
    var f := sp.rest[0];
    Space(Hang(sp.mem, parent, slot, f), sp.tables[f := Node(sp.tables[parent].level - 1, parent, slot)], sp.rest[1..])
  }

  lemma TakeEvolves(sp: Space, parent: nat, slot: nat)
    requires TakeOk(sp, parent, slot) && FreshFrames(sp)
    ensures Evolves(sp, Take(sp, parent, slot), 1) && FreshFrames(Take(sp, parent, slot))
  {
    var b := Take(sp, parent, slot);
    assert b.mem.Keys == sp.mem.Keys;
    assert (set f | f in sp.rest[..1]) == {sp.rest[0]};
    assert b.tables.Keys == sp.tables.Keys + {sp.rest[0]};
  }

  /** Links between tables stay; a new table has none. */
  ghost predicate LinksKept(a: Space, b: Space) {
    forall f, i | f in a.tables && 0 <= i < 512 && Child(a.mem, f, i).Some? :: Child(b.mem, f, i) == Child(a.mem, f, i)
  }

  ghost predicate NoChildren(mem: Memory, f: nat) {
    forall i | 0 <= i < 512 :: Child(mem, f, i) == None
  }

  ghost predicate CanTake(sp: Space, root: nat, parent: nat, slot: nat) {
    && TakeOk(sp, parent, slot)
    && IsTree(sp.mem, root, sp.tables)
    && Child(sp.mem, parent, slot) == None && sp.rest[0] !in sp.tables
  }

  lemma TakeLinks(sp: Space, root: nat, parent: nat, slot: nat)
    requires CanTake(sp, root, parent, slot)
    ensures LinksKept(sp, Take(sp, parent, slot)) && NoChildren(Take(sp, parent, slot).mem, sp.rest[0])
  {
    hide Child, Hang, IsTree;
    forall f: nat, i: nat | i < 512
      ensures Child(Take(sp, parent, slot).mem, f, i) ==
              if f == parent && i == slot then Some(sp.rest[0])
              else if f == sp.rest[0] then None else Child(sp.mem, f, i)
    {
      HangChildren(sp.mem, parent, slot, sp.rest[0], f, i);
    }
  }

  lemma TakeKeepsTree(sp: Space, root: nat, parent: nat, slot: nat)
    requires CanTake(sp, root, parent, slot)
    ensures IsTree(Take(sp, parent, slot).mem, root, Take(sp, parent, slot).tables)
    ensures Child(Take(sp, parent, slot).mem, parent, slot) == Some(sp.rest[0])
  {
    hide Child, IsTree, Hang;
    HangKeepsTree(sp.mem, root, sp.tables, parent, slot, sp.rest[0]);
    HangChildren(sp.mem, parent, slot, sp.rest[0], parent, slot);
  }

  lemma TakeKeepsWalks(sp: Space, root: nat, parent: nat, slot: nat)
    requires CanTake(sp, root, parent, slot)
    ensures SameWalks(sp.mem, Take(sp, parent, slot).mem, root)
  {
    hide Child, IsTree, Hang, WalkPath;
    forall q | PathOk(q)
      ensures WalkPath(Hang(sp.mem, parent, slot, sp.rest[0]), root, q) == WalkPath(sp.mem, root, q)
    {
      HangKeepsWalks(sp.mem, root, sp.tables, parent, slot, sp.rest[0], q);
    }
  }

  /** What making sure of one level amounts to. */
  ghost predicate Ensured(sp: Space, root: nat, parent: nat, slot: nat, sp': Space, child: nat)
    requires slot < 512
  {
    && SpaceOk(sp', root)
    && SameWalks(sp.mem, sp'.mem, root)
    && Evolves(sp, sp', Cost(sp, parent, slot))
    && LinksKept(sp, sp')
    && child in sp'.tables && parent in sp.tables && sp'.tables[child].level == sp.tables[parent].level - 1
    && Child(sp'.mem, parent, slot) == Some(child)
    && (Cost(sp, parent, slot) == 0 ==> sp' == sp)
    && (Cost(sp, parent, slot) == 1 ==> NoChildren(sp'.mem, child))
  }

  lemma EnsurePresent(sp: Space, root: nat, parent: nat, slot: nat)
    requires SpaceOk(sp, root) && parent in sp.tables && sp.tables[parent].level > 1 && slot < 512
    requires Child(sp.mem, parent, slot).Some?
    ensures Ensured(sp, root, parent, slot, sp, Child(sp.mem, parent, slot).value)
  {
    assert SlotOk(sp.mem, sp.tables, parent, slot);
    assert (set f | f in sp.rest[..0]) == {};
    hide Child, WalkPath, IsTree;
  }

  lemma EnsureAbsent(sp: Space, root: nat, parent: nat, slot: nat)
    requires SpaceOk(sp, root) && CanTake(sp, root, parent, slot)
    ensures Ensured(sp, root, parent, slot, Take(sp, parent, slot), sp.rest[0])
  {
    hide Child, WalkPath, IsTree, Hang, SameWalks, Evolves, LinksKept, NoChildren, FreshFrames;
    TakeKeepsTree(sp, root, parent, slot);
    TakeKeepsWalks(sp, root, parent, slot);
    TakeEvolves(sp, parent, slot);
    TakeLinks(sp, root, parent, slot);
  }

  lemma EnsureReady(sp: Space, root: nat, parent: nat)
    requires SpaceOk(sp, root) && parent in sp.tables
    ensures parent in sp.mem
    ensures sp.rest != [] ==> FrameAddress(sp.rest[0]) && sp.rest[0] !in sp.tables
  {
    assert TableOk(sp.mem, root, sp.tables, parent);
  }

  lemma EnsureFacts(sp: Space, root: nat, parent: nat, slot: nat)
    requires SpaceOk(sp, root) && parent in sp.tables && sp.tables[parent].level > 1 && slot < 512
    ensures var r := Ensure(sp, parent, slot);
            if Cost(sp, parent, slot) <= |sp.rest|
            then r.1.Some? && Ensured(sp, root, parent, slot, r.0, r.1.value)
            else r == (sp, None)
  {
    hide Child, IsTree, FreshFrames, Ensured, Take;
    EnsureReady(sp, root, parent);
    if Child(sp.mem, parent, slot).Some? {
      EnsurePresent(sp, root, parent, slot);
    } else if sp.rest != [] {
      EnsureAbsent(sp, root, parent, slot);
    }
  }

  // ---------------------------------------------------------------- all levels

  /** Tables that are missing on the way to a page. */
  ghost function Missing(mem: Memory, root: nat, p: Path): nat
    requires PathOk(p)
  {
    if Table3(mem, root, p).None? then 3
    else if Table2(mem, root, p).None? then 2
    else if Table1(mem, root, p).None? then 1
    else 0
  }

  lemma MissingAtMostThree(mem: Memory, root: nat, p: Path)
    requires PathOk(p)
    ensures Missing(mem, root, p) <= 3
  {
  }

  /** The last table on the way to a page, with the missing ones put in. */
  ghost function Descend(sp: Space, root: nat, p: Path): (Space, Option<nat>)
    requires PathOk(p)
  {
    var r3 := Ensure(sp, root, p.i4);
    if r3.1.None? then r3 else
    var r2 := Ensure(r3.0, r3.1.value, p.i3);
    if r2.1.None? then r2 else
    Ensure(r2.0, r2.1.value, p.i2)
  }

  /** `map_page`: false is the panic for want of a frame. */
  ghost function MapAt(sp: Space, root: nat, p: Path, e: u64): (Space, bool)
    requires PathOk(p)
  {
    var r := Descend(sp, root, p);
    if r.1.None? || r.1.value !in r.0.mem then (r.0, false)
    else (r.0.(mem := SetLeaf(r.0.mem, r.1.value, p.i1, e)), true)
  }

  lemma CostsAddUp(sp: Space, root: nat, p: Path, sp3: Space, t3: nat, sp2: Space, t2: nat)
    requires PathOk(p)
    requires Child(sp3.mem, root, p.i4) == Some(t3) && Child(sp2.mem, t3, p.i3) == Some(t2)
    requires if Cost(sp, root, p.i4) == 0 then sp3 == sp else NoChildren(sp3.mem, t3)
    requires if Cost(sp3, t3, p.i3) == 0 then sp2 == sp3 else NoChildren(sp2.mem, t2)
    ensures Cost(sp, root, p.i4) + Cost(sp3, t3, p.i3) + Cost(sp2, t2, p.i2) == Missing(sp.mem, root, p)
  {
    hide Child;
    if Cost(sp, root, p.i4) == 0 {
      assert Table3(sp.mem, root, p) == Some(t3);
      assert Table2(sp.mem, root, p) == Child(sp.mem, t3, p.i3);
    } else {
      assert Child(sp3.mem, t3, p.i3) == None;
      assert Child(sp2.mem, t2, p.i2) == None;
    }
  }

  lemma LastTableLinked(mem: Memory, root: nat, p: Path, t3: nat, t2: nat, t1: nat)
    requires PathOk(p)
    requires Child(mem, root, p.i4) == Some(t3) && Child(mem, t3, p.i3) == Some(t2) && Child(mem, t2, p.i2) == Some(t1)
    ensures Table1(mem, root, p) == Some(t1)
  {
    hide Child;
  }

  lemma LinkStays(a: Space, b: Space, f: nat, i: nat, k: nat)
    requires LinksKept(a, b) && Evolves(a, b, k) && f in a.tables && i < 512 && Child(a.mem, f, i).Some?
    ensures Child(b.mem, f, i) == Child(a.mem, f, i) && f in b.tables
  {
    hide Child;
  }

  /** The three intermediate levels together: frames used, walks kept, and the last table in place. */
  lemma TablesReady(sp: Space, root: nat, p: Path, sp3: Space, t3: nat, sp2: Space, t2: nat, sp1: Space, t1: nat)
    requires PathOk(p)
    requires Ensured(sp, root, root, p.i4, sp3, t3)
    requires Ensured(sp3, root, t3, p.i3, sp2, t2)
    requires Ensured(sp2, root, t2, p.i2, sp1, t1)
    ensures Evolves(sp, sp1, Missing(sp.mem, root, p))
    ensures SameWalks(sp.mem, sp1.mem, root)
    ensures Table1(sp1.mem, root, p) == Some(t1)
  {
    hide Child, SpaceOk, SameWalks, Evolves, LinksKept, NoChildren, Missing, Cost, Table1;
    var c3, c2, c1 := Cost(sp, root, p.i4), Cost(sp3, t3, p.i3), Cost(sp2, t2, p.i2);
    EvolvesOn(sp, sp3, sp2, c3, c2);
    EvolvesOn(sp, sp2, sp1, c3 + c2, c1);
    SameWalksOn(sp.mem, sp3.mem, sp2.mem, root);
    SameWalksOn(sp.mem, sp2.mem, sp1.mem, root);
    TablesCost(sp, root, p, sp3, t3, sp2, t2, sp1, t1);
  }

  lemma TablesCost(sp: Space, root: nat, p: Path, sp3: Space, t3: nat, sp2: Space, t2: nat, sp1: Space, t1: nat)
    requires PathOk(p)
    requires Ensured(sp, root, root, p.i4, sp3, t3)
    requires Ensured(sp3, root, t3, p.i3, sp2, t2)
    requires Ensured(sp2, root, t2, p.i2, sp1, t1)
    ensures Cost(sp, root, p.i4) + Cost(sp3, t3, p.i3) + Cost(sp2, t2, p.i2) == Missing(sp.mem, root, p)
    ensures Table1(sp1.mem, root, p) == Some(t1)
  {
    hide Child, SpaceOk, SameWalks, LinksKept, NoChildren, Missing, Table1;
    assert root in sp3.tables by {
      assert sp.tables.Keys <= sp3.tables.Keys;
    }
    hide Evolves;
    LinkStays(sp3, sp2, root, p.i4, Cost(sp3, t3, p.i3));
    LinkStays(sp2, sp1, root, p.i4, Cost(sp2, t2, p.i2));
    LinkStays(sp2, sp1, t3, p.i3, Cost(sp2, t2, p.i2));
    LastTableLinked(sp1.mem, root, p, t3, t2, t1);
    CostsAddUp(sp, root, p, sp3, t3, sp2, t2);
  }

  lemma SameWalksOn(a: Memory, b: Memory, c: Memory, root: nat)
    requires SameWalks(a, b, root) && SameWalks(b, c, root)
    ensures SameWalks(a, c, root)
  {
    hide WalkPath;
  }

  lemma RootIsTop(sp: Space, root: nat)
    requires SpaceOk(sp, root)
    ensures root in sp.tables && sp.tables[root].level == 4
  {
    assert TableOk(sp.mem, root, sp.tables, root);
  }

  lemma LeafSet(sp: Space, root: nat, p: Path, e: u64, pt: nat)
    requires SpaceOk(sp, root) && PathOk(p) && Table1(sp.mem, root, p) == Some(pt) && IsPresent(e)
    ensures pt in sp.mem && pt in sp.tables
    ensures var sp' := sp.(mem := SetLeaf(sp.mem, pt, p.i1, e));
            && SpaceOk(sp', root)
            && Evolves(sp, sp', 0)
            && forall q | PathOk(q) ::
                 WalkPath(sp'.mem, root, q) == if q == p then Some(e) else WalkPath(sp.mem, root, q)
  {
    WalkStaysInTree(sp.mem, root, sp.tables, p);
    SetLeafKeepsTree(sp.mem, root, sp.tables, pt, p.i1, e);
    hide IsTree, WalkPath, Table1;
    forall q | PathOk(q)
      ensures WalkPath(SetLeaf(sp.mem, pt, p.i1, e), root, q) == if q == p then Some(e) else WalkPath(sp.mem, root, q)
    {
      SetLeafWalks(sp.mem, root, sp.tables, p, e, q);
    }
    assert SetLeaf(sp.mem, pt, p.i1, e).Keys == sp.mem.Keys;
    assert (set f | f in sp.rest[..0]) == {};
  }

  lemma DescendFacts(sp: Space, root: nat, p: Path)
    requires SpaceOk(sp, root) && PathOk(p)
    ensures var r := Descend(sp, root, p);
            if Missing(sp.mem, root, p) <= |sp.rest|
            then && r.1.Some? && SpaceOk(r.0, root) && r.1.value in r.0.tables
                 && Evolves(sp, r.0, Missing(sp.mem, root, p)) && SameWalks(sp.mem, r.0.mem, root)
                 && Table1(r.0.mem, root, p) == r.1
            else r.1.None?
  {
    hide Child, SpaceOk, SameWalks, Evolves, LinksKept, NoChildren, Missing, Ensure, WalkPath, Table1;
    RootIsTop(sp, root);
    EnsureFacts(sp, root, root, p.i4);
    var r3 := Ensure(sp, root, p.i4);
    if r3.1.None? {
      MissingWhenStuck(sp, root, p);
      return;
    }
    EnsureFacts(r3.0, root, r3.1.value, p.i3);
    var r2 := Ensure(r3.0, r3.1.value, p.i3);
    if r2.1.None? {
      MissingWhenStuck2(sp, root, p, r3.0, r3.1.value);
      return;
    }
    EnsureFacts(r2.0, root, r2.1.value, p.i2);
    var r1 := Ensure(r2.0, r2.1.value, p.i2);
    if r1.1.None? {
      MissingWhenStuck1(sp, root, p, r3.0, r3.1.value, r2.0, r2.1.value);
      return;
    }
    TablesReady(sp, root, p, r3.0, r3.1.value, r2.0, r2.1.value, r1.0, r1.1.value);
    MissingFits(sp, r1.0, Missing(sp.mem, root, p));
  }

  lemma MissingFits(a: Space, b: Space, k: nat)
    requires Evolves(a, b, k)
    ensures k <= |a.rest|
  {
  }

  /**
   Main theorem on one call.  The call succeeds exactly when the allocator has as
   many frames left as tables are missing; it then uses exactly that many, the page
   gets its leaf, the walk of every other page is unchanged, the tables still form a
   tree, and no frame but those of tables is written.
   */
  lemma MapRefinesUpdate(sp: Space, root: nat, p: Path, e: u64)
    requires SpaceOk(sp, root) && PathOk(p) && IsPresent(e)
    ensures MapAt(sp, root, p, e).1 <==> Missing(sp.mem, root, p) <= |sp.rest|
    ensures MapAt(sp, root, p, e).1 ==> Mapped(sp, root, p, e, MapAt(sp, root, p, e).0)
  {
    hide SpaceOk, SameWalks, Evolves, Missing, Descend, WalkPath, Table1, SetLeaf, Mapped;
    DescendFacts(sp, root, p);
    var r := Descend(sp, root, p);
    if r.1.Some? {
      LeafSet(r.0, root, p, e, r.1.value);
      MappedFrom(sp, root, p, e, r.0, MapAt(sp, root, p, e).0);
    }
  }

  ghost predicate Mapped(sp: Space, root: nat, p: Path, e: u64, sp': Space)
    requires PathOk(p)
  {
    && SpaceOk(sp', root)
    && Evolves(sp, sp', Missing(sp.mem, root, p))
    && forall q | PathOk(q) :: WalkPath(sp'.mem, root, q) == if q == p then Some(e) else WalkPath(sp.mem, root, q)
  }

  lemma MappedFrom(sp: Space, root: nat, p: Path, e: u64, sp1: Space, sp': Space)
    requires PathOk(p) && Evolves(sp, sp1, Missing(sp.mem, root, p)) && SameWalks(sp.mem, sp1.mem, root)
    requires SpaceOk(sp', root) && Evolves(sp1, sp', 0)
    requires forall q | PathOk(q) ::
               WalkPath(sp'.mem, root, q) == if q == p then Some(e) else WalkPath(sp1.mem, root, q)
    ensures Mapped(sp, root, p, e, sp') && Missing(sp.mem, root, p) <= |sp.rest|
  {
    hide WalkPath, SpaceOk, Missing;
    EvolvesOn(sp, sp1, sp', Missing(sp.mem, root, p), 0);
  }

  lemma MissingWhenStuck(sp: Space, root: nat, p: Path)
    requires PathOk(p) && Cost(sp, root, p.i4) > |sp.rest|
    ensures Missing(sp.mem, root, p) > |sp.rest|
  {
    hide Child;
  }

  lemma MissingWhenStuck2(sp: Space, root: nat, p: Path, sp3: Space, t3: nat)
    requires PathOk(p) && Ensured(sp, root, root, p.i4, sp3, t3) && Cost(sp3, t3, p.i3) > |sp3.rest|
    ensures Missing(sp.mem, root, p) > |sp.rest|
  {
    hide Child, SpaceOk, SameWalks, LinksKept;
    assert |sp3.rest| == |sp.rest| - Cost(sp, root, p.i4);
    hide Evolves;
    if Cost(sp, root, p.i4) == 0 {
      assert Table2(sp.mem, root, p) == Child(sp.mem, t3, p.i3);
    } else {
      assert Missing(sp.mem, root, p) == 3;
    }
  }

  lemma MissingWhenStuck1(sp: Space, root: nat, p: Path, sp3: Space, t3: nat, sp2: Space, t2: nat)
    requires PathOk(p) && Ensured(sp, root, root, p.i4, sp3, t3) && Ensured(sp3, root, t3, p.i3, sp2, t2)
    requires Cost(sp2, t2, p.i2) > |sp2.rest|
    ensures Missing(sp.mem, root, p) > |sp.rest|
  {
    hide Child, SpaceOk, SameWalks, LinksKept, NoChildren, Missing;
    assert |sp3.rest| == |sp.rest| - Cost(sp, root, p.i4);
    assert |sp2.rest| == |sp3.rest| - Cost(sp3, t3, p.i3);
    hide Evolves;
    CostsAddUp(sp, root, p, sp3, t3, sp2, t2);
  }
}
