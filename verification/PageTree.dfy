/** The page tables form a tree, and the walk through it is a map from pages to leaf entries. */
module PageTree {
  import opened Bytes
  import opened PageTables

  // ---------------------------------------------------------------- the walk

  /** The four table indices of a virtual address. */
  datatype Path = Path(i4: nat, i3: nat, i2: nat, i1: nat)

  predicate PathOk(p: Path) {
    p.i4 < 512 && p.i3 < 512 && p.i2 < 512 && p.i1 < 512
  }

  function PathOf(v: nat): (p: Path)
    ensures PathOk(p)
  {
    Path(Index(v, 4), Index(v, 3), Index(v, 2), Index(v, 1))
  }

  function Child(mem: Memory, f: nat, i: nat): Option<nat>
    requires i < 512
  {
    if f in mem && IsPresent(Entry(mem[f], i)) then Some(Target(Entry(mem[f], i))) else None
  }

  function Down(mem: Memory, f: Option<nat>, i: nat): Option<nat>
    requires i < 512
  {
    if f.Some? then Child(mem, f.value, i) else None
  }

  function Table3(mem: Memory, root: nat, p: Path): Option<nat>
    requires PathOk(p)
  {
    Child(mem, root, p.i4)
  }

  function Table2(mem: Memory, root: nat, p: Path): Option<nat>
    requires PathOk(p)
  {
    Down(mem, Table3(mem, root, p), p.i3)
  }

  function Table1(mem: Memory, root: nat, p: Path): Option<nat>
    requires PathOk(p)
  {
    Down(mem, Table2(mem, root, p), p.i2)
  }

  function LeafAt(mem: Memory, f: nat, i: nat): Option<u64>
    requires i < 512
  {
    if f in mem && IsPresent(Entry(mem[f], i)) then Some(Entry(mem[f], i)) else None
  }

  /** The leaf entry the hardware finds for a page, if any. */
  function WalkPath(mem: Memory, root: nat, p: Path): Option<u64>
    requires PathOk(p)
  {
    var t := Table1(mem, root, p);
    if t.Some? then LeafAt(mem, t.value, p.i1) else None
  }

  function Walk(mem: Memory, root: nat, v: nat): Option<u64> {
    WalkPath(mem, root, PathOf(v))
  }

  // ---------------------------------------------------------------- the tree

  /** Where a table hangs: its level, and the slot of the table above that points to it. */
  datatype Node = Node(level: nat, parent: nat, slot: nat)

  type Tables = map<nat, Node>

  ghost predicate TableOk(mem: Memory, root: nat, ts: Tables, f: nat) {
    && f in ts && f in mem && FrameAddress(f)
    && 1 <= ts[f].level <= 4 && (ts[f].level == 4 <==> f == root)
    && (f != root ==>
          && ts[f].slot < 512 && ts[f].parent in ts && ts[ts[f].parent].level == ts[f].level + 1
          && Child(mem, ts[f].parent, ts[f].slot) == Some(f))
  }

  /** The entry in a slot takes no rights away. */
  predicate LetsThrough(mem: Memory, f: nat, i: nat)
    requires i < 512
  {
    f in mem && Writable(Entry(mem[f], i)) && ForUser(Entry(mem[f], i)) && Executable(Entry(mem[f], i))
  }

  /**
   What a slot of a table above the last level points to is a table one level down that hangs
   there, and no rights are lost on the way.
   */
  ghost predicate SlotOk(mem: Memory, ts: Tables, f: nat, i: nat)
    requires i < 512 && f in ts
  {
    ts[f].level > 1 && Child(mem, f, i).Some? ==>
      var c := Child(mem, f, i).value;
      c in ts && ts[c] == Node(ts[f].level - 1, f, i) && LetsThrough(mem, f, i)
  }

  /** Every table hangs from exactly one slot, and only tables hang from slots. */
  ghost predicate IsTree(mem: Memory, root: nat, ts: Tables) {
    && root in ts
    && (forall f | f in ts :: TableOk(mem, root, ts, f))
    && (forall f, i | f in ts && 0 <= i < 512 :: SlotOk(mem, ts, f, i))
  }

  lemma WalkStaysInTree(mem: Memory, root: nat, ts: Tables, p: Path)
    requires IsTree(mem, root, ts) && PathOk(p)
    ensures var t := Table3(mem, root, p); t.Some? ==> t.value in ts && ts[t.value] == Node(3, root, p.i4)
    ensures var t := Table2(mem, root, p); t.Some? ==>
              t.value in ts && ts[t.value] == Node(2, Table3(mem, root, p).value, p.i3)
    ensures var t := Table1(mem, root, p); t.Some? ==>
              t.value in ts && ts[t.value] == Node(1, Table2(mem, root, p).value, p.i2)
  {
    hide Child;
    assert TableOk(mem, root, ts, root);
    assert SlotOk(mem, ts, root, p.i4);
    var t3 := Table3(mem, root, p);
    if t3.Some? {
      assert SlotOk(mem, ts, t3.value, p.i3);
      var t2 := Table2(mem, root, p);
      if t2.Some? {
        assert SlotOk(mem, ts, t2.value, p.i2);
      }
    }
  }

  /** Two pages share their last table only if they differ in the last index alone. */
  lemma LastTableDeterminesPath(mem: Memory, root: nat, ts: Tables, p: Path, q: Path)
    requires IsTree(mem, root, ts) && PathOk(p) && PathOk(q)
    requires Table1(mem, root, p).Some? && Table1(mem, root, p) == Table1(mem, root, q)
    ensures p.i4 == q.i4 && p.i3 == q.i3 && p.i2 == q.i2
  {
    WalkStaysInTree(mem, root, ts, p);
    WalkStaysInTree(mem, root, ts, q);
  }

  // ---------------------------------------------------------------- hanging a new, empty table

  ghost function Hang(mem: Memory, parent: nat, slot: nat, frame: nat): Memory
    requires parent in mem && slot < 512 && FrameAddress(frame)
  {
    mem[frame := ZERO_PAGE][parent := WithEntry(mem[parent], slot, TableEntry(frame))]
  }

  lemma HangChildren(mem: Memory, parent: nat, slot: nat, frame: nat, f: nat, i: nat)
    requires parent in mem && slot < 512 && FrameAddress(frame) && parent != frame && i < 512
    ensures Child(Hang(mem, parent, slot, frame), f, i) ==
            if f == parent && i == slot then Some(frame) else if f == frame then None else Child(mem, f, i)
    ensures f == parent && i == slot ==> LetsThrough(Hang(mem, parent, slot, frame), f, i)
    ensures f != frame && !(f == parent && i == slot) ==>
              LetsThrough(Hang(mem, parent, slot, frame), f, i) == LetsThrough(mem, f, i)
    ensures f != parent ==>
            LeafAt(Hang(mem, parent, slot, frame), f, i) == if f == frame then None else LeafAt(mem, f, i)
  {
    hide Entry, WithEntry, TableEntry, FrameAddress, Target, Writable, ForUser, Executable;
    EntryWritten(mem[parent], slot, TableEntry(frame), i);
    TableEntryFields(frame);
    ZeroEntry(i);
  }

  lemma HangKeepsTree(mem: Memory, root: nat, ts: Tables, parent: nat, slot: nat, frame: nat)
    requires IsTree(mem, root, ts) && parent in ts && ts[parent].level > 1 && slot < 512
    requires Child(mem, parent, slot) == None && FrameAddress(frame) && frame !in ts
    ensures parent in mem
    ensures IsTree(Hang(mem, parent, slot, frame), root, ts[frame := Node(ts[parent].level - 1, parent, slot)])
  {
    hide Child, Entry, LetsThrough;
    assert TableOk(mem, root, ts, parent);
    var mem' := Hang(mem, parent, slot, frame);
    var ts' := ts[frame := Node(ts[parent].level - 1, parent, slot)];
    forall f, i: nat | i < 512
      ensures Child(mem', f, i) ==
              if f == parent && i == slot then Some(frame) else if f == frame then None else Child(mem, f, i)
      ensures f == parent && i == slot ==> LetsThrough(mem', f, i)
      ensures f != frame && !(f == parent && i == slot) ==> LetsThrough(mem', f, i) == LetsThrough(mem, f, i)
    {
      HangChildren(mem, parent, slot, frame, f, i);
    }
    assert TableOk(mem, root, ts, root);
    forall f | f in ts'
      ensures TableOk(mem', root, ts', f)
    {
      if f != frame {
        assert TableOk(mem, root, ts, f);
      }
    }
    forall f, i | f in ts' && 0 <= i < 512
      ensures SlotOk(mem', ts', f, i)
    {
      if f != frame && !(f == parent && i == slot) {
        assert SlotOk(mem, ts, f, i);
      }
    }
  }

  /** The new table is empty, so the walk of every page finds what it found before. */
  lemma HangKeepsWalks(mem: Memory, root: nat, ts: Tables, parent: nat, slot: nat, frame: nat, p: Path)
    requires IsTree(mem, root, ts) && parent in ts && ts[parent].level > 1 && slot < 512
    requires Child(mem, parent, slot) == None && FrameAddress(frame) && frame !in ts && PathOk(p)
    ensures parent in mem && WalkPath(Hang(mem, parent, slot, frame), root, p) == WalkPath(mem, root, p)
  {
    assert TableOk(mem, root, ts, parent);
    assert TableOk(mem, root, ts, root);
    hide Child, Entry, LeafAt;
    var mem' := Hang(mem, parent, slot, frame);
    WalkStaysInTree(mem, root, ts, p);
    var t3, t2, t1 := Table3(mem, root, p), Table2(mem, root, p), Table1(mem, root, p);
    var u3, u2, u1 := Table3(mem', root, p), Table2(mem', root, p), Table1(mem', root, p);
    HangChildren(mem, parent, slot, frame, root, p.i4);
    assert u3 == t3 || (t3 == None && u3 == Some(frame));
    if u3.Some? {
      HangChildren(mem, parent, slot, frame, u3.value, p.i3);
    }
    assert u2 == t2 || (t2 == None && u2 == Some(frame));
    if u2.Some? {
      HangChildren(mem, parent, slot, frame, u2.value, p.i2);
    }
    assert u1 == t1 || (t1 == None && u1 == Some(frame));
    if u1.Some? {
      HangChildren(mem, parent, slot, frame, u1.value, p.i1);
    }
  }

  // ---------------------------------------------------------------- setting a leaf

  ghost function SetLeaf(mem: Memory, pt: nat, i: nat, e: u64): Memory
    requires pt in mem && i < 512
  {
    mem[pt := WithEntry(mem[pt], i, e)]
  }

  lemma SetLeafKeepsTree(mem: Memory, root: nat, ts: Tables, pt: nat, i: nat, e: u64)
    requires IsTree(mem, root, ts) && pt in ts && ts[pt].level == 1 && i < 512
    ensures pt in mem && IsTree(SetLeaf(mem, pt, i, e), root, ts)
  {
    assert TableOk(mem, root, ts, pt);
    var mem' := SetLeaf(mem, pt, i, e);
    forall f: nat, j: nat | j < 512 && f != pt
      ensures Child(mem', f, j) == Child(mem, f, j) && LetsThrough(mem', f, j) == LetsThrough(mem, f, j)
    {
    }
    hide Child, LetsThrough;
    forall f | f in ts
      ensures TableOk(mem', root, ts, f)
    {
      assert TableOk(mem, root, ts, f);
    }
    forall f, j | f in ts && 0 <= j < 512
      ensures SlotOk(mem', ts, f, j)
    {
      assert SlotOk(mem, ts, f, j);
    }
  }

  lemma SetLeafTables(mem: Memory, root: nat, ts: Tables, pt: nat, i: nat, e: u64, q: Path)
    requires IsTree(mem, root, ts) && pt in ts && ts[pt].level == 1 && pt in mem && i < 512 && PathOk(q)
    ensures Table3(SetLeaf(mem, pt, i, e), root, q) == Table3(mem, root, q)
    ensures Table2(SetLeaf(mem, pt, i, e), root, q) == Table2(mem, root, q)
    ensures Table1(SetLeaf(mem, pt, i, e), root, q) == Table1(mem, root, q)
  {
    var mem' := SetLeaf(mem, pt, i, e);
    assert TableOk(mem, root, ts, root);
    WalkStaysInTree(mem, root, ts, q);
    forall f: nat, j: nat | j < 512 && f != pt
      ensures Child(mem', f, j) == Child(mem, f, j)
    {
    }
    hide Child, IsTree;
    assert Table3(mem', root, q) == Table3(mem, root, q);
    assert Table2(mem', root, q) == Table2(mem, root, q);
  }

  /** One page gets the new leaf; the walk of every other page is as it was. */
  lemma SetLeafWalks(mem: Memory, root: nat, ts: Tables, p: Path, e: u64, q: Path)
    requires IsTree(mem, root, ts) && PathOk(p) && PathOk(q) && Table1(mem, root, p).Some? && IsPresent(e)
    ensures var pt := Table1(mem, root, p).value;
            && pt in mem
            && WalkPath(SetLeaf(mem, pt, p.i1, e), root, q) == if q == p then Some(e) else WalkPath(mem, root, q)
  {
    var pt := Table1(mem, root, p).value;
    WalkStaysInTree(mem, root, ts, p);
    assert TableOk(mem, root, ts, pt);
    hide IsTree, Table1, Entry, WithEntry, Child;
    SetLeafTables(mem, root, ts, pt, p.i1, e, q);
    EntryWritten(mem[pt], p.i1, e, q.i1);
    if Table1(mem, root, q) == Some(pt) {
      LastTableDeterminesPath(mem, root, ts, p, q);
    }
  }
}
