/**
 What the hardware makes of an address (section 4.6 of the Intel SDM, volume 3A): the
 frame it leads to, and what user code may do there.  An access is allowed only if all four
 entries on the way allow it.
 */
module PageRights {
  import opened Bytes
  import opened PageTables
  import opened PageTree

  datatype Mapping = Mapping(frame: nat, writable: bool, user: bool, executable: bool)

  /** What the four table entries along these indices amount to: all present, their rights combined. */
  function TranslateAt(mem: Memory, root: nat, i4: nat, i3: nat, i2: nat, i1: nat): Option<Mapping>
    requires i4 < 512 && i3 < 512 && i2 < 512 && i1 < 512
  {
    var e4 := LeafAt(mem, root, i4);
    if e4.None? then None else
    var e3 := LeafAt(mem, LeafAddress(e4.value), i3);
    if e3.None? then None else
    var e2 := LeafAt(mem, LeafAddress(e3.value), i2);
    if e2.None? then None else
    var e1 := LeafAt(mem, LeafAddress(e2.value), i1);
    if e1.None? then None else
    Some(Mapping(
      LeafAddress(e1.value),
      Writable(e4.value) && Writable(e3.value) && Writable(e2.value) && Writable(e1.value),
      ForUser(e4.value) && ForUser(e3.value) && ForUser(e2.value) && ForUser(e1.value),
      Executable(e4.value) && Executable(e3.value) && Executable(e2.value) && Executable(e1.value)))
  }

  /** Bits 39-47, 30-38, 21-29 and 12-20 of an address choose the entries, from the root down. */
  function Translate(mem: Memory, root: nat, v: nat): Option<Mapping> {
    TranslateAt(mem, root, v / 0x80_0000_0000 % 512, v / 0x4000_0000 % 512, v / 0x20_0000 % 512, v / 0x1000 % 512)
  }

  /** What a leaf gives when nothing above it takes anything away. */
  function LeafMapping(e: u64): Mapping {
    Mapping(LeafAddress(e), Writable(e), ForUser(e), Executable(e))
  }

  lemma SlotLetsThrough(mem: Memory, root: nat, ts: Tables, f: nat, i: nat)
    requires IsTree(mem, root, ts) && f in ts && ts[f].level > 1 && i < 512
    ensures LeafAt(mem, f, i).Some? <==> Child(mem, f, i).Some?
    ensures LeafAt(mem, f, i).Some? ==>
              var e := LeafAt(mem, f, i).value;
              Writable(e) && ForUser(e) && Executable(e) && Child(mem, f, i) == Some(LeafAddress(e))
  {
    assert SlotOk(mem, ts, f, i);
    hide Entry, Target;
  }

  /** In a tree of tables the rights of a page are those of its leaf. */
  lemma LeafDecides(mem: Memory, root: nat, ts: Tables, p: Path)
    requires IsTree(mem, root, ts) && PathOk(p)
    ensures TranslateAt(mem, root, p.i4, p.i3, p.i2, p.i1) ==
            var e := WalkPath(mem, root, p); if e.None? then None else Some(LeafMapping(e.value))
  {
    WalkStaysInTree(mem, root, ts, p);
    assert TableOk(mem, root, ts, root);
    hide Child, LeafAt, IsTree, LeafAddress, Writable, ForUser, Executable;
    SlotLetsThrough(mem, root, ts, root, p.i4);
    var t3 := Table3(mem, root, p);
    if t3.Some? {
      SlotLetsThrough(mem, root, ts, t3.value, p.i3);
      var t2 := Table2(mem, root, p);
      if t2.Some? {
        SlotLetsThrough(mem, root, ts, t2.value, p.i2);
      }
    }
  }

  lemma LeafDecidesAt(mem: Memory, root: nat, ts: Tables, v: nat)
    requires IsTree(mem, root, ts)
    ensures Translate(mem, root, v) ==
            var e := Walk(mem, root, v); if e.None? then None else Some(LeafMapping(e.value))
  {
    hide TranslateAt, WalkPath, IsTree, LeafMapping;
    LeafDecides(mem, root, ts, PathOf(v));
  }

  /** Address and flags that were put into a leaf, as the hardware reads them. */
  lemma LeafGives(phys: nat, flags: u64)
    requires FrameAddress(phys) && FlagsOk(flags)
    ensures LeafMapping(LeafEntry(phys, flags)) ==
            Mapping(phys, flags / 2 % 2 == 1, flags / 4 % 2 == 1, flags < 0x8000_0000_0000_0000)
  {
    LeafFields(phys, flags);
    LeafBits(phys, flags);
  }
}
