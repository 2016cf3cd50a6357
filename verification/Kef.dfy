/** Loading a KEF executable: allocate, map and fill its code pages, then its stack. */
module Kef {
  import opened Bytes
  import opened Frames
  import opened PageTables
  import opened PageTree
  import opened PageRights
  import opened Paging
  import opened PageCost
  import opened AddressSpaces

  const STACK_PAGES := 4
  const USER_FLAGS: u64 := 7

  datatype KefHeader = KefHeader(magic: seq<byte>, entryOffset: u32, codeOffset: u32, codeSize: u32)

  function DecodeHeader(file: seq<byte>): KefHeader
    requires |file| >= 16
  {
    KefHeader(file[..4], Decode32(file[4..8]), Decode32(file[8..12]), Decode32(file[12..16]))
  }

  /** A little-endian word of the file. */
  function WordAt(file: seq<byte>, at: nat): nat
    requires at + 4 <= |file|
  {
    file[at] as nat + 0x100 * file[at + 1] as nat + 0x1_0000 * file[at + 2] as nat + 0x100_0000 * file[at + 3] as nat
  }

  /** Where the fields are. */
  lemma HeaderBytes(file: seq<byte>)
    requires |file| >= 16
    ensures var h := DecodeHeader(file);
            && h.magic == [file[0], file[1], file[2], file[3]]
            && h.entryOffset == WordAt(file, 4) && h.codeOffset == WordAt(file, 8) && h.codeSize == WordAt(file, 12)
  {
    assert file[..4] == [file[0], file[1], file[2], file[3]];
  }

  const MAGIC: seq<byte> := [0x4B, 0x45, 0x46, 0]

  /** Panicked covers a failed contiguity assertion and running out of frames for tables. */
  datatype KefResult = Loaded(entryPoint: nat, userRsp: nat) | Rejected | Panicked

  // ---------------------------------------------------------------- frames in use

  /** Frames that are ours: in memory, neither tables nor free. */
  ghost predicate Owned(sp: Space, fs: seq<nat>) {
    forall k | 0 <= k < |fs| :: fs[k] in sp.mem && fs[k] !in sp.tables && fs[k] !in sp.rest && FrameAddress(fs[k])
  }

  ghost predicate Contiguous(fs: seq<nat>) {
    forall k | 0 <= k < |fs| :: fs[k] == fs[0] + k * PAGE_SIZE
  }

  ghost predicate LowFrames(sp: Space) {
    forall k | 0 <= k < |sp.rest| :: sp.rest[k] < LOW_LIMIT
  }

  lemma EvolvesKeepsOwned(a: Space, b: Space, k: nat, fs: seq<nat>)
    requires Evolves(a, b, k) && Owned(a, fs)
    ensures Owned(b, fs) && forall i | 0 <= i < |fs| :: b.mem[fs[i]] == a.mem[fs[i]]
    ensures LowFrames(a) ==> LowFrames(b)
  {
  }

  /** Taking `n` frames off the front: they become ours. */
  ghost function Drop(sp: Space, n: nat): Space
    requires n <= |sp.rest|
  {
    sp.(rest := sp.rest[n..])
  }

  lemma DropOwns(sp: Space, root: nat, n: nat)
    requires SpaceOk(sp, root) && n <= |sp.rest|
    ensures SpaceOk(Drop(sp, n), root) && Owned(Drop(sp, n), sp.rest[..n])
    ensures LowFrames(sp) ==> LowFrames(Drop(sp, n))
  {
    hide IsTree;
  }

  lemma DropKeepsOwned(sp: Space, n: nat, fs: seq<nat>)
    requires n <= |sp.rest| && Owned(sp, fs)
    ensures Owned(Drop(sp, n), fs)
    ensures forall i, j | 0 <= i < |fs| && 0 <= j < n :: fs[i] != sp.rest[j]
  {
    forall i, j | 0 <= i < |fs| && 0 <= j < n
      ensures fs[i] != sp.rest[j]
    {
      assert sp.rest[j] in sp.rest;
    }
  }

  /**
   Allocates `n` frames that must be adjacent.  None: too few (false), and all are taken, or
   not adjacent (true), and the first that is not is the last one taken.
   */
  method AllocateRun(space: AddressSpace, n: nat) returns (start: Option<nat>, panicked: bool, ghost taken: nat)
    requires space.Valid() && n > 0
    modifies space.alloc
    ensures taken <= |old(space.Abs()).rest| && space.Abs() == Drop(old(space.Abs()), taken)
    ensures RunOutcome(old(space.Abs()).rest, n, start, panicked, taken)
  {
    hide SpaceOk, RestOf, Supply, Contiguous, RunOutcome;
    ghost var rest := space.alloc.Remaining();
    var first := space.alloc.AllocateFrame();
    if first.None? {
      NoneIsContiguous(rest);
      RanOut(rest, n);
      return None, false, 0;
    }
    OneIsContiguous(rest);
    var i := 1;
    while i < n
      invariant 1 <= i <= n && i <= |rest|
      invariant space.alloc.Remaining() == rest[i..]
      invariant Contiguous(rest[..i])
    {
      NextOf(rest, i);
      var frame := space.alloc.AllocateFrame();
      if frame.None? {
        RanOut(rest, n);
        return None, false, i;
      }
      ContiguousStep(rest, i);
      if frame.value != first.value + i * PAGE_SIZE {
        GapFound(rest, n, i);
        return None, true, i + 1;
      }
      i := i + 1;
    }
    RunFound(rest, n);
    return first, false, n;
  }

  /** What is left is adjacent, but not enough. */
  ghost predicate RunsShort(rest: seq<nat>, n: nat) {
    |rest| < n && Contiguous(rest)
  }

  /** What comes of asking for `n` adjacent frames when these are next. */
  ghost predicate RunOutcome(rest: seq<nat>, n: nat, start: Option<nat>, panicked: bool, taken: nat) {
    && taken <= n && taken <= |rest|
    && (start.Some? <==> n <= |rest| && Contiguous(rest[..n]))
    && (start.Some? ==> taken == n && rest != [] && start == Some(rest[0]) && !panicked)
    && (panicked ==> taken > 0 && Contiguous(rest[..taken - 1]) && !Contiguous(rest[..taken]))
    && (start.None? && !panicked <==> RunsShort(rest, n))
    && (start.None? && !panicked ==> taken == |rest|)
  }

  lemma NextOf(rest: seq<nat>, i: nat)
    requires i <= |rest|
    ensures rest[i..] == [] <==> i == |rest|
    ensures i < |rest| ==> rest[i..][0] == rest[i] && rest[i..][1..] == rest[i + 1..]
  {
  }

  lemma RanOut(rest: seq<nat>, n: nat)
    requires |rest| < n && Contiguous(rest[..|rest|])
    ensures RunOutcome(rest, n, None, false, |rest|)
  {
    hide Contiguous;
    assert rest[..|rest|] == rest;
  }

  lemma GapFound(rest: seq<nat>, n: nat, i: nat)
    requires i < n && i < |rest| && Contiguous(rest[..i]) && !Contiguous(rest[..i + 1])
    ensures RunOutcome(rest, n, None, true, i + 1)
  {
    hide Contiguous;
    PrefixContiguous(rest, n, i + 1);
    PrefixContiguous(rest, |rest|, i + 1);
    assert rest[..|rest|] == rest;
  }

  lemma RunFound(rest: seq<nat>, n: nat)
    requires 0 < n <= |rest| && Contiguous(rest[..n])
    ensures RunOutcome(rest, n, Some(rest[0]), false, n)
  {
    hide Contiguous;
  }

  lemma NoneIsContiguous(rest: seq<nat>)
    requires rest == []
    ensures Contiguous(rest[..|rest|])
  {
  }

  lemma OneIsContiguous(rest: seq<nat>)
    requires rest != []
    ensures Contiguous(rest[..1])
  {
  }

  lemma ContiguousStep(rest: seq<nat>, i: nat)
    requires 0 < i < |rest| && Contiguous(rest[..i])
    ensures Contiguous(rest[..i + 1]) <==> rest[i] == rest[0] + i * PAGE_SIZE
  {
    var front := rest[..i + 1];
    assert front[i] == rest[i] && forall k | 0 <= k < i :: front[k] == rest[..i][k];
  }

  /** A gap early on is a gap later on. */
  lemma PrefixContiguous(rest: seq<nat>, n: nat, i: nat)
    requires i <= |rest| && !Contiguous(rest[..i])
    ensures i <= n <= |rest| ==> !Contiguous(rest[..n])
  {
    var k :| 0 <= k < i && rest[..i][k] != rest[..i][0] + k * PAGE_SIZE;
    assert rest[k] != rest[0] + k * PAGE_SIZE;
    assert i <= n <= |rest| ==> rest[..n][k] == rest[k] && rest[..n][0] == rest[0];
  }

  // ---------------------------------------------------------------- mapping for the user

  ghost predicate UserMapped(mem: Memory, root: nat, fs: seq<nat>) {
    forall k | 0 <= k < |fs| :: FrameAddress(fs[k]) && Walk(mem, root, fs[k]) == Some(LeafEntry(fs[k], USER_FLAGS))
  }

  ghost predicate OthersKept(mem: Memory, mem': Memory, root: nat, fs: seq<nat>) {
    forall w: nat :: PageOf(w) !in fs ==> Walk(mem', root, w) == Walk(mem, root, w)
  }

  ghost predicate Low(fs: seq<nat>) {
    forall k | 0 <= k < |fs| :: FrameAddress(fs[k]) && fs[k] < LOW_LIMIT
  }

  lemma MapOneMore(mem0: Memory, mem: Memory, mem': Memory, root: nat, fs: seq<nat>, f: nat)
    requires Low(fs) && FrameAddress(f) && f < LOW_LIMIT && f !in fs
    requires UserMapped(mem, root, fs) && OthersKept(mem0, mem, root, fs)
    requires Updated(mem, mem', root, f, LeafEntry(f, USER_FLAGS))
    ensures UserMapped(mem', root, fs + [f]) && OthersKept(mem0, mem', root, fs + [f])
  {
    PageOfAligned(f);
    hide Walk, PageOf, LeafEntry;
    var gs := fs + [f];
    forall k | 0 <= k < |gs|
      ensures FrameAddress(gs[k]) && Walk(mem', root, gs[k]) == Some(LeafEntry(gs[k], USER_FLAGS))
    {
      PageOfAligned(gs[k]);
      assert k < |fs| ==> gs[k] in fs;
    }
    forall w: nat | PageOf(w) !in gs
      ensures Walk(mem', root, w) == Walk(mem0, root, w)
    {
      assert f in gs && forall x | x in fs :: x in gs;
    }
  }

  lemma ContiguousAt(fs: seq<nat>, i: nat)
    requires Contiguous(fs) && Low(fs) && i < |fs|
    ensures fs[i] == fs[0] + i * PAGE_SIZE && FrameAddress(fs[i]) && fs[i] < LOW_LIMIT
    ensures fs[i] !in fs[..i] && Low(fs[..i]) && fs[..i] + [fs[i]] == fs[..i + 1]
  {
  }

  /** For the hardware: each page leads to itself, and user code may read, write and execute there. */
  ghost predicate UserReachable(mem: Memory, root: nat, fs: seq<nat>) {
    forall k | 0 <= k < |fs| :: Translate(mem, root, fs[k]) == Some(Mapping(fs[k], true, true, true))
  }

  /** No other address leads anywhere else, or with other rights. */
  ghost predicate OthersTranslate(mem: Memory, mem': Memory, root: nat, fs: seq<nat>) {
    forall w: nat :: PageOf(w) !in fs ==> Translate(mem', root, w) == Translate(mem, root, w)
  }

  lemma UserFlagsGive(f: nat)
    requires FrameAddress(f)
    ensures LeafMapping(LeafEntry(f, USER_FLAGS)) == Mapping(f, true, true, true)
  {
    LeafGives(f, USER_FLAGS);
    hide LeafMapping, LeafEntry;
  }

  lemma MappedIsReachable(sp: Space, root: nat, fs: seq<nat>)
    requires SpaceOk(sp, root) && UserMapped(sp.mem, root, fs)
    ensures UserReachable(sp.mem, root, fs)
  {
    hide Walk, Translate, LeafEntry, LeafMapping, IsTree;
    forall k | 0 <= k < |fs|
      ensures Translate(sp.mem, root, fs[k]) == Some(Mapping(fs[k], true, true, true))
    {
      LeafDecidesAt(sp.mem, root, sp.tables, fs[k]);
      UserFlagsGive(fs[k]);
    }
  }

  lemma KeptIsTranslated(sp: Space, sp': Space, root: nat, fs: seq<nat>)
    requires SpaceOk(sp, root) && SpaceOk(sp', root) && OthersKept(sp.mem, sp'.mem, root, fs)
    ensures OthersTranslate(sp.mem, sp'.mem, root, fs)
  {
    hide Walk, Translate, LeafMapping, IsTree, PageOf;
    forall w: nat | PageOf(w) !in fs
      ensures Translate(sp'.mem, root, w) == Translate(sp.mem, root, w)
    {
      LeafDecidesAt(sp.mem, root, sp.tables, w);
      LeafDecidesAt(sp'.mem, root, sp'.tables, w);
    }
  }

  ghost function Pages(fs: seq<nat>): set<nat> {
    set f | f in fs
  }

  /** Maps a run for the user.  It succeeds exactly when there are frames for the tables that are missing. */
  method MapUser(space: AddressSpace, ghost fs: seq<nat>, start: nat, n: nat) returns (ok: bool, ghost used: nat)
    requires space.Valid() && |fs| == n > 0 && start == fs[0] && Contiguous(fs) && Low(fs)
    modifies space, space.alloc
    ensures used == NewTables(old(space.mem), space.root, Pages(fs))
    ensures ok <==> used <= |old(space.Abs()).rest|
    ensures ok ==>
              && space.Valid() && Evolves(old(space.Abs()), space.Abs(), used)
              && UserMapped(space.mem, space.root, fs) && OthersKept(old(space.mem), space.mem, space.root, fs)
              && GrownBy(old(space.mem), space.mem, space.root, Pages(fs))
              && UserReachable(space.mem, space.root, fs)
              && OthersTranslate(old(space.mem), space.mem, space.root, fs)
  {
    hide SpaceOk, Evolves, LeafEntry, Updated, Contiguous, Low, UserMapped, OthersKept, MappedSoFar, RestOf;
    hide NewTables, GrownBy, AllAdded, Missing, PathOf, UserReachable, OthersTranslate, Retranslated;
    ghost var before, spent := space.Abs(), 0;
    used := NewTables(before.mem, space.root, Pages(fs));
    NoneMapped(before, space.root, fs);
    for i := 0 to n
      invariant space.Valid() && MappedSoFar(before, space.Abs(), space.root, fs, i, spent)
    {
      var a := start + i * PAGE_SIZE;
      ContiguousAt(fs, i);
      ghost var sp, more := space.Abs(), 0;
      CostSoFar(before, sp, space.root, fs, i, spent);
      ok, more := MapSelf(space, a, USER_FLAGS);
      if !ok {
        return;
      }
      OneMoreMapped(before, sp, space.Abs(), space.root, fs, i, spent, more);
      spent := spent + more;
    }
    AllMapped(before, space.Abs(), space.root, fs, spent);
    MappedIsReachable(space.Abs(), space.root, fs);
    KeptIsTranslated(before, space.Abs(), space.root, fs);
    ok := true;
  }

  /** The first `i` pages are mapped, and exactly the tables they need have been added. */
  ghost predicate MappedSoFar(before: Space, sp: Space, root: nat, fs: seq<nat>, i: nat, used: nat) {
    && i <= |fs| && Evolves(before, sp, used)
    && UserMapped(sp.mem, root, fs[..i]) && OthersKept(before.mem, sp.mem, root, fs[..i])
    && GrownBy(before.mem, sp.mem, root, Pages(fs[..i]))
    && used == NewTables(before.mem, root, Pages(fs[..i])) && |before.rest| == |sp.rest| + used
  }

  lemma PagesStep(fs: seq<nat>, i: nat)
    requires Low(fs) && i < |fs|
    ensures Pages(fs[..i + 1]) == Pages(fs[..i]) + {fs[i]} && Pages(fs[..i + 1]) <= Pages(fs)
    ensures LowPages(Pages(fs[..i])) && LowPages({fs[i]})
  {
    assert fs[..i + 1] == fs[..i] + [fs[i]];
  }

  lemma CostSoFar(before: Space, sp: Space, root: nat, fs: seq<nat>, i: nat, used: nat)
    requires MappedSoFar(before, sp, root, fs, i, used) && i < |fs| && Low(fs)
    ensures |before.rest| == |sp.rest| + used
    ensures used + Missing(sp.mem, root, PathOf(fs[i])) == NewTables(before.mem, root, Pages(fs[..i + 1]))
    ensures NewTables(before.mem, root, Pages(fs[..i + 1])) <= NewTables(before.mem, root, Pages(fs))
  {
    hide Evolves, UserMapped, OthersKept, GrownBy, NewTables, Low, LowPages, Pages, Missing, PathOf;
    PagesStep(fs, i);
    NewTablesAdd(before.mem, sp.mem, root, Pages(fs[..i]), {fs[i]});
    OnePageIsMissing(sp.mem, root, fs[i]);
    MoreCostsMore(before.mem, root, Pages(fs[..i + 1]), Pages(fs));
  }

  lemma OneMoreMapped(before: Space, sp: Space, sp': Space, root: nat, fs: seq<nat>, i: nat, used: nat, more: nat)
    requires Contiguous(fs) && Low(fs) && i < |fs| && MappedSoFar(before, sp, root, fs, i, used)
    requires FrameAddress(fs[i]) && Evolves(sp, sp', more)
    requires Updated(sp.mem, sp'.mem, root, fs[i], LeafEntry(fs[i], USER_FLAGS))
    requires AllAdded(sp.mem, sp'.mem, root, PathOf(fs[i]))
    requires more == Missing(sp.mem, root, PathOf(fs[i])) && |sp.rest| == |sp'.rest| + more
    ensures MappedSoFar(before, sp', root, fs, i + 1, used + more)
  {
    hide Evolves, UserMapped, OthersKept, Updated, LeafEntry, Contiguous, Low, GrownBy, NewTables, Pages, LowPages;
    hide AllAdded, Missing, PathOf;
    CostSoFar(before, sp, root, fs, i, used);
    ContiguousAt(fs, i);
    EvolvesOn(before, sp, sp', used, more);
    MapOneMore(before.mem, sp.mem, sp'.mem, root, fs[..i], fs[i]);
    PagesStep(fs, i);
    MappedIsGrown(sp.mem, sp'.mem, root, fs[i]);
    GrownTwice(before.mem, sp.mem, sp'.mem, root, Pages(fs[..i]), {fs[i]});
  }

  lemma AllMapped(before: Space, sp: Space, root: nat, fs: seq<nat>, used: nat)
    requires MappedSoFar(before, sp, root, fs, |fs|, used)
    ensures Evolves(before, sp, used) && used == NewTables(before.mem, root, Pages(fs)) <= |before.rest|
    ensures UserMapped(sp.mem, root, fs) && OthersKept(before.mem, sp.mem, root, fs)
    ensures GrownBy(before.mem, sp.mem, root, Pages(fs))
  {
    hide Evolves, UserMapped, OthersKept, GrownBy, NewTables;
    assert fs[..|fs|] == fs;
  }

  lemma NoneMapped(before: Space, root: nat, fs: seq<nat>)
    ensures MappedSoFar(before, before, root, fs, 0, 0)
  {
    hide Evolves, Walk, GrownBy, NewTables;
    EvolvesSelf(before);
    GrownByNone(before.mem, root);
    assert Pages(fs[..0]) == {};
  }

  // ---------------------------------------------------------------- copying the code

  /** A walk only looks at tables, so writing any other frame leaves it alone. */
  lemma WriteOutsideTables(sp: Space, root: nat, f: nat, page: Page, q: Path)
    requires SpaceOk(sp, root) && f in sp.mem && f !in sp.tables && PathOk(q)
    ensures WalkPath(sp.mem[f := page], root, q) == WalkPath(sp.mem, root, q)
    ensures forall d | 1 <= d <= 3 :: TableAt(sp.mem[f := page], root, q, d) == TableAt(sp.mem, root, q, d)
  {
    WalkStaysInTree(sp.mem, root, sp.tables, q);
    assert TableOk(sp.mem, root, sp.tables, root);
    hide IsTree, Entry;
  }

  ghost predicate SameTables(mem: Memory, mem': Memory, root: nat) {
    forall q, d | PathOk(q) && 1 <= d <= 3 :: HasTable(mem', root, q, d) <==> HasTable(mem, root, q, d)
  }

  lemma WriteOwnedKeepsSpace(sp: Space, root: nat, f: nat, page: Page)
    requires SpaceOk(sp, root) && f in sp.mem && f !in sp.tables
    ensures SpaceOk(sp.(mem := sp.mem[f := page]), root)
    ensures SameWalks(sp.mem, sp.mem[f := page], root) && SameTables(sp.mem, sp.mem[f := page], root)
  {
    var mem' := sp.mem[f := page];
    forall q | PathOk(q)
      ensures WalkPath(mem', root, q) == WalkPath(sp.mem, root, q)
      ensures forall d | 1 <= d <= 3 :: TableAt(mem', root, q, d) == TableAt(sp.mem, root, q, d)
    {
      WriteOutsideTables(sp, root, f, page, q);
    }
    hide WalkPath, TableAt;
    WriteKeepsTree(sp.mem, root, sp.tables, f, page);
  }

  lemma WriteKeepsTree(mem: Memory, root: nat, ts: Tables, f: nat, page: Page)
    requires IsTree(mem, root, ts) && f !in ts
    ensures IsTree(mem[f := page], root, ts)
  {
    var mem' := mem[f := page];
    forall g: nat, i: nat | g in ts && i < 512
      ensures Child(mem', g, i) == Child(mem, g, i) && LetsThrough(mem', g, i) == LetsThrough(mem, g, i)
    {
    }
    hide Child, LetsThrough;
    forall g | g in ts
      ensures TableOk(mem', root, ts, g)
    {
      assert TableOk(mem, root, ts, g);
    }
    forall g, i | g in ts && 0 <= i < 512
      ensures SlotOk(mem', ts, g, i)
    {
      assert SlotOk(mem, ts, g, i);
    }
  }

  /** Page `i` of the code. */
  ghost predicate HoldsPage(page: Page, code: seq<byte>, i: nat) {
    forall j | 0 <= j < PAGE_SIZE && PAGE_SIZE * i + j < |code| :: page[j] == code[PAGE_SIZE * i + j]
  }

  ghost predicate HoldsCode(mem: Memory, fs: seq<nat>, code: seq<byte>, n: nat) {
    forall i | 0 <= i < n && i < |fs| :: fs[i] in mem && HoldsPage(mem[fs[i]], code, i)
  }

  /** `sp'` is `sp` with other contents in the frames `fs`. */
  ghost predicate OnlyContents(sp: Space, sp': Space, root: nat, fs: seq<nat>) {
    && sp'.tables == sp.tables && sp'.rest == sp.rest && sp'.mem.Keys == sp.mem.Keys
    && SameWalks(sp.mem, sp'.mem, root) && SameTables(sp.mem, sp'.mem, root)
    && forall f | f in sp.mem && f !in fs :: sp'.mem[f] == sp.mem[f]
  }

  lemma PageWritten(sp: Space, sp': Space, root: nat, fs: seq<nat>, code: seq<byte>, i: nat, page: Page)
    requires OnlyContents(sp, sp', root, fs) && SpaceOk(sp', root) && Owned(sp', fs) && Contiguous(fs) && i < |fs|
    requires HoldsCode(sp'.mem, fs, code, i) && HoldsPage(page, code, i)
    ensures var sp'' := sp'.(mem := sp'.mem[fs[i] := page]);
            && OnlyContents(sp, sp'', root, fs) && SpaceOk(sp'', root) && Owned(sp'', fs)
            && HoldsCode(sp''.mem, fs, code, i + 1)
  {
    hide SpaceOk, WalkPath, HoldsPage, HasTable;
    WriteOwnedKeepsSpace(sp', root, fs[i], page);
    SameWalksOn(sp.mem, sp'.mem, sp'.mem[fs[i] := page], root);
    assert fs[i] in fs;
    assert forall k | 0 <= k < i :: fs[k] != fs[i];
  }

  method CopyCode(space: AddressSpace, ghost fs: seq<nat>, start: nat, n: nat, code: seq<byte>)
    requires space.Valid() && |fs| == n && (n > 0 ==> start == fs[0]) && Contiguous(fs) && Owned(space.Abs(), fs)
    modifies space
    ensures space.Valid() && OnlyContents(old(space.Abs()), space.Abs(), space.root, fs)
    ensures HoldsCode(space.mem, fs, code, n)
  {
    hide SpaceOk, WalkPath, HoldsPage, HasTable;
    ghost var before := space.Abs();
    for i := 0 to n
      invariant space.Valid() && OnlyContents(before, space.Abs(), space.root, fs) && Owned(space.Abs(), fs)
      invariant HoldsCode(space.mem, fs, code, i)
    {
      var f := start + i * PAGE_SIZE;
      assert fs[i] == f;
      var page := PageWith(space.mem[f], code, i);
      PageWritten(before, space.Abs(), space.root, fs, code, i, page);
      space.mem := space.mem[f := page];
    }
  }

  /** Page `i` of the code over what the frame held. */
  function PageWith(page: Page, code: seq<byte>, i: nat): (r: Page)
    ensures HoldsPage(r, code, i)
  {
    var lo, hi := PAGE_SIZE * i, if PAGE_SIZE * (i + 1) <= |code| then PAGE_SIZE * (i + 1) else |code|;
    if lo <= hi then code[lo..hi] + page[hi - lo..] else page
  }

  // ---------------------------------------------------------------- the loader

  /** The code is in frames of its own, holds its bytes, and is mapped for the user. */
  ghost predicate CodeReady(sp0: Space, sp: Space, root: nat, code: seq<nat>, bytes: seq<byte>) {
    && Low(code) && Contiguous(code) && Owned(sp, code) && LowFrames(sp)
    && HoldsCode(sp.mem, code, bytes, |code|)
    && UserMapped(sp.mem, root, code)
    && OthersKept(sp0.mem, sp.mem, root, code)
  }

  lemma LowPrefix(sp: Space, root: nat, n: nat)
    requires SpaceOk(sp, root) && LowFrames(sp) && n <= |sp.rest|
    ensures Low(sp.rest[..n])
  {
    hide IsTree;
  }

  lemma SameWalksByAddress(a: Memory, b: Memory, root: nat, w: nat)
    requires SameWalks(a, b, root)
    ensures Walk(a, root, w) == Walk(b, root, w)
  {
    hide WalkPath;
    assert PathOk(PathOf(w));
  }

  lemma CodeIsReady(sp0: Space, sp1: Space, sp2: Space, sp3: Space, root: nat, used: nat, code: seq<nat>,
                    bytes: seq<byte>)
    requires sp1.mem == sp0.mem && Owned(sp1, code) && LowFrames(sp1) && Low(code) && Contiguous(code)
    requires Evolves(sp1, sp2, used) && UserMapped(sp2.mem, root, code) && OthersKept(sp1.mem, sp2.mem, root, code)
    requires OnlyContents(sp2, sp3, root, code) && HoldsCode(sp3.mem, code, bytes, |code|)
    ensures CodeReady(sp0, sp3, root, code, bytes)
  {
    hide Walk, PageOf, LeafEntry, HoldsCode, Contiguous;
    EvolvesKeepsOwned(sp1, sp2, used, code);
    hide Evolves;
    forall w: nat
      ensures Walk(sp2.mem, root, w) == Walk(sp3.mem, root, w)
    {
      SameWalksByAddress(sp2.mem, sp3.mem, root, w);
    }
  }

  lemma NothingMoved(mem: Memory, root: nat)
    ensures OthersKept(mem, mem, root, [])
  {
  }

  lemma FramesTaken(sp0: Space, sp2: Space, sp3: Space, root: nat, n: nat, used: nat, code: seq<nat>)
    requires n <= |sp0.rest| && Evolves(Drop(sp0, n), sp2, used) && OnlyContents(sp2, sp3, root, code)
    ensures n + used <= |sp0.rest| && sp3.rest == sp0.rest[n + used..]
  {
    hide WalkPath;
  }

  lemma ContentsKeepGrowth(mem0: Memory, sp2: Space, sp3: Space, root: nat, code: seq<nat>)
    requires GrownBy(mem0, sp2.mem, root, Pages(code)) && OnlyContents(sp2, sp3, root, code)
    ensures GrownBy(mem0, sp3.mem, root, Pages(code))
  {
    hide HasTable, Needed, WalkPath;
  }

  /** The next `n` frames are adjacent, and behind them there are frames for the tables they need. */
  ghost predicate CodeFits(mem: Memory, root: nat, rest: seq<nat>, n: nat) {
    n <= |rest| && Contiguous(rest[..n]) && n + NewTables(mem, root, Pages(rest[..n])) <= |rest|
  }

  /** Allocates, maps and fills the code pages. */
  method LoadCode(space: AddressSpace, n: nat, file: seq<byte>, lo: nat, size: nat)
    returns (r: KefResult, start: nat, ghost code: seq<nat>, ghost used: nat)
    requires space.Valid() && LowFrames(space.Abs()) && n > 0
    modifies space, space.alloc
    ensures r.Loaded? ==>
              && lo + size <= |file|
              && space.Valid() && |code| == n && start == code[0]
              && CodeReady(old(space.Abs()), space.Abs(), space.root, code, file[lo..lo + size])
              && GrownBy(old(space.mem), space.mem, space.root, Pages(code))
              && used == NewTables(old(space.mem), space.root, Pages(code))
              && n + used <= |old(space.Abs()).rest| && space.Abs().rest == old(space.Abs()).rest[n + used..]
    ensures r.Loaded? <==> lo + size <= |file| && CodeFits(old(space.mem), space.root, old(space.Abs()).rest, n)
    ensures r == Rejected <==>
              || RunsShort(old(space.Abs()).rest, n)
              || (lo + size > |file| && CodeFits(old(space.mem), space.root, old(space.Abs()).rest, n))
    ensures |code| <= |old(space.Abs()).rest| && code == old(space.Abs()).rest[..|code|]
    ensures r == Rejected ==> space.Valid() && OnlyCodeMapped(old(space.Abs()), space.Abs(), space.root, code)
  {
    hide SpaceOk, Evolves, UserMapped, OthersKept, HoldsCode, OnlyContents, CodeReady, Owned, Contiguous, Low;
    hide LowFrames, RestOf, Supply, GrownBy, NewTables, Pages;
    code, start, used := [], 0, 0;
    ghost var sp0 := space.Abs();
    var first, panicked, taken := AllocateRun(space, n);
    if first.None? {
      DropOwns(sp0, space.root, taken);
      NothingMoved(sp0.mem, space.root);
      return if panicked then Panicked else Rejected, 0, [], 0;
    }
    code := sp0.rest[..n];
    start := first.value;
    ghost var sp1 := space.Abs();
    DropOwns(sp0, space.root, n);
    LowPrefix(sp0, space.root, n);
    var ok;
    ok, used := MapUser(space, code, start, n);
    if !ok {
      return Panicked, 0, [], 0;
    }
    ghost var sp2 := space.Abs();
    if lo + size > |file| {
      return Rejected, 0, code, 0;
    }
    EvolvesKeepsOwned(sp1, sp2, used, code);
    CopyCode(space, code, start, n, file[lo..lo + size]);
    CodeIsReady(sp0, sp1, sp2, space.Abs(), space.root, used, code, file[lo..lo + size]);
    FramesTaken(sp0, sp2, space.Abs(), space.root, n, used, code);
    ContentsKeepGrowth(sp0.mem, sp2, space.Abs(), space.root, code);
    r := Loaded(0, 0);
  }

  ghost predicate Apart(code: seq<nat>, stack: seq<nat>) {
    forall i, j | 0 <= i < |code| && 0 <= j < |stack| :: code[i] != stack[j]
  }

  /** The stack's frames, later tables and later zeroing touch neither the code's bytes nor its mapping. */
  lemma CodeSurvives(sp0: Space, sp3: Space, sp4: Space, sp5: Space, root: nat, used: nat,
                     code: seq<nat>, bytes: seq<byte>, stack: seq<nat>)
    requires CodeReady(sp0, sp3, root, code, bytes) && sp4 == sp3.(rest := sp4.rest) && Owned(sp4, code)
    requires Apart(code, stack)
    requires Evolves(sp4, sp5, used) && OthersKept(sp4.mem, sp5.mem, root, stack)
    ensures Owned(sp5, code) && HoldsCode(sp5.mem, code, bytes, |code|) && UserMapped(sp5.mem, root, code)
  {
    hide Walk, PageOf, LeafEntry, HoldsPage;
    EvolvesKeepsOwned(sp4, sp5, used, code);
    hide Evolves;
    forall k | 0 <= k < |code|
      ensures Walk(sp5.mem, root, code[k]) == Walk(sp4.mem, root, code[k])
    {
      PageOfAligned(code[k]);
    }
  }

  lemma KeptTwice(a: Memory, b: Memory, c: Memory, root: nat, code: seq<nat>, stack: seq<nat>)
    requires OthersKept(a, b, root, code) && OthersKept(b, c, root, stack)
    ensures OthersKept(a, c, root, code + stack)
  {
    hide Walk, PageOf;
    forall w: nat | PageOf(w) !in code + stack
      ensures Walk(c, root, w) == Walk(a, root, w)
    {
      assert PageOf(w) !in code && PageOf(w) !in stack;
    }
  }

  function CodePages(file: seq<byte>): nat
    requires |file| >= 16
  {
    (DecodeHeader(file).codeSize + 4095) / 4096
  }

  predicate HeaderOk(file: seq<byte>) {
    |file| >= 16 && DecodeHeader(file).magic == MAGIC && DecodeHeader(file).codeSize > 0
  }

  predicate WellFormed(file: seq<byte>) {
    && HeaderOk(file)
    && DecodeHeader(file).codeOffset + DecodeHeader(file).codeSize <= |file|
  }

  /** Which headers are accepted: "KEF", a zero byte, and some code. */
  lemma HeaderByBytes(file: seq<byte>)
    ensures HeaderOk(file) <==>
            && |file| >= 16 && file[0] == 0x4B && file[1] == 0x45 && file[2] == 0x46 && file[3] == 0
            && WordAt(file, 12) > 0
  {
    if |file| >= 16 {
      HeaderBytes(file);
    }
  }

  function CodeOf(file: seq<byte>): seq<byte>
    requires WellFormed(file)
  {
    var h := DecodeHeader(file);
    file[h.codeOffset..h.codeOffset + h.codeSize]
  }

  /**
   The code's frames hold its bytes; code and stack are frames of their own, apart from
   each other, from the tables and from what is free, and mapped for the user to
   themselves; nothing else has changed its translation.
   */
  ghost predicate InPlace(mem0: Memory, sp: Space, root: nat, code: seq<nat>, stack: seq<nat>, bytes: seq<byte>) {
    && Contiguous(code) && Contiguous(stack)
    && Owned(sp, code) && Owned(sp, stack) && Apart(code, stack)
    && HoldsCode(sp.mem, code, bytes, |code|)
    && UserMapped(sp.mem, root, code) && UserMapped(sp.mem, root, stack)
    && OthersKept(mem0, sp.mem, root, code + stack)
  }

  /**
   What is next in the supply, exactly as needed: adjacent frames for the code, frames for
   its tables, adjacent frames for the stack, and frames for the tables that this still needs.
   */
  ghost predicate Suffices(mem: Memory, root: nat, rest: seq<nat>, n: nat) {
    && CodeFits(mem, root, rest, n)
    && var code := rest[..n];
       var left := rest[n + NewTables(mem, root, Pages(code))..];
       && STACK_PAGES <= |left| && Contiguous(left[..STACK_PAGES])
       && n + STACK_PAGES + NewTables(mem, root, Pages(code) + Pages(left[..STACK_PAGES])) <= |rest|
  }

  lemma SufficesInTurn(mem: Memory, mem': Memory, root: nat, rest: seq<nat>, n: nat)
    requires CodeFits(mem, root, rest, n) && GrownBy(mem, mem', root, Pages(rest[..n]))
    requires forall k | 0 <= k < |rest| :: rest[k] < LOW_LIMIT
    ensures var left := rest[n + NewTables(mem, root, Pages(rest[..n]))..];
            Suffices(mem, root, rest, n) <==> CodeFits(mem', root, left, STACK_PAGES)
  {
    hide GrownBy, NewTables, Contiguous;
    var code, left := rest[..n], rest[n + NewTables(mem, root, Pages(rest[..n]))..];
    if STACK_PAGES <= |left| {
      NewTablesAdd(mem, mem', root, Pages(code), Pages(left[..STACK_PAGES]));
    }
  }

  /**
   The load is refused, without a panic: too few frames for the code; frames for it, but the
   file is too short; or, behind the code and its tables, too few frames for the stack.
   */
  ghost predicate Refuses(mem: Memory, root: nat, rest: seq<nat>, n: nat, short: bool) {
    || RunsShort(rest, n)
    || (CodeFits(mem, root, rest, n) && (short || RunsShort(Behind(mem, root, rest, n), STACK_PAGES)))
  }

  /** The frames left behind the code and its tables. */
  ghost function Behind(mem: Memory, root: nat, rest: seq<nat>, n: nat): seq<nat>
    requires CodeFits(mem, root, rest, n)
  {
    rest[n + NewTables(mem, root, Pages(rest[..n]))..]
  }

  lemma RefusesInTurn(mem: Memory, root: nat, rest: seq<nat>, n: nat, short: bool)
    ensures CodeFits(mem, root, rest, n) ==>
              && n <= |rest| && n + NewTables(mem, root, Pages(rest[..n])) <= |rest|
              && (Refuses(mem, root, rest, n, short) <==>
                  short || RunsShort(rest[n + NewTables(mem, root, Pages(rest[..n]))..], STACK_PAGES))
    ensures !CodeFits(mem, root, rest, n) ==> (Refuses(mem, root, rest, n, short) <==> RunsShort(rest, n))
  {
    hide NewTables, Contiguous, Pages;
  }

  lemma SufficesFits(mem: Memory, root: nat, rest: seq<nat>, n: nat)
    ensures Suffices(mem, root, rest, n) ==> CodeFits(mem, root, rest, n)
  {
  }

  lemma LowRest(sp: Space)
    requires LowFrames(sp)
    ensures forall k | 0 <= k < |sp.rest| :: sp.rest[k] < LOW_LIMIT
  {
  }

  lemma PartContiguous(rest: seq<nat>, m: nat, at: nat, k: nat)
    requires at + k <= m <= |rest| && Contiguous(rest[..m])
    ensures Contiguous(rest[at..][..k])
  {
    var front, part := rest[..m], rest[at..][..k];
    forall j | 0 <= j < |part|
      ensures part[j] == part[0] + j * PAGE_SIZE
    {
      assert part[j] == front[at + j] && part[0] == front[at];
    }
  }

  /** In particular, four frames a page without a gap suffice. */
  lemma PlentySuffices(mem: Memory, root: nat, rest: seq<nat>, n: nat)
    requires n > 0 && 4 * (n + STACK_PAGES) <= |rest| && Contiguous(rest[..4 * (n + STACK_PAGES)])
    ensures Suffices(mem, root, rest, n)
  {
    hide NewTables, Contiguous, Pages;
    var m, code := 4 * (n + STACK_PAGES), rest[..n];
    assert rest[0..][..n] == code;
    PartContiguous(rest, m, 0, n);
    PagesBound(code);
    AtMostThreeEach(mem, root, Pages(code));
    var at := n + NewTables(mem, root, Pages(code));
    var stack := rest[at..][..STACK_PAGES];
    PartContiguous(rest, m, at, STACK_PAGES);
    PagesBound(stack);
    AtMostThreeEach(mem, root, Pages(code) + Pages(stack));
    BothBound(Pages(code), Pages(stack));
  }

  lemma BothBound(a: set<nat>, b: set<nat>)
    ensures |a + b| <= |a| + |b|
  {
    assert a + b == a + (b - a) && b == (b - a) + a * b;
  }

  lemma {:induction false} PagesBound(fs: seq<nat>)
    ensures |Pages(fs)| <= |fs|
  {
    if fs != [] {
      var front := fs[..|fs| - 1];
      PagesBound(front);
      assert Pages(fs) == Pages(front) + {fs[|fs| - 1]};
    }
  }

  /** Allocate and map the stack behind code that is ready. */
  method LoadStack(space: AddressSpace, ghost sp0: Space, ghost code: seq<nat>, ghost bytes: seq<byte>)
    returns (r: KefResult, start: nat, ghost stack: seq<nat>)
    requires space.Valid() && CodeReady(sp0, space.Abs(), space.root, code, bytes)
    modifies space, space.alloc
    ensures r.Loaded? ==>
              && space.Valid() && |stack| == STACK_PAGES && start == stack[0]
              && InPlace(sp0.mem, space.Abs(), space.root, code, stack, bytes)
    ensures r.Loaded? <==> CodeFits(old(space.mem), space.root, old(space.Abs()).rest, STACK_PAGES)
    ensures r == Rejected <==> RunsShort(old(space.Abs()).rest, STACK_PAGES)
    ensures r == Rejected ==> space.Valid() && OthersKept(sp0.mem, space.mem, space.root, code)
  {
    hide SpaceOk, Evolves, UserMapped, OthersKept, HoldsCode, Owned, Contiguous, Low, WalkPath, Apart;
    hide GrownBy, NewTables, Pages;
    stack, start := [], 0;
    ghost var sp3 := space.Abs();
    var first, panicked, taken := AllocateRun(space, STACK_PAGES);
    if first.None? {
      DropOwns(sp3, space.root, taken);
      return if panicked then Panicked else Rejected, 0, [];
    }
    stack := sp3.rest[..STACK_PAGES];
    start := first.value;
    ghost var sp4 := space.Abs();
    StackFramesAreOurs(sp3, space.root, code);
    var ok, used := MapUser(space, stack, start, STACK_PAGES);
    if !ok {
      return Panicked, 0, stack;
    }
    CodeSurvives(sp0, sp3, sp4, space.Abs(), space.root, used, code, bytes, stack);
    EvolvesKeepsOwned(sp4, space.Abs(), used, stack);
    KeptTwice(sp0.mem, sp3.mem, space.mem, space.root, code, stack);
    ReadyIsContiguous(sp0, sp3, space.root, code, bytes);
    r := Loaded(0, 0);
  }

  lemma ReadyIsContiguous(sp0: Space, sp: Space, root: nat, code: seq<nat>, bytes: seq<byte>)
    requires CodeReady(sp0, sp, root, code, bytes)
    ensures Contiguous(code)
  {
  }

  /**
   On success the code frames hold the file's code bytes when the call returns, the
   code, stack and table frames are disjoint, code and stack are mapped to
   themselves for the user, and no other page's translation has changed.  A file is
   loaded if and only if it is well-formed and the frames suffice.  A file that is rejected leaves a
   valid address space in which at most pages of frames that were free are mapped.
   */
  method LoadKef(space: AddressSpace, file: seq<byte>)
    returns (r: KefResult, ghost code: seq<nat>, ghost stack: seq<nat>)
    requires space.Valid() && LowFrames(space.Abs())
    modifies space, space.alloc
    ensures !HeaderOk(file) ==> space.Abs() == old(space.Abs())
    ensures r.Loaded? ==> space.Valid() && Runnable(old(space.mem), space.Abs(), space.root, file, code, stack, r)
    ensures r.Loaded? <==>
              WellFormed(file) && Suffices(old(space.mem), space.root, old(space.Abs()).rest, CodePages(file))
    ensures r == Rejected <==>
              || !HeaderOk(file)
              || Refuses(old(space.mem), space.root, old(space.Abs()).rest, CodePages(file), !WellFormed(file))
    ensures r == Rejected ==>
              && space.Valid() && |code| <= |old(space.Abs()).rest| && code == old(space.Abs()).rest[..|code|]
              && OthersTranslate(old(space.mem), space.mem, space.root, code)
  {
    hide SpaceOk, InPlace, Suffices, Refuses, Decode32, LowFrames, OthersKept, OthersTranslate, Runnable;
    hide NewTables, Pages;
    ghost var before := space.Abs();
    NothingMoved(space.mem, space.root);
    KeptIsTranslated(before, before, space.root, []);
    if |file| < 16 {
      return Rejected, [], [];
    }
    var h := DecodeHeader(file);
    if h.magic != MAGIC {
      return Rejected, [], [];
    }
    var codePages: nat := (h.codeSize + 4095) / 4096;
    if codePages == 0 {
      return Rejected, [], [];
    }
    var codeStart, stackStart;
    r, codeStart, stackStart, code, stack := LoadSegments(space, codePages, file, h.codeOffset, h.codeSize);
    if r.Loaded? {
      r := Loaded(codeStart + h.entryOffset, stackStart + STACK_PAGES * PAGE_SIZE);
      InPlaceIsRunnable(before, space.Abs(), space.root, file, code, stack, r);
    } else if r == Rejected {
      KeptIsTranslated(before, space.Abs(), space.root, code);
    }
  }

  /** Every byte of the code is in its frame, and the last frame holds some of it. */
  ghost predicate HoldsBytes(mem: Memory, code: seq<nat>, bytes: seq<byte>) {
    && (forall j: nat | j < |bytes| ::
          j / 4096 < |code| && code[j / 4096] in mem && mem[code[j / 4096]][j % 4096] == bytes[j])
    && (|code| - 1) * 4096 < |bytes|
  }

  lemma PagesHoldBytes(mem: Memory, code: seq<nat>, bytes: seq<byte>)
    requires HoldsCode(mem, code, bytes, |code|) && |code| == (|bytes| + 4095) / 4096 && bytes != []
    ensures HoldsBytes(mem, code, bytes)
  {
    forall j: nat | j < |bytes|
      ensures j / 4096 < |code| && code[j / 4096] in mem && mem[code[j / 4096]][j % 4096] == bytes[j]
    {
      var i := j / 4096;
      assert j == PAGE_SIZE * i + j % 4096;
      assert HoldsPage(mem[code[i]], bytes, i);
    }
  }

  /**
   The whole of a successful load, as the file's bytes and the hardware have it: every code
   byte in its frame; code and a stack of four pages in place and open to user code; every
   other address as before; the first instruction and the top of the stack.
   */
  ghost predicate Runnable(mem0: Memory, sp: Space, root: nat, file: seq<byte>, code: seq<nat>, stack: seq<nat>,
                           r: KefResult) {
    && WellFormed(file) && InPlace(mem0, sp, root, code, stack, CodeOf(file))
    && HoldsBytes(sp.mem, code, CodeOf(file)) && code != [] && |stack| == 4
    && UserReachable(sp.mem, root, code + stack) && OthersTranslate(mem0, sp.mem, root, code + stack)
    && r == Loaded(code[0] + WordAt(file, 4), stack[3] + 4096)
  }

  lemma InPlaceIsRunnable(sp0: Space, sp: Space, root: nat, file: seq<byte>, code: seq<nat>, stack: seq<nat>,
                          r: KefResult)
    requires SpaceOk(sp0, root) && SpaceOk(sp, root) && WellFormed(file)
    requires InPlace(sp0.mem, sp, root, code, stack, CodeOf(file)) && |code| == CodePages(file) && |stack| == 4
    requires code != [] && r == Loaded(code[0] + DecodeHeader(file).entryOffset, stack[0] + STACK_PAGES * PAGE_SIZE)
    ensures Runnable(sp0.mem, sp, root, file, code, stack, r)
  {
    hide InPlace, SpaceOk, DecodeHeader, CodeOf, WordAt, UserReachable, OthersTranslate, HoldsBytes;
    HeaderBytes(file);
    CodeLength(file);
    InPlaceForUser(sp0, sp, root, code, stack, CodeOf(file));
  }

  lemma CodeLength(file: seq<byte>)
    requires WellFormed(file)
    ensures |CodeOf(file)| == DecodeHeader(file).codeSize > 0
    ensures var lo, size := WordAt(file, 8), WordAt(file, 12);
            lo + size <= |file| && CodeOf(file) == file[lo..lo + size]
  {
    HeaderBytes(file);
    hide Decode32, WordAt;
  }

  lemma InPlaceForUser(sp0: Space, sp: Space, root: nat, code: seq<nat>, stack: seq<nat>, bytes: seq<byte>)
    requires SpaceOk(sp0, root) && SpaceOk(sp, root) && InPlace(sp0.mem, sp, root, code, stack, bytes)
    requires bytes != [] && |code| == (|bytes| + 4095) / 4096 && |stack| == 4
    ensures HoldsBytes(sp.mem, code, bytes) && stack[3] == stack[0] + 3 * 4096
    ensures UserReachable(sp.mem, root, code + stack) && OthersTranslate(sp0.mem, sp.mem, root, code + stack)
  {
    hide SpaceOk, HoldsCode, OthersKept, UserMapped, OthersTranslate, HoldsBytes, Owned, Apart, Translate;
    PagesHoldBytes(sp.mem, code, bytes);
    MappedIsReachable(sp, root, code);
    MappedIsReachable(sp, root, stack);
    KeptIsTranslated(sp0, sp, root, code + stack);
  }

  /** At most pages of the first free frames have changed their translation. */
  ghost predicate OnlyCodeMapped(sp0: Space, sp: Space, root: nat, code: seq<nat>) {
    |code| <= |sp0.rest| && code == sp0.rest[..|code|] && OthersKept(sp0.mem, sp.mem, root, code)
  }

  lemma CodeMappedSoFar(sp0: Space, sp: Space, root: nat, code: seq<nat>)
    requires |code| <= |sp0.rest| && code == sp0.rest[..|code|] && OthersKept(sp0.mem, sp.mem, root, code)
    ensures OnlyCodeMapped(sp0, sp, root, code)
  {
  }

  /** What comes of loading `n` pages of code and the stack. */
  ghost predicate SegmentsDone(sp0: Space, sp: Space, root: nat, n: nat, file: seq<byte>, lo: nat, size: nat,
                               r: KefResult, codeStart: nat, stackStart: nat, code: seq<nat>, stack: seq<nat>) {
    && (r.Loaded? <==> lo + size <= |file| && Suffices(sp0.mem, root, sp0.rest, n))
    && (r == Rejected <==> Refuses(sp0.mem, root, sp0.rest, n, lo + size > |file|))
    && (r.Loaded? ==>
          && SpaceOk(sp, root) && InPlace(sp0.mem, sp, root, code, stack, file[lo..lo + size])
          && |code| == n > 0 && |stack| == STACK_PAGES && codeStart == code[0] && stackStart == stack[0])
    && (r == Rejected ==> SpaceOk(sp, root) && OnlyCodeMapped(sp0, sp, root, code))
  }

  lemma CodeFailed(sp0: Space, sp: Space, root: nat, n: nat, file: seq<byte>, lo: nat, size: nat, r: KefResult,
                   code: seq<nat>, stack: seq<nat>)
    requires !r.Loaded? && !(lo + size <= |file| && CodeFits(sp0.mem, root, sp0.rest, n))
    requires r == Rejected <==> RunsShort(sp0.rest, n) || (lo + size > |file| && CodeFits(sp0.mem, root, sp0.rest, n))
    requires r == Rejected ==> SpaceOk(sp, root) && OnlyCodeMapped(sp0, sp, root, code)
    ensures SegmentsDone(sp0, sp, root, n, file, lo, size, r, 0, 0, code, stack)
  {
    hide SpaceOk, InPlace, Suffices, CodeFits, Refuses, RunsShort, OnlyCodeMapped;
    SufficesFits(sp0.mem, root, sp0.rest, n);
    RefusesInTurn(sp0.mem, root, sp0.rest, n, lo + size > |file|);
  }

  lemma StackTried(sp0: Space, sp1: Space, sp: Space, root: nat, n: nat, file: seq<byte>, lo: nat, size: nat,
                   r: KefResult, codeStart: nat, stackStart: nat, code: seq<nat>, stack: seq<nat>)
    requires LowFrames(sp0) && lo + size <= |file| && CodeFits(sp0.mem, root, sp0.rest, n)
    requires |code| == n > 0 && codeStart == code[0] && code == sp0.rest[..n]
    requires GrownBy(sp0.mem, sp1.mem, root, Pages(code)) && sp1.rest == Behind(sp0.mem, root, sp0.rest, n)
    requires r.Loaded? <==> CodeFits(sp1.mem, root, sp1.rest, STACK_PAGES)
    requires r == Rejected <==> RunsShort(sp1.rest, STACK_PAGES)
    requires r.Loaded? ==>
               && SpaceOk(sp, root) && |stack| == STACK_PAGES && stackStart == stack[0]
               && InPlace(sp0.mem, sp, root, code, stack, file[lo..lo + size])
    requires r == Rejected ==> SpaceOk(sp, root) && OthersKept(sp0.mem, sp.mem, root, code)
    ensures SegmentsDone(sp0, sp, root, n, file, lo, size, r, codeStart, stackStart, code, stack)
  {
    hide SpaceOk, InPlace, Suffices, CodeFits, Refuses, RunsShort, OthersKept, GrownBy, NewTables, Pages;
    LowRest(sp0);
    SufficesInTurn(sp0.mem, sp1.mem, root, sp0.rest, n);
    RefusesInTurn(sp0.mem, root, sp0.rest, n, false);
  }

  /** The code, and behind it the stack. */
  method LoadSegments(space: AddressSpace, n: nat, file: seq<byte>, lo: nat, size: nat)
    returns (r: KefResult, codeStart: nat, stackStart: nat, ghost code: seq<nat>, ghost stack: seq<nat>)
    requires space.Valid() && LowFrames(space.Abs()) && n > 0
    modifies space, space.alloc
    ensures SegmentsDone(old(space.Abs()), space.Abs(), space.root, n, file, lo, size,
                         r, codeStart, stackStart, code, stack)
  {
    hide SpaceOk, CodeReady, InPlace, LowFrames, OthersKept, NewTables, GrownBy, Pages, Suffices, CodeFits, RestOf;
    hide Supply, RunsShort, OnlyCodeMapped, SegmentsDone;
    ghost var sp0 := space.Abs();
    ghost var used;
    stack, stackStart := [], 0;
    r, codeStart, code, used := LoadCode(space, n, file, lo, size);
    if !r.Loaded? {
      codeStart := 0;
      CodeFailed(sp0, space.Abs(), space.root, n, file, lo, size, r, code, stack);
      return;
    }
    ghost var sp1 := space.Abs();
    r, stackStart, stack := LoadStack(space, sp0, code, file[lo..lo + size]);
    StackTried(sp0, sp1, space.Abs(), space.root, n, file, lo, size, r, codeStart, stackStart, code, stack);
  }

  lemma StackFramesAreOurs(sp: Space, root: nat, code: seq<nat>)
    requires SpaceOk(sp, root) && LowFrames(sp) && STACK_PAGES <= |sp.rest| && Owned(sp, code)
    ensures var stack := sp.rest[..STACK_PAGES];
            && SpaceOk(Drop(sp, STACK_PAGES), root) && Owned(Drop(sp, STACK_PAGES), stack) && Low(stack)
            && Owned(Drop(sp, STACK_PAGES), code) && Apart(code, stack)
  {
    DropOwns(sp, root, STACK_PAGES);
    LowPrefix(sp, root, STACK_PAGES);
    DropKeepsOwned(sp, STACK_PAGES, code);
  }
}
