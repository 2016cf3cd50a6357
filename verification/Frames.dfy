/** The physical frame allocator, which hands out frames straight from the firmware's memory map. */
module Frames {
  import opened Bytes

  const PAGE_SIZE := 4096
  const CONVENTIONAL: u32 := 7

  datatype Descriptor = Descriptor(kind: u32, start: nat, pages: nat)

  function PageOfDescriptor(d: Descriptor, k: nat): nat {
    d.start + k * PAGE_SIZE
  }

  /** The frames a descriptor still yields from page `offset` on; meeting address 0 abandons the descriptor. */
  function RestOf(d: Descriptor, offset: nat): (s: seq<nat>) {
    if d.kind == CONVENTIONAL && offset < d.pages && PageOfDescriptor(d, offset) > 0
    then seq<nat>(d.pages - offset, k requires 0 <= k < d.pages - offset => PageOfDescriptor(d, offset + k))
    else []
  }

  /** Every frame the allocator will ever hand out, in order. */
  function Supply(regions: seq<Descriptor>): seq<nat> {
    if regions == [] then [] else RestOf(regions[0], 0) + Supply(regions[1..])
  }

  class FrameAllocator {
    const memoryMap: seq<Descriptor>
    var index: nat
    var offset: nat

    constructor (memoryMap: seq<Descriptor>)
      ensures this.memoryMap == memoryMap && Remaining() == Supply(memoryMap)
    {
      this.memoryMap, index, offset := memoryMap, 0, 0;
      new;
      assert memoryMap[0..] == memoryMap;
    }

    /** What is still to come. */
    ghost function Remaining(): seq<nat>
      reads this
    {
      if index < |memoryMap| then RestOf(memoryMap[index], offset) + Supply(memoryMap[index + 1..]) else []
    }

    /** Frames come in the order of the supply, each once, until there are none. */
    method AllocateFrame() returns (r: Option<nat>)
      modifies this
      ensures old(Remaining()) == [] ==> r == None && Remaining() == []
      ensures old(Remaining()) != [] ==> r == Some(old(Remaining())[0]) && Remaining() == old(Remaining())[1..]
    {
      hide Supply, RestOf;
      while index < |memoryMap|
        invariant Remaining() == old(Remaining())
        decreases |memoryMap| - index
      {
        var d := memoryMap[index];
        RestOfSteps(d, offset);
        SupplySteps(memoryMap, index);
        if d.kind == CONVENTIONAL {
          if offset < d.pages {
            var frame := d.start + offset * PAGE_SIZE;
            offset := offset + 1;
            if frame > 0 {
              return Some(frame);
            }
          }
        }
        index := index + 1;
        offset := 0;
      }
      return None;
    }
  }

  lemma RestOfSteps(d: Descriptor, offset: nat)
    ensures RestOf(d, offset) ==
            if d.kind == CONVENTIONAL && offset < d.pages && d.start + offset * PAGE_SIZE > 0
            then [d.start + offset * PAGE_SIZE] + RestOf(d, offset + 1) else []
  {
  }

  lemma SupplySteps(regions: seq<Descriptor>, i: nat)
    requires i < |regions|
    ensures [] + Supply(regions[i + 1..]) == Supply(regions[i + 1..])
    ensures Supply(regions[i + 1..]) ==
            if i + 1 < |regions| then RestOf(regions[i + 1], 0) + Supply(regions[i + 2..]) else []
  {
    if i + 1 < |regions| {
      assert regions[i + 1..][1..] == regions[i + 2..];
    }
  }

  // ---------------------------------------------------------------- which frames those are

  ghost predicate InDescriptor(d: Descriptor, f: nat) {
    exists k: nat | k < d.pages :: PageOfDescriptor(d, k) == f
  }

  /** Page-aligned descriptors whose conventional ones do not overlap. */
  ghost predicate MapOk(regions: seq<Descriptor>) {
    && (forall i | 0 <= i < |regions| :: regions[i].start % PAGE_SIZE == 0)
    && (forall i, j | 0 <= i < j < |regions| && regions[i].kind == CONVENTIONAL && regions[j].kind == CONVENTIONAL ::
          Disjoint(regions[i], regions[j]))
  }

  ghost predicate Disjoint(d: Descriptor, e: Descriptor) {
    d.start + d.pages * PAGE_SIZE <= e.start || e.start + e.pages * PAGE_SIZE <= d.start
  }

  ghost predicate Yields(d: Descriptor, f: nat) {
    d.kind == CONVENTIONAL && d.start != 0 && InDescriptor(d, f)
  }

  lemma RestOfMembers(d: Descriptor, f: nat)
    ensures f in RestOf(d, 0) <==> Yields(d, f)
  {
    if Yields(d, f) {
      var k: nat :| k < d.pages && PageOfDescriptor(d, k) == f;
      assert RestOf(d, 0)[k] == f;
    }
    if f in RestOf(d, 0) {
      var k :| 0 <= k < |RestOf(d, 0)| && RestOf(d, 0)[k] == f;
      assert PageOfDescriptor(d, k) == f;
    }
  }

  /**
   A frame is handed out exactly when it lies in a conventional descriptor that does
   not start at address 0: of a descriptor that does, every frame is lost, not just
   frame 0.
   */
  lemma {:induction false} SupplyMembers(regions: seq<Descriptor>, f: nat)
    ensures f in Supply(regions) <==> exists i | 0 <= i < |regions| :: Yields(regions[i], f)
  {
    hide Yields, RestOf;
    if regions != [] {
      RestOfMembers(regions[0], f);
      SupplyMembers(regions[1..], f);
      assert forall j | 0 <= j < |regions| - 1 :: regions[1..][j] == regions[j + 1];
      if f in Supply(regions[1..]) {
        var j :| 0 <= j < |regions| - 1 && Yields(regions[1..][j], f);
        assert Yields(regions[j + 1], f);
      }
      if i :| 1 <= i < |regions| && Yields(regions[i], f) {
        assert Yields(regions[1..][i - 1], f);
      }
    }
  }

  /** Two good pages, of which the second is lost with the first. */
  lemma DescriptorAtZeroIsLost()
    ensures var d := Descriptor(CONVENTIONAL, 0, 2);
            MapOk([d]) && InDescriptor(d, PAGE_SIZE) && Supply([d]) == []
  {
    var d := Descriptor(CONVENTIONAL, 0, 2);
    assert PageOfDescriptor(d, 1) == PAGE_SIZE;
    assert [d][1..] == [];
  }

  lemma DisjointMembers(d: Descriptor, e: Descriptor, f: nat)
    requires Disjoint(d, e)
    ensures !(InDescriptor(d, f) && InDescriptor(e, f))
  {
  }

  lemma RestOfFacts(d: Descriptor)
    requires d.start % PAGE_SIZE == 0
    ensures Distinct(RestOf(d, 0))
    ensures forall k | 0 <= k < |RestOf(d, 0)| :: RestOf(d, 0)[k] > 0 && RestOf(d, 0)[k] % PAGE_SIZE == 0
  {
    var s := RestOf(d, 0);
    forall k | 0 <= k < |s|
      ensures s[k] == d.start + PAGE_SIZE * k
    {
    }
  }

  /** No frame is handed out twice, none is 0, and all are page-aligned. */
  lemma {:induction false} SupplyIsFresh(regions: seq<Descriptor>)
    requires MapOk(regions)
    ensures Distinct(Supply(regions))
    ensures forall k | 0 <= k < |Supply(regions)| :: Supply(regions)[k] > 0 && Supply(regions)[k] % PAGE_SIZE == 0
  {
    if regions != [] {
      var head, tail := RestOf(regions[0], 0), Supply(regions[1..]);
      RestOfFacts(regions[0]);
      assert MapOk(regions[1..]);
      SupplyIsFresh(regions[1..]);
      forall a, b | 0 <= a < |head| && 0 <= b < |tail|
        ensures head[a] != tail[b]
      {
        HeadNotInTail(regions, head[a]);
        assert tail[b] in tail;
        assert head[a] in head;
      }
    }
  }

  lemma HeadNotInTail(regions: seq<Descriptor>, f: nat)
    requires regions != [] && MapOk(regions) && f in RestOf(regions[0], 0)
    ensures f !in Supply(regions[1..])
  {
    RestOfMembers(regions[0], f);
    SupplyMembers(regions[1..], f);
    forall j | 0 <= j < |regions| - 1 && regions[1..][j].kind == CONVENTIONAL
      ensures !InDescriptor(regions[1..][j], f)
    {
      assert regions[1..][j] == regions[j + 1];
      DisjointMembers(regions[0], regions[j + 1], f);
    }
  }
}
