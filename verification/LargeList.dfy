/**
 The boundary-tag list, as a list of blocks that tile a region: first fit with
 splitting, and freeing with coalescing on both sides.
 */
module LargeList {
  import opened Bytes

  const HEADER := 32

  datatype Block = Block(size: nat, free: bool)

  /** Where block `i` of a list that starts at `start` has its header. */
  function Addr(start: nat, bs: seq<Block>, i: nat): nat
    requires i <= |bs|
  {
    if i == 0 then start else Addr(start, bs, i - 1) + HEADER + bs[i - 1].size
  }

  /** Bytes covered by headers and payloads together. */
  function Total(bs: seq<Block>): nat {
    if bs == [] then 0 else Total(bs[..|bs| - 1]) + HEADER + bs[|bs| - 1].size
  }

  ghost predicate NoFreeNeighbours(bs: seq<Block>) {
    forall i | 0 <= i < |bs| - 1 :: !(bs[i].free && bs[i + 1].free)
  }

  /** All sizes but the last: then every header is aligned if the first one is. */
  ghost predicate SizesAligned(bs: seq<Block>) {
    forall i | 0 <= i < |bs| - 1 :: bs[i].size % 8 == 0
  }

  // ---------------------------------------------------------------- addresses

  lemma AddrStep(start: nat, bs: seq<Block>, i: nat)
    requires i < |bs|
    ensures Addr(start, bs, i + 1) == Addr(start, bs, i) + HEADER + bs[i].size
  {
  }

  lemma {:induction false} AddrAgrees(start: nat, bs: seq<Block>, cs: seq<Block>, i: nat)
    requires i <= |bs| && i <= |cs| && forall k | 0 <= k < i :: bs[k].size == cs[k].size
    ensures Addr(start, bs, i) == Addr(start, cs, i)
  {
    if i > 0 {
      AddrAgrees(start, bs, cs, i - 1);
    }
  }

  lemma {:induction false} AddrOrder(start: nat, bs: seq<Block>, i: nat, j: nat)
    requires i < j <= |bs|
    ensures Addr(start, bs, i) + HEADER + bs[i].size <= Addr(start, bs, j)
    ensures start <= Addr(start, bs, i)
    decreases j
  {
    if i < j - 1 {
      AddrOrder(start, bs, i, j - 1);
    } else if i > 0 {
      AddrOrder(start, bs, i - 1, i);
    }
  }

  /** The blocks tile their region: the list ends where the region does. */
  lemma {:induction false} AddrOfEnd(start: nat, bs: seq<Block>)
    ensures Addr(start, bs, |bs|) == start + Total(bs)
    decreases |bs|
  {
    if bs != [] {
      AddrOfEnd(start, bs[..|bs| - 1]);
      AddrAgrees(start, bs, bs[..|bs| - 1], |bs| - 1);
    }
  }

  lemma DropLast(bs: seq<Block>, i: nat, n: nat)
    requires 0 < n && i + n <= |bs|
    ensures bs[i..i + n][..n - 1] == bs[i..i + n - 1] && bs[i..i + n][n - 1] == bs[i + n - 1]
  {
  }

  /** Equal stretches that begin at the same address end at the same address. */
  lemma {:induction false} AddrShift(start: nat, bs: seq<Block>, cs: seq<Block>, i: nat, j: nat, n: nat)
    requires i + n <= |bs| && j + n <= |cs| && Addr(start, bs, i) == Addr(start, cs, j)
    requires bs[i..i + n] == cs[j..j + n]
    ensures Addr(start, bs, i + n) == Addr(start, cs, j + n)
    decreases n
  {
    if n > 0 {
      DropLast(bs, i, n);
      DropLast(cs, j, n);
      AddrShift(start, bs, cs, i, j, n - 1);
    }
  }

  // ---------------------------------------------------------------- allocating

  function RoundUp8(n: nat): (r: nat)
    ensures r % 8 == 0 && n <= r < n + 8
  {
    (n + 7) / 8 * 8
  }

  function FirstFit(bs: seq<Block>, n: nat, from: nat): (r: Option<nat>)
    requires from <= |bs|
    ensures r.Some? ==> from <= r.value < |bs| && bs[r.value].free && bs[r.value].size >= n
    ensures forall k | from <= k < (if r.Some? then r.value else |bs|) :: !(bs[k].free && bs[k].size >= n)
    decreases |bs| - from
  {
    if from == |bs| then None
    else if bs[from].free && bs[from].size >= n then Some(from)
    else FirstFit(bs, n, from + 1)
  }

  predicate Splits(b: Block, n: nat) {
    b.size >= n + HEADER + 16
  }

  /** Use block `i` for `n` bytes, giving back the rest when it can stand as a block of its own. */
  function Take(bs: seq<Block>, i: nat, n: nat): seq<Block>
    requires i < |bs| && bs[i].size >= n
  {
    if Splits(bs[i], n)
    then bs[..i] + [Block(n, false), Block(bs[i].size - n - HEADER, true)] + bs[i + 1..]
    else bs[i := Block(bs[i].size, false)]
  }

  // ---------------------------------------------------------------- freeing

  /** Replace blocks `i` and `i + 1` by one free block that covers both. */
  function Merge(bs: seq<Block>, i: nat): seq<Block>
    requires i + 1 < |bs|
  {
    bs[..i] + [Block(bs[i].size + bs[i + 1].size + HEADER, true)] + bs[i + 2..]
  }

  function MergeNext(bs: seq<Block>, i: nat): (cs: seq<Block>)
    requires i < |bs|
    ensures i < |cs| && (bs[i].free ==> cs[i].free) && cs[..i] == bs[..i]
  {
    if i + 1 < |bs| && bs[i + 1].free then Merge(bs, i) else bs
  }

  function Release(bs: seq<Block>, i: nat): seq<Block>
    requires i < |bs|
  {
    var cs := MergeNext(bs[i := bs[i].(free := true)], i);
    if i > 0 && cs[i - 1].free then Merge(cs, i - 1) else cs
  }

  // ---------------------------------------------------------------- what they keep

  lemma TakeAt(bs: seq<Block>, i: nat, n: nat)
    requires i < |bs| && bs[i].size >= n && Splits(bs[i], n)
    ensures |Take(bs, i, n)| == |bs| + 1
    ensures Take(bs, i, n)[..i] == bs[..i] && Take(bs, i, n)[i + 2..] == bs[i + 1..]
    ensures Take(bs, i, n)[i] == Block(n, false) && Take(bs, i, n)[i + 1] == Block(bs[i].size - n - HEADER, true)
    ensures forall k | 0 <= k < |Take(bs, i, n)| && k != i && k != i + 1 ::
              Take(bs, i, n)[k] == (if k < i then bs[k] else bs[k - 1])
  {
  }

  /** A block taken exceeds what was asked for by less than a header and 16 bytes; more is given back. */
  lemma TakeIsTight(bs: seq<Block>, i: nat, n: nat)
    requires i < |bs| && bs[i].size >= n
    ensures i < |Take(bs, i, n)| && n <= Take(bs, i, n)[i].size < n + 48
    ensures bs[i].size >= n + 48 ==>
              && i + 1 < |Take(bs, i, n)| && Take(bs, i, n)[i].size == n
              && Take(bs, i, n)[i + 1] == Block(bs[i].size - n - 32, true)
  {
  }

  lemma TakeKeepsOrder(bs: seq<Block>, i: nat, n: nat)
    requires i < |bs| && bs[i].free && bs[i].size >= n && n % 8 == 0 && SizesAligned(bs) && NoFreeNeighbours(bs)
    ensures NoFreeNeighbours(Take(bs, i, n)) && SizesAligned(Take(bs, i, n))
  {
    if Splits(bs[i], n) {
      TakeAt(bs, i, n);
    }
  }

  lemma MergeAt(bs: seq<Block>, i: nat)
    requires i + 1 < |bs|
    ensures |Merge(bs, i)| == |bs| - 1
    ensures Merge(bs, i)[..i] == bs[..i] && Merge(bs, i)[i + 1..] == bs[i + 2..]
    ensures forall k | 0 <= k < |bs| - 1 && k != i :: Merge(bs, i)[k] == (if k < i then bs[k] else bs[k + 1])
    ensures Merge(bs, i)[i] == Block(bs[i].size + bs[i + 1].size + HEADER, true)
  {
  }

  /** Only block `i` may have a free neighbour. */
  ghost predicate FreeNeighboursOnlyAt(bs: seq<Block>, i: nat) {
    forall k | 0 <= k < |bs| - 1 :: k != i && k + 1 != i ==> !(bs[k].free && bs[k + 1].free)
  }

  lemma MergeNextFacts(bs: seq<Block>, i: nat)
    requires i < |bs| && bs[i].free && SizesAligned(bs) && FreeNeighboursOnlyAt(bs, i)
    requires i + 2 < |bs| ==> !(bs[i + 1].free && bs[i + 2].free)
    ensures var cs := MergeNext(bs, i);
            && SizesAligned(cs) && cs[i].free && FreeNeighboursOnlyAt(cs, i)
            && (i + 1 < |cs| ==> !cs[i + 1].free)
  {
    if i + 1 < |bs| && bs[i + 1].free {
      MergeAt(bs, i);
    }
  }

  lemma MergePrevFacts(cs: seq<Block>, i: nat)
    requires 0 < i < |cs| && cs[i].free && cs[i - 1].free && SizesAligned(cs) && FreeNeighboursOnlyAt(cs, i)
    requires (i + 1 < |cs| ==> !cs[i + 1].free) && (i > 1 ==> !cs[i - 2].free)
    ensures NoFreeNeighbours(Merge(cs, i - 1)) && SizesAligned(Merge(cs, i - 1))
  {
    MergeAt(cs, i - 1);
    hide Merge;
  }

  lemma NoPrevFacts(cs: seq<Block>, i: nat)
    requires i < |cs| && (i > 0 ==> !cs[i - 1].free) && FreeNeighboursOnlyAt(cs, i)
    requires i + 1 < |cs| ==> !cs[i + 1].free
    ensures NoFreeNeighbours(cs)
  {
  }

  lemma ReleaseKeepsOrder(bs: seq<Block>, i: nat)
    requires i < |bs| && !bs[i].free && SizesAligned(bs) && NoFreeNeighbours(bs)
    ensures NoFreeNeighbours(Release(bs, i)) && SizesAligned(Release(bs, i))
  {
    var freed := bs[i := bs[i].(free := true)];
    assert SizesAligned(freed) && FreeNeighboursOnlyAt(freed, i);
    assert i > 1 ==> !(bs[i - 2].free && bs[i - 1].free);
    hide MergeNext, Merge, FreeNeighboursOnlyAt, NoFreeNeighbours, SizesAligned;
    MergeNextFacts(freed, i);
    var cs := MergeNext(freed, i);
    assert i > 0 ==> cs[..i][i - 1] == bs[i - 1];
    assert i > 1 ==> cs[..i][i - 2] == bs[i - 2];
    if i > 0 && cs[i - 1].free {
      MergePrevFacts(cs, i);
    } else {
      NoPrevFacts(cs, i);
    }
  }

  /** Freeing what was just allocated gives back exactly the list there was. */
  lemma ReleaseUndoesTake(bs: seq<Block>, i: nat, n: nat)
    requires i < |bs| && bs[i].free && bs[i].size >= n && NoFreeNeighbours(bs)
    ensures Release(Take(bs, i, n), i) == bs
  {
    var cs := Take(bs, i, n);
    if Splits(bs[i], n) {
      assert cs[..i] == bs[..i] && cs[i + 2..] == bs[i + 1..];
    }
    assert i > 0 ==> cs[i - 1] == bs[i - 1] && !bs[i - 1].free;
    assert i + 1 < |bs| ==> !bs[i + 1].free;
    assert bs == bs[..i] + [bs[i]] + bs[i + 1..];
  }

  // ---------------------------------------------------------------- blocks in use

  ghost predicate UsedAt(start: nat, bs: seq<Block>, i: nat, a: nat, size: nat) {
    i < |bs| && !bs[i].free && Addr(start, bs, i) == a && bs[i].size == size
  }

  /** Some block in use has its header at `a` and `size` bytes of payload. */
  ghost predicate IsUsed(start: nat, bs: seq<Block>, a: nat, size: nat) {
    exists i: nat :: UsedAt(start, bs, i, a, size)
  }

  lemma AddrInjective(start: nat, bs: seq<Block>, i: nat, j: nat)
    requires i < |bs| && j < |bs| && Addr(start, bs, i) == Addr(start, bs, j)
    ensures i == j
  {
    if i < j {
      AddrOrder(start, bs, i, j);
    } else if j < i {
      AddrOrder(start, bs, j, i);
    }
  }

  /** Blocks in use lie inside the region and do not overlap. */
  lemma UsedApart(start: nat, bs: seq<Block>, a: nat, m: nat, b: nat, n: nat)
    requires IsUsed(start, bs, a, m) && IsUsed(start, bs, b, n)
    ensures start <= a && a + HEADER + m <= start + Total(bs)
    ensures (a == b && m == n) || a + HEADER + m <= b || b + HEADER + n <= a
  {
    var i: nat :| UsedAt(start, bs, i, a, m);
    var j: nat :| UsedAt(start, bs, j, b, n);
    AddrOrder(start, bs, i, |bs|);
    AddrOfEnd(start, bs);
    if i < j {
      AddrOrder(start, bs, i, j);
    } else if j < i {
      AddrOrder(start, bs, j, i);
    }
  }

  lemma TakeAddr(start: nat, bs: seq<Block>, i: nat, n: nat, k: nat)
    requires i < |bs| && bs[i].size >= n && Splits(bs[i], n) && k <= |Take(bs, i, n)|
    ensures Addr(start, Take(bs, i, n), k) ==
            if k <= i then Addr(start, bs, k)
            else if k == i + 1 then Addr(start, bs, i) + HEADER + n
            else Addr(start, bs, k - 1)
  {
    hide Addr;
    TakeAt(bs, i, n);
    var cs := Take(bs, i, n);
    hide Take;
    assert forall m | 0 <= m < i :: cs[m] == bs[m];
    AddrAgrees(start, bs, cs, if k <= i then k else i);
    AddrStep(start, cs, i);
    if k > i + 1 {
      AddrStep(start, bs, i);
      AddrStep(start, cs, i + 1);
      assert bs[i + 1..i + 1 + (k - i - 2)] == bs[i + 1..][..k - i - 2] == cs[i + 2..][..k - i - 2] == cs[i + 2..k];
      AddrShift(start, bs, cs, i + 1, i + 2, k - i - 2);
    }
  }

  lemma MergeAddr(start: nat, bs: seq<Block>, i: nat, k: nat)
    requires i + 1 < |bs| && k <= |bs| - 1
    ensures Addr(start, Merge(bs, i), k) == if k <= i then Addr(start, bs, k) else Addr(start, bs, k + 1)
  {
    hide Addr;
    MergeAt(bs, i);
    var cs := Merge(bs, i);
    hide Merge;
    assert forall m | 0 <= m < i :: cs[m] == bs[m];
    AddrAgrees(start, bs, cs, if k <= i then k else i);
    if k > i {
      AddrStep(start, bs, i);
      AddrStep(start, bs, i + 1);
      AddrStep(start, cs, i);
      assert bs[i + 2..k + 1] == bs[i + 2..][..k - i - 1] == cs[i + 1..][..k - i - 1] == cs[i + 1..k];
      AddrShift(start, bs, cs, i + 2, i + 1, k - i - 1);
    }
  }

  lemma SetFreeAddr(start: nat, bs: seq<Block>, i: nat, free: bool, k: nat)
    requires i < |bs| && k <= |bs|
    ensures Addr(start, bs[i := bs[i].(free := free)], k) == Addr(start, bs, k)
  {
    AddrAgrees(start, bs, bs[i := bs[i].(free := free)], k);
  }

  /** Allocating puts one more block in use, and every other one stays where and as it was. */
  lemma TakeUsed(start: nat, bs: seq<Block>, i: nat, n: nat, a: nat, size: nat)
    requires i < |bs| && bs[i].free && bs[i].size >= n
    ensures var cs := Take(bs, i, n);
            IsUsed(start, cs, a, size) <==>
              IsUsed(start, bs, a, size) || (a == Addr(start, bs, i) && size == cs[i].size)
  {
    if Splits(bs[i], n) {
      SplitUsed(start, bs, i, n, a, size);
    } else {
      WholeUsed(start, bs, i, a, size);
    }
  }

  lemma SplitUsed(start: nat, bs: seq<Block>, i: nat, n: nat, a: nat, size: nat)
    requires i < |bs| && bs[i].free && bs[i].size >= n && Splits(bs[i], n)
    ensures IsUsed(start, Take(bs, i, n), a, size) <==>
            IsUsed(start, bs, a, size) || (a == Addr(start, bs, i) && size == n)
  {
    hide Addr;
    TakeAt(bs, i, n);
    var cs := Take(bs, i, n);
    hide Take;
    TakeAddr(start, bs, i, n, i);
    if j: nat :| UsedAt(start, bs, j, a, size) {
      TakeAddr(start, bs, i, n, if j < i then j else j + 1);
      assert UsedAt(start, cs, if j < i then j else j + 1, a, size);
    }
    if a == Addr(start, bs, i) && size == n {
      assert UsedAt(start, cs, i, a, size);
    }
    if j: nat :| UsedAt(start, cs, j, a, size) && j != i {
      TakeAddr(start, bs, i, n, j);
      assert UsedAt(start, bs, if j < i then j else j - 1, a, size);
    }
  }

  lemma WholeUsed(start: nat, bs: seq<Block>, i: nat, a: nat, size: nat)
    requires i < |bs| && bs[i].free
    ensures IsUsed(start, bs[i := bs[i].(free := false)], a, size) <==>
              IsUsed(start, bs, a, size) || (a == Addr(start, bs, i) && size == bs[i].size)
  {
    hide Addr;
    var cs := bs[i := bs[i].(free := false)];
    SetFreeAddr(start, bs, i, false, i);
    if j: nat :| UsedAt(start, bs, j, a, size) {
      SetFreeAddr(start, bs, i, false, j);
      assert UsedAt(start, cs, j, a, size);
    }
    if a == Addr(start, bs, i) && size == bs[i].size {
      assert UsedAt(start, cs, i, a, size);
    }
    if j: nat :| UsedAt(start, cs, j, a, size) && j != i {
      SetFreeAddr(start, bs, i, false, j);
      assert UsedAt(start, bs, j, a, size);
    }
  }

  lemma MergeUsed(start: nat, bs: seq<Block>, i: nat, a: nat, size: nat)
    requires i + 1 < |bs| && bs[i].free && bs[i + 1].free
    ensures IsUsed(start, Merge(bs, i), a, size) <==> IsUsed(start, bs, a, size)
  {
    hide Addr;
    MergeAt(bs, i);
    var cs := Merge(bs, i);
    hide Merge;
    if j: nat :| UsedAt(start, bs, j, a, size) {
      MergeAddr(start, bs, i, if j < i then j else j - 1);
      assert UsedAt(start, cs, if j < i then j else j - 1, a, size);
    }
    if j: nat :| UsedAt(start, cs, j, a, size) {
      MergeAddr(start, bs, i, j);
      assert UsedAt(start, bs, if j < i then j else j + 1, a, size);
    }
  }

  /** Freeing takes exactly that block out of use. */
  lemma ReleaseUsed(start: nat, bs: seq<Block>, i: nat, a: nat, size: nat)
    requires i < |bs| && !bs[i].free
    ensures IsUsed(start, Release(bs, i), a, size) <==> IsUsed(start, bs, a, size) && a != Addr(start, bs, i)
  {
    var freed := bs[i := bs[i].(free := true)];
    FreedUsed(start, bs, i, a, size);
    hide Merge;
    if i + 1 < |freed| && freed[i + 1].free {
      MergeUsed(start, freed, i, a, size);
    }
    var cs := MergeNext(freed, i);
    if i > 0 && cs[i - 1].free {
      MergeUsed(start, cs, i - 1, a, size);
    }
  }

  lemma FreedUsed(start: nat, bs: seq<Block>, i: nat, a: nat, size: nat)
    requires i < |bs| && !bs[i].free
    ensures IsUsed(start, bs[i := bs[i].(free := true)], a, size) <==>
              IsUsed(start, bs, a, size) && a != Addr(start, bs, i)
  {
    var cs := bs[i := bs[i].(free := true)];
    if j: nat :| UsedAt(start, bs, j, a, size) && a != Addr(start, bs, i) {
      SetFreeAddr(start, bs, i, true, j);
      assert UsedAt(start, cs, j, a, size);
    }
    if j: nat :| UsedAt(start, cs, j, a, size) {
      SetFreeAddr(start, bs, i, true, j);
      assert UsedAt(start, bs, j, a, size);
      if a == Addr(start, bs, i) {
        AddrInjective(start, bs, i, j);
      }
    }
  }

  /** Headers and payloads always add up to the region. */
  lemma TakeConserves(bs: seq<Block>, i: nat, n: nat)
    requires i < |bs| && bs[i].size >= n
    ensures Total(Take(bs, i, n)) == Total(bs)
  {
    hide Addr, Total;
    AddrOfEnd(0, bs);
    AddrOfEnd(0, Take(bs, i, n));
    if Splits(bs[i], n) {
      TakeAt(bs, i, n);
      TakeAddr(0, bs, i, n, |bs| + 1);
    } else {
      SetFreeAddr(0, bs, i, false, |bs|);
    }
  }

  lemma MergeConserves(bs: seq<Block>, i: nat)
    requires i + 1 < |bs|
    ensures Total(Merge(bs, i)) == Total(bs)
  {
    hide Addr, Total;
    AddrOfEnd(0, bs);
    AddrOfEnd(0, Merge(bs, i));
    MergeAt(bs, i);
    MergeAddr(0, bs, i, |bs| - 1);
  }

  lemma ReleaseConserves(bs: seq<Block>, i: nat)
    requires i < |bs|
    ensures Total(Release(bs, i)) == Total(bs)
  {
    hide Merge, Total, Addr;
    var freed := bs[i := bs[i].(free := true)];
    AddrOfEnd(0, bs);
    AddrOfEnd(0, freed);
    SetFreeAddr(0, bs, i, true, |bs|);
    if i + 1 < |freed| && freed[i + 1].free {
      MergeConserves(freed, i);
    }
    var cs := MergeNext(freed, i);
    if i > 0 && cs[i - 1].free {
      MergeConserves(cs, i - 1);
    }
  }
}
