/**
 How the large-block list lies in memory: each block's header holds its size, the
 addresses of its neighbours and whether it is free.  The pointer updates of the
 allocator are proved to be the list operations.
 */
module HeapMemory {
  import opened LargeList

  const NULL := 0

  /** Memory by word address; a word nobody has written reads as zero. */
  type Memory = map<nat, nat>

  function Load(m: Memory, a: nat): nat {
    if a in m then m[a] else 0
  }

  function NextOf(start: nat, bs: seq<Block>, i: nat): nat
    requires i < |bs|
  {
    if i + 1 < |bs| then Addr(start, bs, i + 1) else NULL
  }

  function PrevOf(start: nat, bs: seq<Block>, i: nat): nat
    requires i < |bs|
  {
    if i > 0 then Addr(start, bs, i - 1) else NULL
  }

  ghost predicate HeaderAt(m: Memory, a: nat, size: nat, next: nat, prev: nat, free: bool) {
    && Load(m, a) == size && Load(m, a + 8) == next && Load(m, a + 16) == prev
    && Load(m, a + 24) == (if free then 1 else 0)
  }

  ghost predicate LinkedAt(m: Memory, start: nat, bs: seq<Block>, i: nat)
    requires i < |bs|
  {
    HeaderAt(m, Addr(start, bs, i), bs[i].size, NextOf(start, bs, i), PrevOf(start, bs, i), bs[i].free)
  }

  /** The headers in memory are this list, forwards and backwards. */
  ghost predicate Linked(m: Memory, start: nat, bs: seq<Block>) {
    start > 0 && forall i: nat | i < |bs| :: LinkedAt(m, start, bs, i)
  }

  ghost predicate InHeader(start: nat, bs: seq<Block>, i: nat, x: nat) {
    i < |bs| && Addr(start, bs, i) <= x < Addr(start, bs, i) + HEADER
  }

  ghost predicate HeaderWord(start: nat, bs: seq<Block>, x: nat) {
    exists i: nat :: InHeader(start, bs, i, x)
  }

  /** Only headers of this list differ. */
  ghost predicate OnlyHeaders(m: Memory, m': Memory, start: nat, bs: seq<Block>) {
    forall x: nat | !HeaderWord(start, bs, x) :: Load(m', x) == Load(m, x)
  }

  /** Following a next pointer and then a prev pointer, or the other way round, leads back. */
  lemma NextPrevInverse(m: Memory, start: nat, bs: seq<Block>, i: nat)
    requires Linked(m, start, bs) && i < |bs|
    ensures var a := Addr(start, bs, i);
            && (Load(m, a + 8) != NULL <==> i + 1 < |bs|)
            && (Load(m, a + 8) != NULL ==> Load(m, Load(m, a + 8) + 16) == a)
            && (Load(m, a + 16) != NULL <==> i > 0) && (Load(m, a + 16) != NULL ==> Load(m, Load(m, a + 16) + 8) == a)
  {
    hide Addr;
    assert LinkedAt(m, start, bs, i);
    if i + 1 < |bs| {
      assert LinkedAt(m, start, bs, i + 1);
      AddrOrder(start, bs, i, i + 1);
    }
    if i > 0 {
      assert LinkedAt(m, start, bs, i - 1);
      AddrOrder(start, bs, i - 1, i);
    }
  }

  // ---------------------------------------------------------------- the pointer updates

  /** Cut `n` bytes off the block at `a` and link the rest in behind it. */
  function SplitWords(m: Memory, a: nat, n: nat): Memory
    requires Load(m, a) >= n + HEADER
  {
    var b := a + HEADER + n;
    var after := Load(m, a + 8);
    var m1 := m[b := Load(m, a) - n - HEADER][b + 8 := after][b + 16 := a][b + 24 := 1];
    var m2 := if after != NULL then m1[after + 16 := b] else m1;
    m2[a := n][a + 8 := b]
  }

  /** Let the block at `a` swallow the block at `b`. */
  function MergeWords(m: Memory, a: nat, b: nat): Memory {
    var m1 := m[a := Load(m, a) + Load(m, b) + HEADER];
    var after := Load(m1, b + 8);
    var m2 := m1[a + 8 := after];
    if after != NULL then m2[after + 16 := a] else m2
  }

  lemma SetFreeLinksAt(m: Memory, start: nat, bs: seq<Block>, i: nat, free: bool, k: nat)
    requires Linked(m, start, bs) && i < |bs| && k < |bs|
    ensures LinkedAt(m[Addr(start, bs, i) + 24 := if free then 1 else 0], start, bs[i := bs[i].(free := free)], k)
  {
    hide Addr, Linked;
    LinkedHere(m, start, bs, k);
    SetFreeAddr(start, bs, i, free, k);
    if k + 1 < |bs| {
      SetFreeAddr(start, bs, i, free, k + 1);
    }
    if k > 0 {
      SetFreeAddr(start, bs, i, free, k - 1);
    }
    if k != i {
      HeadersApart(start, bs, i, k);
    }
  }

  lemma SetFreeLinks(m: Memory, start: nat, bs: seq<Block>, i: nat, free: bool)
    requires Linked(m, start, bs) && i < |bs|
    ensures var m' := m[Addr(start, bs, i) + 24 := if free then 1 else 0];
            && Linked(m', start, bs[i := bs[i].(free := free)]) && OnlyHeaders(m, m', start, bs)
  {
    hide Addr, LinkedAt;
    var a, cs := Addr(start, bs, i), bs[i := bs[i].(free := free)];
    var m' := m[a + 24 := if free then 1 else 0];
    forall k: nat | k < |cs|
      ensures LinkedAt(m', start, cs, k)
    {
      SetFreeLinksAt(m, start, bs, i, free, k);
    }
    forall x: nat | !HeaderWord(start, bs, x)
      ensures Load(m', x) == Load(m, x)
    {
      assert !InHeader(start, bs, i, x);
    }
  }

  // ---------------------------------------------------------------- splitting

  /** The header of the `k`-th block of the list after the split, in terms of the list before. */
  lemma SplitNeighbours(start: nat, bs: seq<Block>, i: nat, n: nat, k: nat)
    requires i < |bs| && bs[i].size >= n && Splits(bs[i], n) && k < |Take(bs, i, n)|
    ensures var cs := Take(bs, i, n); var a, b := Addr(start, bs, i), Addr(start, bs, i) + HEADER + n;
            && |cs| == |bs| + 1
            && Addr(start, cs, k) ==
               (if k <= i then Addr(start, bs, k) else if k == i + 1 then b else Addr(start, bs, k - 1))
            && cs[k] == (if k < i then bs[k] else if k == i then Block(n, false)
                         else if k == i + 1 then Block(bs[i].size - n - HEADER, true) else bs[k - 1])
            && NextOf(start, cs, k) ==
               (if k < i then NextOf(start, bs, k) else if k == i then b else NextOf(start, bs, k - 1))
            && PrevOf(start, cs, k) == (if k <= i then PrevOf(start, bs, k) else if k == i + 1 then a
                                        else if k == i + 2 then b else PrevOf(start, bs, k - 1))
  {
    hide Addr, Take;
    TakeAt(bs, i, n);
    TakeAddr(start, bs, i, n, k);
    if k + 1 < |bs| + 1 {
      TakeAddr(start, bs, i, n, k + 1);
    }
    if k > 0 {
      TakeAddr(start, bs, i, n, k - 1);
    }
  }

  lemma NextIsSome(start: nat, bs: seq<Block>, i: nat)
    requires start > 0 && i < |bs|
    ensures NextOf(start, bs, i) != NULL <==> i + 1 < |bs|
    ensures i + 1 < |bs| ==> Addr(start, bs, i) + HEADER + bs[i].size == NextOf(start, bs, i)
  {
    hide Addr;
    if i + 1 < |bs| {
      AddrStep(start, bs, i);
    }
  }

  /** Headers of different blocks do not meet. */
  lemma HeadersApart(start: nat, bs: seq<Block>, i: nat, k: nat)
    requires i < |bs| && k < |bs| && i != k
    ensures var a, b := Addr(start, bs, i), Addr(start, bs, k);
            (i < k ==> a + HEADER + bs[i].size <= b) && (k < i ==> b + HEADER + bs[k].size <= a)
  {
    if i < k {
      AddrOrder(start, bs, i, k);
    } else {
      AddrOrder(start, bs, k, i);
    }
  }

  /** Two headers are the same one, or have no word in common. */
  predicate Apart(a: nat, b: nat) {
    a + HEADER <= b || b + HEADER <= a
  }

  lemma SplitWordsOther(m: Memory, a: nat, n: nat, c: nat, size: nat, next: nat, prev: nat, free: bool)
    requires Load(m, a) >= n + HEADER && HeaderAt(m, c, size, next, prev, free)
    requires Apart(a, c) && Apart(a + HEADER + n, c)
    requires Load(m, a + 8) != NULL && Load(m, a + 8) != c ==> Apart(Load(m, a + 8), c)
    ensures HeaderAt(SplitWords(m, a, n)[a + 24 := 0], c, size, next,
                     if Load(m, a + 8) == c && c != NULL then a + HEADER + n else prev, free)
  {
  }

  lemma SplitWordsHere(m: Memory, a: nat, n: nat, size: nat, next: nat, prev: nat, free: bool)
    requires size >= n + HEADER && HeaderAt(m, a, size, next, prev, free)
    requires next != NULL ==> next >= a + 2 * HEADER + n
    ensures HeaderAt(SplitWords(m, a, n)[a + 24 := 0], a, n, a + HEADER + n, prev, false)
    ensures HeaderAt(SplitWords(m, a, n)[a + 24 := 0], a + HEADER + n, size - n - HEADER, next, a, true)
  {
  }

  /** The list after the split, once the first part is marked used. */
  lemma SplitLinksAt(m: Memory, start: nat, bs: seq<Block>, i: nat, n: nat, k: nat)
    requires Linked(m, start, bs) && i < |bs| && bs[i].size >= n && Splits(bs[i], n) && k < |Take(bs, i, n)|
    requires Load(m, Addr(start, bs, i)) == bs[i].size
    ensures var a := Addr(start, bs, i); LinkedAt(SplitWords(m, a, n)[a + 24 := 0], start, Take(bs, i, n), k)
  {
    hide Addr, Take, NextOf, PrevOf, Linked, HeaderAt, SplitWords;
    SplitNeighbours(start, bs, i, n, k);
    LinkedHere(m, start, bs, i);
    NextIsSome(start, bs, i);
    var a, next, prev := Addr(start, bs, i), NextOf(start, bs, i), PrevOf(start, bs, i);
    NextLoaded(m, a, bs[i].size, next, prev, bs[i].free);
    if k == i || k == i + 1 {
      SplitWordsHere(m, a, n, bs[i].size, next, prev, bs[i].free);
    } else {
      var j := if k < i then k else k - 1;
      LinkedHere(m, start, bs, j);
      HeadersApart(start, bs, i, j);
      if i + 1 < |bs| {
        NextIsAddr(start, bs, i);
        if j != i + 1 {
          HeadersApart(start, bs, i + 1, j);
        }
      }
      SplitWordsOther(m, a, n, Addr(start, bs, j), bs[j].size, NextOf(start, bs, j), PrevOf(start, bs, j), bs[j].free);
    }
  }

  lemma NextLoaded(m: Memory, a: nat, size: nat, next: nat, prev: nat, free: bool)
    requires HeaderAt(m, a, size, next, prev, free)
    ensures Load(m, a) == size && Load(m, a + 8) == next && Load(m, a + 16) == prev && (Load(m, a + 24) == 1 <==> free)
  {
  }

  lemma LinkedHere(m: Memory, start: nat, bs: seq<Block>, k: nat)
    requires Linked(m, start, bs) && k < |bs|
    ensures start > 0 && LinkedAt(m, start, bs, k)
  {
  }

  lemma NextIsAddr(start: nat, bs: seq<Block>, i: nat)
    requires i + 1 < |bs|
    ensures NextOf(start, bs, i) == Addr(start, bs, i + 1)
  {
  }

  lemma SplitLinks(m: Memory, start: nat, bs: seq<Block>, i: nat, n: nat)
    requires Linked(m, start, bs) && i < |bs| && bs[i].size >= n && Splits(bs[i], n)
    ensures var a := Addr(start, bs, i);
            && Load(m, a) == bs[i].size
            && Linked(SplitWords(m, a, n)[a + 24 := 0], start, Take(bs, i, n))
            && OnlyHeaders(m, SplitWords(m, a, n)[a + 24 := 0], start, Take(bs, i, n))
  {
    assert LinkedAt(m, start, bs, i);
    hide Addr, Take, SplitWords, LinkedAt;
    var a := Addr(start, bs, i);
    var m' := SplitWords(m, a, n)[a + 24 := 0];
    forall k: nat | k < |Take(bs, i, n)|
      ensures LinkedAt(m', start, Take(bs, i, n), k)
    {
      SplitLinksAt(m, start, bs, i, n, k);
    }
    forall x: nat | !HeaderWord(start, Take(bs, i, n), x)
      ensures Load(m', x) == Load(m, x)
    {
      SplitTouches(m, start, bs, i, n, x);
    }
  }

  lemma SplitTouches(m: Memory, start: nat, bs: seq<Block>, i: nat, n: nat, x: nat)
    requires Linked(m, start, bs) && i < |bs| && bs[i].size >= n && Splits(bs[i], n)
             && Load(m, Addr(start, bs, i)) == bs[i].size
    requires !HeaderWord(start, Take(bs, i, n), x)
    ensures var a := Addr(start, bs, i); Load(SplitWords(m, a, n)[a + 24 := 0], x) == Load(m, x)
  {
    hide Addr, Take;
    TakeAt(bs, i, n);
    TakeAddr(start, bs, i, n, i);
    TakeAddr(start, bs, i, n, i + 1);
    assert !InHeader(start, Take(bs, i, n), i, x) && !InHeader(start, Take(bs, i, n), i + 1, x);
    assert LinkedAt(m, start, bs, i);
    if i + 1 < |bs| {
      TakeAddr(start, bs, i, n, i + 2);
      assert !InHeader(start, Take(bs, i, n), i + 2, x);
    }
  }

  // ---------------------------------------------------------------- merging

  lemma MergeNeighbours(start: nat, bs: seq<Block>, i: nat, k: nat)
    requires i + 1 < |bs| && k < |Merge(bs, i)|
    ensures var cs := Merge(bs, i);
            && |cs| == |bs| - 1
            && Addr(start, cs, k) == (if k <= i then Addr(start, bs, k) else Addr(start, bs, k + 1))
            && cs[k] ==
               (if k < i then bs[k]
                else if k == i then Block(bs[i].size + bs[i + 1].size + HEADER, true)
                else bs[k + 1])
            && NextOf(start, cs, k) == (if k < i then NextOf(start, bs, k) else NextOf(start, bs, k + 1))
            && PrevOf(start, cs, k) == (if k <= i then PrevOf(start, bs, k) else if k == i + 1 then Addr(start, bs, i)
                                        else PrevOf(start, bs, k + 1))
  {
    hide Addr, Merge;
    MergeAt(bs, i);
    MergeAddr(start, bs, i, k);
    if k + 1 < |bs| - 1 {
      MergeAddr(start, bs, i, k + 1);
    }
    if k > 0 {
      MergeAddr(start, bs, i, k - 1);
    }
  }

  lemma MergeWordsOther(m: Memory, a: nat, b: nat, c: nat, size: nat, next: nat, prev: nat, free: bool)
    requires HeaderAt(m, c, size, next, prev, free) && Apart(a, b) && Apart(a, c)
    requires Load(m, b + 8) != NULL && Load(m, b + 8) != c ==> Apart(Load(m, b + 8), c)
    ensures HeaderAt(MergeWords(m, a, b), c, size, next, if Load(m, b + 8) == c && c != NULL then a else prev, free)
  {
  }

  lemma MergeWordsHere(m: Memory, a: nat, b: nat, size: nat, next: nat, prev: nat, free: bool)
    requires HeaderAt(m, a, size, next, prev, free) && Apart(a, b)
    requires Load(m, b + 8) != NULL ==> Apart(a, Load(m, b + 8))
    ensures HeaderAt(MergeWords(m, a, b), a, size + Load(m, b) + HEADER, Load(m, b + 8), prev, free)
  {
  }

  lemma MergeLinksAt(m: Memory, start: nat, bs: seq<Block>, i: nat, k: nat)
    requires Linked(m, start, bs) && i + 1 < |bs| && bs[i].free && k < |Merge(bs, i)|
    ensures LinkedAt(MergeWords(m, Addr(start, bs, i), Addr(start, bs, i + 1)), start, Merge(bs, i), k)
  {
    hide Addr, Merge, NextOf, PrevOf, Linked, HeaderAt, MergeWords;
    MergeNeighbours(start, bs, i, k);
    LinkedHere(m, start, bs, i);
    LinkedHere(m, start, bs, i + 1);
    NextIsSome(start, bs, i + 1);
    HeadersApart(start, bs, i, i + 1);
    var a, b := Addr(start, bs, i), Addr(start, bs, i + 1);
    NextLoaded(m, b, bs[i + 1].size, NextOf(start, bs, i + 1), PrevOf(start, bs, i + 1), bs[i + 1].free);
    if k == i {
      MergeWordsHere(m, a, b, bs[i].size, NextOf(start, bs, i), PrevOf(start, bs, i), bs[i].free);
    } else {
      var j := if k < i then k else k + 1;
      LinkedHere(m, start, bs, j);
      HeadersApart(start, bs, i, j);
      if i + 2 < |bs| {
        NextIsAddr(start, bs, i + 1);
        if j != i + 2 {
          HeadersApart(start, bs, i + 2, j);
        }
      }
      MergeWordsOther(m, a, b, Addr(start, bs, j), bs[j].size, NextOf(start, bs, j), PrevOf(start, bs, j), bs[j].free);
    }
  }

  lemma MergeLinks(m: Memory, start: nat, bs: seq<Block>, i: nat)
    requires Linked(m, start, bs) && i + 1 < |bs| && bs[i].free
    ensures var m' := MergeWords(m, Addr(start, bs, i), Addr(start, bs, i + 1));
            Linked(m', start, Merge(bs, i)) && OnlyHeaders(m, m', start, bs)
  {
    hide Addr, Merge, MergeWords, LinkedAt;
    var m' := MergeWords(m, Addr(start, bs, i), Addr(start, bs, i + 1));
    forall k: nat | k < |Merge(bs, i)|
      ensures LinkedAt(m', start, Merge(bs, i), k)
    {
      MergeLinksAt(m, start, bs, i, k);
    }
    forall x: nat | !HeaderWord(start, bs, x)
      ensures Load(m', x) == Load(m, x)
    {
      MergeTouches(m, start, bs, i, x);
    }
  }

  lemma MergeTouches(m: Memory, start: nat, bs: seq<Block>, i: nat, x: nat)
    requires Linked(m, start, bs) && i + 1 < |bs| && !HeaderWord(start, bs, x)
    ensures Load(MergeWords(m, Addr(start, bs, i), Addr(start, bs, i + 1)), x) == Load(m, x)
  {
    hide Addr;
    assert !InHeader(start, bs, i, x) && !InHeader(start, bs, i + 1, x);
    assert LinkedAt(m, start, bs, i + 1);
    HeadersApart(start, bs, i, i + 1);
    if i + 2 < |bs| {
      assert !InHeader(start, bs, i + 2, x);
    }
  }

  /** Merging makes no new headers. */
  lemma MergeHeaders(start: nat, bs: seq<Block>, i: nat, x: nat)
    requires i + 1 < |bs| && HeaderWord(start, Merge(bs, i), x)
    ensures HeaderWord(start, bs, x)
  {
    hide Addr, Merge;
    MergeAt(bs, i);
    var k: nat :| InHeader(start, Merge(bs, i), k, x);
    MergeAddr(start, bs, i, k);
    assert InHeader(start, bs, if k <= i then k else k + 1, x);
  }
}
