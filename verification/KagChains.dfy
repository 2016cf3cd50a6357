/** Cluster chains: what freeing, filling and reading do along a well-formed chain. */
module KagChains {
  import opened Bytes
  import opened KagLayout
  import opened KagVolume

  /** The clusters `cs`, in order, are linked in the FAT and the last one ends the chain. */
  ghost predicate IsChain(fat: Fat, cs: seq<nat>) {
    && (forall k | 0 <= k < |cs| :: 2 <= cs[k] < FAT_ENTRIES)
    && (forall k {:trigger fat[cs[k]]} | 0 <= k < |cs| :: fat[cs[k]] == if k + 1 < |cs| then cs[k + 1] else EOC)
  }

  ghost function Elements(cs: seq<nat>): set<nat> {
    set x | x in cs
  }

  lemma {:induction false} DistinctCount(cs: seq<nat>)
    requires Distinct(cs)
    ensures |Elements(cs)| == |cs|
  {
    if cs != [] {
      var rest := cs[..|cs| - 1];
      DistinctCount(rest);
      assert Elements(cs) == Elements(rest) + {cs[|cs| - 1]};
    }
  }

  ghost function Flatten(data: DataArea, cs: seq<nat>): (s: seq<byte>)
    requires forall k | 0 <= k < |cs| :: 2 <= cs[k] < FAT_ENTRIES
    ensures |s| == CLUSTER_BYTES * |cs|
  {
    if cs == [] then [] else ClusterAt(data, cs[0]) + Flatten(data, cs[1..])
  }

  lemma {:induction false} FlattenSame(d: DataArea, e: DataArea, cs: seq<nat>)
    requires forall k | 0 <= k < |cs| :: 2 <= cs[k] < FAT_ENTRIES && ClusterAt(d, cs[k]) == ClusterAt(e, cs[k])
    ensures Flatten(d, cs) == Flatten(e, cs)
  {
    if cs != [] {
      FlattenSame(d, e, cs[1..]);
    }
  }

  // ---------------------------------------------------------------- freeing

  ghost function Cleared(fat: Fat, cs: seq<nat>): Fat {
    seq(FAT_ENTRIES, c requires 0 <= c < FAT_ENTRIES => if c in cs then FREE else fat[c])
  }

  /** On a well-formed chain exactly that chain is freed. */
  lemma {:induction false} FreeChainFreesChain(fat: Fat, cs: seq<nat>)
    requires cs != [] && IsChain(fat, cs) && Distinct(cs)
    ensures FreeChain(fat, cs[0]) == (Cleared(fat, cs), Ok(()))
    decreases |cs|
  {
    var fat1: Fat := fat[cs[0] := FREE];
    assert fat[cs[0]] == if 1 < |cs| then cs[1] else EOC;
    if |cs| == 1 {
      assert fat1 == Cleared(fat, cs);
    } else {
      var rest := cs[1..];
      assert IsChain(fat1, rest) by {
        forall k | 0 <= k < |rest|
          ensures fat1[rest[k]] == if k + 1 < |rest| then rest[k + 1] else EOC
        {
          assert rest[k] == cs[k + 1];
          assert fat[cs[k + 1]] == if k + 2 < |cs| then cs[k + 2] else EOC;
        }
      }
      FreeChainFreesChain(fat1, rest);
      assert forall c | 0 <= c < FAT_ENTRIES :: c in cs <==> c == cs[0] || c in rest;
      assert Cleared(fat1, rest) == Cleared(fat, cs);
    }
  }

  lemma FreeingAddsToFreeSet(fat: Fat, cs: seq<nat>)
    requires IsChain(fat, cs) && Distinct(cs)
    ensures FreeSet(Cleared(fat, cs)) == FreeSet(fat) + Elements(cs)
    ensures |FreeSet(Cleared(fat, cs))| == |FreeSet(fat)| + |cs|
  {
    assert FreeSet(fat) !! Elements(cs) by {
      forall k | 0 <= k < |cs|
        ensures cs[k] !in FreeSet(fat)
      {
        assert fat[cs[k]] == if k + 1 < |cs| then cs[k + 1] else EOC;
      }
    }
    DistinctCount(cs);
    assert FreeSet(Cleared(fat, cs)) == FreeSet(fat) + Elements(cs);
  }

  /** Which entries end a chain, and which are out of range. */
  lemma EndsAndErrors(v: Volume, current: u16, left: nat)
    ensures current < 2 || current >= 0xFFF0 ==>
              FreeChain(v.fat, current) == (v.fat, Ok(())) && ReadChain(v, current, left) == Ok(Zeros(left))
    ensures 16_384 <= current < 0xFFF0 ==>
              && FreeChain(v.fat, current) == (v.fat, Err(InvalidArgument))
              && (left > 0 ==> ReadChain(v, current, left) == Err(InvalidArgument))
  {
  }

  // ---------------------------------------------------------------- reading

  lemma {:induction false} ReadChainReadsChain(v: Volume, cs: seq<nat>, size: nat)
    requires IsChain(v.fat, cs) && |cs| == ClustersFor(size)
    ensures size <= |Flatten(v.data, cs)|
    ensures ReadChain(v, if cs == [] then 0 else cs[0], size) == Ok(Flatten(v.data, cs)[..size])
    decreases |cs|
  {
    if cs == [] {
      assert size == 0;
      assert Zeros(0) == Flatten(v.data, cs)[..0];
    } else {
      var n := Min(size, CLUSTER_BYTES);
      var rest := cs[1..];
      var next := v.fat[cs[0]];
      assert next == if 1 < |cs| then cs[1] else EOC;
      assert IsChain(v.fat, rest) by {
        forall k | 0 <= k < |rest|
          ensures v.fat[rest[k]] == if k + 1 < |rest| then rest[k + 1] else EOC
        {
          assert v.fat[cs[k + 1]] == if k + 2 < |cs| then cs[k + 2] else EOC;
        }
      }
      if |cs| == 1 {
        assert n == size;
        assert ReadChain(v, next, 0) == Ok(Zeros(0));
        assert ClusterAt(v.data, cs[0])[..n] + Zeros(0) == Flatten(v.data, cs)[..size];
      } else {
        ReadChainReadsChain(v, rest, size - n);
        assert ClusterAt(v.data, cs[0])[..n] + Flatten(v.data, rest)[..size - n] == Flatten(v.data, cs)[..size];
      }
    }
  }

  // ---------------------------------------------------------------- filling

  ghost predicate FreshTail(fat: Fat, prev: Option<nat>) {
    prev.Some? ==> 2 <= prev.value < FAT_ENTRIES && fat[prev.value] != FREE
  }

  /** What one round of the loop does to the rest of the volume. */
  lemma AttachFacts(v: Volume, c: nat, chunk: seq<byte>, prev: Option<nat>)
    requires FreshTail(v.fat, prev) && 2 <= c < FAT_ENTRIES && v.fat[c] == FREE && |chunk| <= CLUSTER_BYTES
    ensures var w := Attach(v, c, chunk, prev);
            && FreeSet(w.fat) == FreeSet(v.fat) - {c}
            && w.fat[c] == EOC
            && (prev.Some? ==> w.fat[prev.value] == c)
            && (forall x | 0 <= x < FAT_ENTRIES && x != c && prev != Some(x) :: w.fat[x] == v.fat[x])
            && ClusterAt(w.data, c)[..|chunk|] == chunk
            && (forall k | |chunk| <= k < 4096 :: ClusterAt(w.data, c)[k] == 0)
            && (forall x | 2 <= x < FAT_ENTRIES && x != c :: ClusterAt(w.data, x) == ClusterAt(v.data, x))
  {
    var w := Attach(v, c, chunk, prev);
    assert FreeSet(w.fat) == FreeSet(v.fat) - {c};
    assert ClusterAt(w.data, c) == Padded(chunk);
    forall x | 2 <= x < FAT_ENTRIES && x != c
      ensures ClusterAt(w.data, x) == ClusterAt(v.data, x)
    {
      assert ClusterOffset(x) + CLUSTER_BYTES <= ClusterOffset(c)
             || ClusterOffset(c) + CLUSTER_BYTES <= ClusterOffset(x);
    }
  }

  /** The FAT gained the chain `cs`, built from free entries and linked from `prev`; other entries are as they were. */
  ghost predicate FatFilled(fat: Fat, fat': Fat, prev: Option<nat>, cs: seq<nat>) {
    && Distinct(cs)
    && IsChain(fat', cs)
    && (forall k | 0 <= k < |cs| :: cs[k] in FreeSet(fat))
    && (prev.Some? && cs != [] ==> prev.value < FAT_ENTRIES && fat'[prev.value] == cs[0])
    && (forall x | 0 <= x < FAT_ENTRIES && x !in cs && prev != Some(x) :: fat'[x] == fat[x])
    && FreeSet(fat') == FreeSet(fat) - Elements(cs)
  }

  /** The clusters `cs` hold `payload`; other clusters are as they were. */
  ghost predicate DataFilled(data: DataArea, data': DataArea, payload: seq<byte>, cs: seq<nat>)
    requires forall k | 0 <= k < |cs| :: 2 <= cs[k] < FAT_ENTRIES
  {
    && (forall x | 2 <= x < FAT_ENTRIES && x !in cs :: ClusterAt(data', x) == ClusterAt(data, x))
    && |payload| <= |Flatten(data', cs)| && Flatten(data', cs)[..|payload|] == payload
  }

  ghost predicate Filled(v: Volume, w: Volume, payload: seq<byte>, prev: Option<nat>, cs: seq<nat>) {
    && cs != [] && |cs| == ClustersFor(|payload|)
    && FatFilled(v.fat, w.fat, prev, cs)
    && DataFilled(v.data, w.data, payload, cs)
  }

  lemma {:induction false} FillSucceeds(v: Volume, payload: seq<byte>, prev: Option<nat>) returns (cs: seq<nat>)
    requires |payload| > 0 && FreshTail(v.fat, prev)
    requires ClustersFor(|payload|) <= |FreeSet(v.fat)|
    ensures Filled(v, Fill(v, payload, prev).0, payload, prev, cs)
    ensures Fill(v, payload, prev).1 == Ok(cs[0])
    decreases |payload|
  {
    var least := LeastFree(v.fat, 2);
    assert least.None? ==> FreeSet(v.fat) == {};
    var c := least.value;
    var chunk := payload[..Min(|payload|, CLUSTER_BYTES)];
    var v1 := Attach(v, c, chunk, prev);
    AttachFacts(v, c, chunk, prev);
    var w := Fill(v, payload, prev).0;
    if |payload| <= CLUSTER_BYTES {
      cs := [c];
      assert Elements(cs) == {c};
      assert Flatten(w.data, cs) == ClusterAt(w.data, c) + Flatten(w.data, []);
      assert chunk == payload;
    } else {
      assert c in FreeSet(v.fat);
      var rest := FillSucceeds(v1, payload[CLUSTER_BYTES..], Some(c));
      cs := [c] + rest;
      FilledStep(v, v1, w, payload, prev, c, rest);
    }
  }

  lemma FilledStep(v: Volume, v1: Volume, w: Volume, payload: seq<byte>, prev: Option<nat>, c: nat, rest: seq<nat>)
    requires |payload| > CLUSTER_BYTES && FreshTail(v.fat, prev) && c in FreeSet(v.fat)
    requires v1 == Attach(v, c, payload[..CLUSTER_BYTES], prev)
    requires Filled(v1, w, payload[CLUSTER_BYTES..], Some(c), rest)
    ensures Filled(v, w, payload, prev, [c] + rest)
  {
    AttachFacts(v, c, payload[..CLUSTER_BYTES], prev);
    assert c !in FreeSet(v1.fat);
    FatFilledStep(v.fat, v1.fat, w.fat, prev, c, rest);
    FlattenCons(w.data, payload, c, rest);
  }

  lemma FatFilledStep(fat: Fat, fat1: Fat, fat2: Fat, prev: Option<nat>, c: nat, rest: seq<nat>)
    requires FreshTail(fat, prev) && c in FreeSet(fat) && rest != []
    requires FreeSet(fat1) == FreeSet(fat) - {c}
    requires prev.Some? ==> fat1[prev.value] == c
    requires forall x | 0 <= x < FAT_ENTRIES && x != c && prev != Some(x) :: fat1[x] == fat[x]
    requires FatFilled(fat1, fat2, Some(c), rest)
    ensures FatFilled(fat, fat2, prev, [c] + rest)
  {
    var cs := [c] + rest;
    assert Elements(cs) == {c} + Elements(rest);
    assert forall k | 0 <= k < |rest| :: rest[k] != c;
    assert Distinct(cs);
    ChainCons(fat2, c, rest);
    if prev.Some? {
      assert prev.value !in FreeSet(fat1);
    }
  }

  lemma ChainCons(fat: Fat, c: nat, rest: seq<nat>)
    requires rest != [] && IsChain(fat, rest) && 2 <= c < FAT_ENTRIES && fat[c] == rest[0]
    ensures IsChain(fat, [c] + rest)
  {
    var cs := [c] + rest;
    forall k | 0 <= k < |cs|
      ensures fat[cs[k]] == if k + 1 < |cs| then cs[k + 1] else EOC
    {
      if k > 0 {
        assert fat[rest[k - 1]] == if k < |rest| then rest[k] else EOC;
      }
    }
  }

  lemma FlattenCons(data: DataArea, payload: seq<byte>, c: nat, rest: seq<nat>)
    requires |payload| > CLUSTER_BYTES && 2 <= c < FAT_ENTRIES && ClusterAt(data, c) == payload[..CLUSTER_BYTES]
    requires forall k | 0 <= k < |rest| :: 2 <= rest[k] < FAT_ENTRIES
    requires |payload| - CLUSTER_BYTES <= |Flatten(data, rest)|
    requires Flatten(data, rest)[..|payload| - CLUSTER_BYTES] == payload[CLUSTER_BYTES..]
    ensures |payload| <= |Flatten(data, [c] + rest)|
    ensures Flatten(data, [c] + rest)[..|payload|] == payload
  {
    assert ([c] + rest)[1..] == rest;
    assert Flatten(data, [c] + rest) == payload[..CLUSTER_BYTES] + Flatten(data, rest);
    assert payload == payload[..CLUSTER_BYTES] + payload[CLUSTER_BYTES..];
  }

  /**
   When there are too few free clusters the loop takes every one of them before it
   gives up, and the volume outside those clusters is as it was.
   */
  lemma {:induction false} FillExhausts(v: Volume, payload: seq<byte>, prev: Option<nat>)
    requires |payload| > 0 && FreshTail(v.fat, prev)
    requires ClustersFor(|payload|) > |FreeSet(v.fat)|
    ensures var w := Fill(v, payload, prev).0;
            && FreeSet(w.fat) == {}
            && (forall x | 0 <= x < FAT_ENTRIES && x !in FreeSet(v.fat) && prev != Some(x) :: w.fat[x] == v.fat[x])
            && (forall x | 2 <= x < FAT_ENTRIES && x !in FreeSet(v.fat) :: ClusterAt(w.data, x) == ClusterAt(v.data, x))
    ensures Fill(v, payload, prev).1 == Err(InvalidArgument)
    decreases |payload|
  {
    var least := LeastFree(v.fat, 2);
    if least.None? {
      assert FreeSet(v.fat) == {};
    } else {
      var c := least.value;
      var chunk := payload[..Min(|payload|, CLUSTER_BYTES)];
      AttachFacts(v, c, chunk, prev);
      assert c in FreeSet(v.fat);
      FillExhausts(Attach(v, c, chunk, prev), payload[CLUSTER_BYTES..], Some(c));
    }
  }
}
