/** The contiguous split of a list over ranks: patches, their coordinates, output lines. */
module Partition {
  import opened Arithmetic
  import opened Sequences

  datatype PatchSlice<P> = PatchSlice(patches: seq<seq<nat>>, globalIds: seq<nat>, coords: seq<seq<P>>)

  /** Where rank r's part of m items begins. */
  function SplitPoint(m: nat, r: nat, size: nat): nat
    requires size > 0
  {
    (m * r) / size
  }

  lemma SplitEnds(m: nat, size: nat)
    requires size > 0
    ensures SplitPoint(m, 0, size) == 0 && SplitPoint(m, size, size) == m
  {
    DivOfMultiple(m, size);
    DivOfMultiple(0, size);
  }

  lemma SplitAscends(m: nat, r: nat, t: nat, size: nat)
    requires size > 0 && r <= t <= size
    ensures SplitPoint(m, r, size) <= SplitPoint(m, t, size) <= m
  {
    MulLe(r, t, m);
    MulLe(t, size, m);
    DivLe(m * r, m * t, size);
    DivLe(m * t, m * size, size);
    SplitEnds(m, size);
  }

  /** The cut before rank r in plain products: item p lies behind it exactly when the first
      p + 1 of m items are more than r of size shares. */
  lemma BehindCut(m: nat, r: nat, size: nat, p: nat)
    requires size > 0
    ensures SplitPoint(m, r, size) <= p <==> m * r < (p + 1) * size
  {
    var q := (m * r) / size;
    DivBounds(m * r, size);
    NextMultiple(q, size);
    if q <= p { MulLe(q + 1, p + 1, size); } else { MulLe(p + 1, q, size); }
  }

  /** Rank r's items are those with m·r < (p + 1)·P <= m·(r + 1). */
  lemma MineExactly(m: nat, r: nat, size: nat, p: nat)
    requires size > 0
    ensures SplitPoint(m, r, size) <= p < SplitPoint(m, r + 1, size) <==> m * r < (p + 1) * size <= m * (r + 1)
  {
    BehindCut(m, r, size, p);
    BehindCut(m, r + 1, size, p);
  }

  /** The parts are even: every rank gets m / P items or one more. */
  lemma EvenParts(m: nat, r: nat, size: nat)
    requires r < size
    ensures m / size <= SplitPoint(m, r + 1, size) - SplitPoint(m, r, size) <= m / size + 1
  {
    NextMultiple(r, m);
    assert m * (r + 1) == m * r + m;
    EvenQuotients(m * r, m, size);
  }

  lemma EvenQuotients(x: nat, m: nat, d: nat)
    requires d > 0
    ensures m / d <= (x + m) / d - x / d <= m / d + 1
  {
    var q, t := m / d, m % d;
    Remainder(m, d);
    DivPlusMultiple(x + t, q, d);
    DivPlusMultiple(x, 1, d);
    DivLe(x, x + t, d);
    DivLe(x + t, x + 1 * d, d);
  }

  /** Rank r's part of a list. */
  function Part<T>(items: seq<T>, r: nat, size: nat): seq<T>
    requires r < size
  {
    SplitAscends(|items|, r, r + 1, size);
    items[SplitPoint(|items|, r, size)..SplitPoint(|items|, r + 1, size)]
  }

  function Parts<T>(items: seq<T>, size: nat): (p: seq<seq<T>>)
    requires size > 0
    ensures |p| == size && forall r :: 0 <= r < size ==> p[r] == Part(items, r, size)
  {
    seq(size, r requires 0 <= r < size => Part(items, r, size))
  }

  lemma {:induction false} PartsPrefix<T>(items: seq<T>, size: nat, r: nat)
    requires size > 0 && r <= size
    ensures SplitPoint(|items|, r, size) <= |items|
    ensures Flatten(Parts(items, size)[..r]) == items[..SplitPoint(|items|, r, size)]
  {
    SplitAscends(|items|, r, r, size);
    if r == 0 {
      SplitEnds(|items|, size);
    } else {
      PartsPrefix(items, size, r - 1);
      FlattenPrefix(Parts(items, size), r - 1);
      SplitAscends(|items|, r - 1, r, size);
    }
  }

  /** The parts of all ranks, in rank order, are the list: nothing lost, nothing twice. */
  lemma PartsTile<T>(items: seq<T>, size: nat)
    requires size > 0
    ensures Flatten(Parts(items, size)) == items
    ensures forall r :: 0 <= r < size ==> Start(Parts(items, size), r) == SplitPoint(|items|, r, size)
  {
    PartsPrefix(items, size, size);
    SplitEnds(|items|, size);
    assert Parts(items, size)[..size] == Parts(items, size);
    forall r | 0 <= r < size ensures Start(Parts(items, size), r) == SplitPoint(|items|, r, size) {
      PartsPrefix(items, size, r);
    }
  }

  method SlicePatchesByRank<P>(patches: seq<seq<nat>>, rank: nat, size: nat) returns (slice: PatchSlice<P>)
    requires rank < size
    ensures slice.patches == Part(patches, rank, size) && slice.coords == []
    ensures |slice.globalIds| == |slice.patches|
    ensures forall i :: 0 <= i < |slice.globalIds| ==> slice.globalIds[i] == SplitPoint(|patches|, rank, size) + i
    ensures |patches| / size <= |slice.patches| <= |patches| / size + 1
    ensures forall p: nat :: p in slice.globalIds <==> |patches| * rank < (p + 1) * size <= |patches| * (rank + 1)
    ensures forall i :: 0 <= i < |slice.patches| ==> slice.globalIds[i] < |patches| && slice.patches[i] == patches[slice.globalIds[i]]
  {
    SplitAscends(|patches|, rank, rank + 1, size);
    var begin, end := SplitPoint(|patches|, rank, size), SplitPoint(|patches|, rank + 1, size);
    var mine, ids := [], [];
    for p := begin to end
      invariant mine == patches[begin..p] && |ids| == p - begin
      invariant forall i :: 0 <= i < |ids| ==> ids[i] == begin + i
    {
      mine, ids := mine + [patches[p]], ids + [p];
    }
    slice := PatchSlice(mine, ids, []);
    EvenParts(|patches|, rank, size);
    RangeIds(ids, begin, end);
    hide SplitPoint;
    forall p: nat ensures p in ids <==> |patches| * rank < (p + 1) * size <= |patches| * (rank + 1) {
      MineExactly(|patches|, rank, size, p);
    }
  }

  lemma RangeIds(ids: seq<nat>, begin: nat, end: nat)
    requires begin + |ids| == end && forall i :: 0 <= i < |ids| ==> ids[i] == begin + i
    ensures forall p: nat :: p in ids <==> begin <= p < end
  {
    forall p: nat | begin <= p < end ensures p in ids { assert ids[p - begin] == p; }
  }

  method SliceWithCoords<P>(patches: seq<seq<nat>>, coords: seq<seq<P>>, rank: nat, size: nat) returns (slice: PatchSlice<P>)
    requires rank < size && |coords| == |patches|
    ensures slice.patches == Part(patches, rank, size) && slice.coords == Part(coords, rank, size)
    ensures |slice.globalIds| == |slice.patches| == |slice.coords|
    ensures forall i :: 0 <= i < |slice.globalIds| ==> slice.globalIds[i] == SplitPoint(|patches|, rank, size) + i
    ensures |patches| / size <= |slice.patches| <= |patches| / size + 1
    ensures forall p: nat :: p in slice.globalIds <==> |patches| * rank < (p + 1) * size <= |patches| * (rank + 1)
    ensures forall i :: 0 <= i < |slice.patches| ==>
      && slice.globalIds[i] < |patches|
      && slice.patches[i] == patches[slice.globalIds[i]] && slice.coords[i] == coords[slice.globalIds[i]]
  {
    var begin := SplitPoint(|patches|, rank, size);
    SplitAscends(|patches|, rank, rank + 1, size);
    var plain: PatchSlice<P> := SlicePatchesByRank(patches, rank, size);
    var mine := [];
    for p := 0 to |plain.patches|
      invariant mine == coords[begin..begin + p]
    {
      mine := mine + [coords[begin + p]];
    }
    slice := plain.(coords := mine);
  }

  /** The global IDs of all slices, in rank order, count the patches. */
  lemma {:induction false} SliceIdsCount(m: nat, size: nat, ids: seq<seq<nat>>, r: nat)
    requires size > 0 && r <= |ids| == size
    requires forall q :: 0 <= q < size ==> |ids[q]| == SplitPoint(m, q + 1, size) - SplitPoint(m, q, size)
    requires forall q, i :: 0 <= q < size && 0 <= i < |ids[q]| ==> ids[q][i] == SplitPoint(m, q, size) + i
    ensures |Flatten(ids[..r])| == SplitPoint(m, r, size)
    ensures forall k :: 0 <= k < |Flatten(ids[..r])| ==> Flatten(ids[..r])[k] == k
  {
    SplitEnds(m, size);
    if r > 0 {
      SliceIdsCount(m, size, ids, r - 1);
      FlattenPrefix(ids, r - 1);
    }
  }
}
