/** The device kernels of both solver modes. A kernel's threads are visited in an
    arbitrary order, one atomic operation at a time. */
module Kernels {
  import opened Sequences
  import opened Bitset
  import opened InvertedIndexes

  /** int32: the score type the element-partitioned mode keeps and ships. */
  newtype WireScore = x: int | -0x8000_0000 <= x < 0x8000_0000

  const INT32_MIN: int := -0x8000_0000
  const INT32_MAX: int := 0x7fff_ffff

  // ----- collecting the newly covered elements ---------------------------------

  ghost function Uncovered(data: seq<nat>, start: nat, end: nat, covered: seq<bool>): set<nat>
    requires start <= end <= |data|
  {
    ToSet(data[start..end]) - Bits(covered)
  }

  /** One thread per list position; a claimed slot number is never claimed again. */
  method BuildNewlyCovered(data: seq<nat>, start: nat, end: nat, covered: seq<bool>, buffer: seq<nat>)
    returns (out: seq<nat>, count: nat)
    requires start <= end <= |data| && StrictlyAscending(data[start..end])
    requires forall e :: e in data[start..end] ==> e < |covered|
    requires |Uncovered(data, start, end, covered)| <= |buffer|
    ensures |out| == |buffer| && count == |Uncovered(data, start, end, covered)|
    ensures Distinct(out[..count]) && ToSet(out[..count]) == Uncovered(data, start, end, covered)
    ensures out[count..] == buffer[count..]
  {
    hide Bits, ToSet, Claimed, Uncovered;
    out, count := buffer, 0;
    var pending := Between(start, end);
    ghost var found: set<nat> := {};
    ClaimNone(data, start, end, covered, out);
    while pending != {}
      invariant pending <= Between(start, end)
      invariant |out| == |buffer| && count <= |out| && out[count..] == buffer[count..]
      invariant Claimed(data, start, end, covered, pending, out, count, found)
    {
      var i :| i in pending;
      ClaimRoom(data, start, end, covered, pending, out, count, found, i);
      if !covered[data[i]] {
        ClaimStep(data, start, end, covered, pending, out, count, found, i);
        out := out[count := data[i]];
        found := found + {data[i]};
        count := count + 1;
      }
      pending := pending - {i};
    }
    ClaimAll(data, start, end, covered, out, count, found);
  }

  function Between(a: nat, b: nat): (s: set<nat>)
    requires a <= b
    ensures forall i :: i in s <==> a <= i < b
    ensures |s| == b - a
    decreases b - a
  {
    if a == b then {} else Between(a, b - 1) + {b - 1}
  }

  /** The first count slots hold exactly the uncovered elements of the finished threads. */
  ghost predicate Claimed(data: seq<nat>, start: nat, end: nat, covered: seq<bool>, pending: set<nat>,
                          out: seq<nat>, count: nat, found: set<nat>)
    requires start <= end <= |data|
  {
    && count == |found| && count <= |out|
    && Distinct(out[..count])
    && (forall e :: e in out[..count] <==> e in found)
    && (forall e :: e in found ==> e in Uncovered(data, start, end, covered))
    && (forall i :: i in pending && i < |data| ==> data[i] !in found)
    && (forall i :: i in Between(start, end) && i !in pending && data[i] !in Bits(covered) ==> data[i] in found)
  }

  lemma ClaimNone(data: seq<nat>, start: nat, end: nat, covered: seq<bool>, out: seq<nat>)
    requires start <= end <= |data|
    ensures Claimed(data, start, end, covered, Between(start, end), out, 0, {})
  {
  }

  lemma ClaimRoom(data: seq<nat>, start: nat, end: nat, covered: seq<bool>, pending: set<nat>,
                  out: seq<nat>, count: nat, found: set<nat>, i: nat)
    requires start <= end <= |data| && i in pending && pending <= Between(start, end)
    requires forall e :: e in data[start..end] ==> e < |covered|
    requires Claimed(data, start, end, covered, pending, out, count, found)
    requires |Uncovered(data, start, end, covered)| <= |out|
    ensures data[i] < |covered|
    ensures covered[data[i]] ==> Claimed(data, start, end, covered, pending - {i}, out, count, found)
    ensures !covered[data[i]] ==> count < |out|
  {
    SliceHolds(data, start, end, i);
    if !covered[data[i]] {
      SubsetSize(found + {data[i]}, Uncovered(data, start, end, covered));
    }
  }

  lemma ClaimStep(data: seq<nat>, start: nat, end: nat, covered: seq<bool>, pending: set<nat>,
                  out: seq<nat>, count: nat, found: set<nat>, i: nat)
    requires start <= end <= |data| && StrictlyAscending(data[start..end])
    requires i in pending && pending <= Between(start, end)
    requires Claimed(data, start, end, covered, pending, out, count, found)
    requires data[i] < |covered| && !covered[data[i]] && count < |out|
    ensures Claimed(data, start, end, covered, pending - {i}, out[count := data[i]], count + 1, found + {data[i]})
  {
    hide Bits, ToSet;
    SliceHolds(data, start, end, i);
    forall j | j in pending - {i} ensures data[j] != data[i] {
      SliceDiffers(data, start, end, i, j);
    }
    AppendSlot(out, count, data[i]);
    assert |found + {data[i]}| == |found| + 1;
    assert data[i] in Uncovered(data, start, end, covered) by { InUncovered(data, start, end, covered, i); }
    forall e ensures e in out[count := data[i]][..count + 1] <==> e in found + {data[i]} {}
  }

  lemma InUncovered(data: seq<nat>, start: nat, end: nat, covered: seq<bool>, i: nat)
    requires start <= i < end <= |data| && data[i] < |covered| && !covered[data[i]]
    ensures data[i] in Uncovered(data, start, end, covered)
  {
    SliceHolds(data, start, end, i);
  }

  lemma SliceDiffers(data: seq<nat>, start: nat, end: nat, i: nat, j: nat)
    requires start <= i < end <= |data| && start <= j < end && i != j && StrictlyAscending(data[start..end])
    ensures data[i] != data[j]
  {
    assert data[start..end][i - start] == data[i] && data[start..end][j - start] == data[j];
  }

  lemma AppendSlot(out: seq<nat>, count: nat, v: nat)
    requires count < |out| && Distinct(out[..count]) && v !in out[..count]
    ensures Distinct(out[count := v][..count + 1])
    ensures forall e :: e in out[count := v][..count + 1] <==> e in out[..count] || e == v
  {
    assert out[count := v][..count + 1] == out[..count] + [v];
  }

  lemma ClaimAll(data: seq<nat>, start: nat, end: nat, covered: seq<bool>, out: seq<nat>, count: nat, found: set<nat>)
    requires start <= end <= |data| && Claimed(data, start, end, covered, {}, out, count, found)
    ensures found == Uncovered(data, start, end, covered) == ToSet(out[..count])
    ensures count == |found| && Distinct(out[..count])
  {
    forall e | e in Uncovered(data, start, end, covered) ensures e in found {
      var i := SliceFind(data, start, end, e);
      assert i in Between(start, end);
    }
  }

  // ----- raising bits ----------------------------------------------------------

  /** One thread per listed ID; atomicOr makes repeated and reordered writes harmless. */
  method SetBits(bits: seq<bool>, ids: seq<nat>, n: nat) returns (out: seq<bool>)
    requires n <= |ids| && forall e :: e in ids[..n] ==> e < |bits|
    ensures |out| == |bits| && Bits(out) == Bits(bits) + ToSet(ids[..n])
  {
    out := bits;
    var pending := Between(0, n);
    while pending != {}
      invariant pending <= Between(0, n) && |out| == |bits|
      invariant forall e :: e in Bits(out) ==> e in Bits(bits) || e in ids[..n]
      invariant forall e :: e in Bits(bits) ==> e in Bits(out)
      invariant forall i :: 0 <= i < n && i !in pending ==> ids[i] in Bits(out)
    {
      var i :| i in pending;
      SliceHolds(ids, 0, n, i);
      RaiseBit(out, ids[i]);
      out := out[ids[i] := true];
      pending := pending - {i};
    }
    assert forall e :: e in ids[..n] ==> e in Bits(out);
  }

  // ----- score decrements ------------------------------------------------------

  /** The elements of `elems` that patch q contains, according to the index. */
  ghost function Hits(elems: set<nat>, inv: InvertedIndex, q: nat): set<nat>
    requires inv.Valid()
  {
    set e | e in elems && q in inv.PatchesOf(e)
  }

  /** The index entries, each one (element, patch) incidence, that belong to `elems`. */
  ghost function Touched(elems: set<nat>, inv: InvertedIndex): set<nat>
    requires inv.Valid()
  {
    set i | i in Range(|inv.data|) && inv.keys[RowAt(inv, i)] in elems
  }

  ghost predicate RowsAscending(inv: InvertedIndex)
    requires inv.Valid()
  {
    forall k :: 0 <= k < |inv.keys| ==> StrictlyAscending(inv.Row(k))
  }

  /** The hand-written binary search every block runs over the sorted keys. */
  method SearchKeys(keys: seq<nat>, id: nat) returns (lo: nat)
    requires StrictlyAscending(keys)
    ensures lo == LowerBound(keys, id)
  {
    lo := 0;
    var hi := |keys|;
    while lo < hi
      invariant 0 <= lo <= hi <= |keys|
      invariant forall i :: 0 <= i < lo ==> keys[i] < id
      invariant forall i :: hi <= i < |keys| ==> keys[i] >= id
    {
      var mid := lo + (hi - lo) / 2;
      if keys[mid] < id { lo := mid + 1; } else { hi := mid; }
    }
    LowerBoundIs(keys, id, lo);
  }

  /** The threads of block k that stride over the index range [a, b). */
  function Block(k: nat, a: nat, b: nat): (s: set<(nat, nat)>)
    requires a <= b
    ensures forall t :: t in s <==> t.0 == k && a <= t.1 < b
    decreases b - a
  {
    if a == b then {} else Block(k, a, b - 1) + {(k, b - 1)}
  }

  ghost function BlockOf(inv: InvertedIndex, id: nat, k: nat): set<(nat, nat)>
    requires inv.Valid()
  {
    var lo := LowerBound(inv.keys, id);
    if lo < |inv.keys| && inv.keys[lo] == id then Block(k, inv.offsets[lo], inv.offsets[lo + 1]) else {}
  }

  /** All threads with work: block k serves the element ids[k]. */
  ghost function Threads(inv: InvertedIndex, ids: seq<nat>, n: nat): set<(nat, nat)>
    requires inv.Valid() && n <= |ids|
  {
    if n == 0 then {} else Threads(inv, ids, n - 1) + BlockOf(inv, ids[n - 1], n - 1)
  }

  ghost function Aiming(threads: set<(nat, nat)>, inv: InvertedIndex, q: nat): set<(nat, nat)> {
    set t | t in threads && t.1 < |inv.data| && inv.data[t.1] == q
  }

  lemma {:induction false} ThreadsInRange(inv: InvertedIndex, ids: seq<nat>, n: nat)
    requires inv.Valid() && n <= |ids|
    ensures forall t :: t in Threads(inv, ids, n) ==> t.0 < n && t.1 < |inv.data|
  {
    if n > 0 {
      ThreadsInRange(inv, ids, n - 1);
      var lo := LowerBound(inv.keys, ids[n - 1]);
      assert lo < |inv.keys| ==> inv.offsets[lo + 1] <= inv.offsets[|inv.keys|];
    }
  }

  /** One block aims at patch q at most once, and exactly when q lists its element. */
  lemma BlockAims(inv: InvertedIndex, id: nat, k: nat, q: nat)
    requires inv.Valid() && RowsAscending(inv)
    ensures |Aiming(BlockOf(inv, id, k), inv, q)| == if q in inv.PatchesOf(id) then 1 else 0
  {
    var lo := LowerBound(inv.keys, id);
    if lo < |inv.keys| && inv.keys[lo] == id {
      assert inv.offsets[lo + 1] <= inv.offsets[|inv.keys|];
      assert StrictlyAscending(inv.Row(lo));
      hide RowsAscending, InvertedIndex.Valid, LowerBound, StrictlyAscending, Aiming;
      RowAims(inv, k, inv.offsets[lo], inv.offsets[lo + 1], q);
    } else {
      assert Aiming(BlockOf(inv, id, k), inv, q) == {};
    }
  }

  lemma RowAims(inv: InvertedIndex, k: nat, a: nat, b: nat, q: nat)
    requires a <= b <= |inv.data| && StrictlyAscending(inv.data[a..b])
    ensures |Aiming(Block(k, a, b), inv, q)| == if q in inv.data[a..b] then 1 else 0
  {
    hide Block;
    var aim := Aiming(Block(k, a, b), inv, q);
    if q in inv.data[a..b] {
      var i := SliceFind(inv.data, a, b, q);
      forall t | t in aim ensures t == (k, i) {
        assert inv.data[a..b][t.1 - a] == inv.data[a..b][i - a];
      }
      assert aim == {(k, i)};
    } else {
      forall t | t in Block(k, a, b) ensures t !in aim { SliceHolds(inv.data, a, b, t.1); }
      assert aim == {};
    }
  }

  /** Counting threads that aim at q is counting the listed elements q contains. */
  lemma {:induction false} ThreadsAim(inv: InvertedIndex, ids: seq<nat>, n: nat, q: nat)
    requires inv.Valid() && RowsAscending(inv) && n <= |ids| && Distinct(ids[..n])
    ensures |Aiming(Threads(inv, ids, n), inv, q)| == |Hits(ToSet(ids[..n]), inv, q)|
  {
    hide ToSet, Hits, Aiming, BlockOf, Distinct, RowsAscending;
    if n > 0 {
      DistinctPrefix(ids, n);
      ThreadsAim(inv, ids, n - 1, q);
      BlockApart(inv, ids, n);
      BlockAims(inv, ids[n - 1], n - 1, q);
      ToSetPrefix(ids, n - 1);
      LastIsNew(ids, n);
      AimingAdds(Threads(inv, ids, n - 1), BlockOf(inv, ids[n - 1], n - 1), inv, q);
      HitsAdd(ToSet(ids[..n - 1]), ids[n - 1], inv, q);
    } else {
      ToSetNone(ids);
      NoHits(inv, q);
    }
  }

  lemma NoHits(inv: InvertedIndex, q: nat)
    requires inv.Valid()
    ensures |Hits({}, inv, q)| == 0 && |Aiming({}, inv, q)| == 0
  {
  }

  lemma AimingAdds(a: set<(nat, nat)>, b: set<(nat, nat)>, inv: InvertedIndex, q: nat)
    requires a !! b
    ensures |Aiming(a + b, inv, q)| == |Aiming(a, inv, q)| + |Aiming(b, inv, q)|
  {
    assert Aiming(a + b, inv, q) == Aiming(a, inv, q) + Aiming(b, inv, q);
  }

  lemma HitsAdd(elems: set<nat>, id: nat, inv: InvertedIndex, q: nat)
    requires inv.Valid() && id !in elems
    ensures |Hits(elems + {id}, inv, q)| == |Hits(elems, inv, q)| + (if q in inv.PatchesOf(id) then 1 else 0)
  {
    var h := Hits(elems, inv, q);
    assert Hits(elems + {id}, inv, q) == if q in inv.PatchesOf(id) then h + {id} else h;
  }

  lemma DistinctPrefix(ids: seq<nat>, n: nat)
    requires 0 < n <= |ids| && Distinct(ids[..n])
    ensures Distinct(ids[..n - 1])
  {
    assert ids[..n - 1] == ids[..n][..n - 1];
  }

  lemma BlockApart(inv: InvertedIndex, ids: seq<nat>, n: nat)
    requires inv.Valid() && 0 < n <= |ids|
    ensures Threads(inv, ids, n - 1) !! BlockOf(inv, ids[n - 1], n - 1)
  {
    ThreadsInRange(inv, ids, n - 1);
  }

  lemma LastIsNew(ids: seq<nat>, n: nat)
    requires 0 < n <= |ids| && Distinct(ids[..n])
    ensures ids[n - 1] !in ToSet(ids[..n - 1])
  {
    assert forall i :: 0 <= i < n - 1 ==> ids[..n][i] != ids[..n][n - 1];
  }

  /** Each thread decrements one (element, patch) incidence nobody else decrements. */
  lemma {:induction false} ThreadsCount(inv: InvertedIndex, ids: seq<nat>, n: nat)
    requires inv.Valid() && n <= |ids| && Distinct(ids[..n])
    ensures |Threads(inv, ids, n)| == |Touched(ToSet(ids[..n]), inv)|
  {
    hide Touched, ToSet, BlockOf, Distinct;
    if n > 0 {
      DistinctPrefix(ids, n);
      ThreadsCount(inv, ids, n - 1);
      LastIsNew(ids, n);
      ToSetPrefix(ids, n - 1);
      BlockApart(inv, ids, n);
      BlockCount(inv, ids[n - 1], n - 1);
      TouchedAdds(ToSet(ids[..n - 1]), {ids[n - 1]}, inv);
    } else {
      ToSetNone(ids);
      NoneTouched(inv);
    }
  }

  lemma NoneTouched(inv: InvertedIndex)
    requires inv.Valid()
    ensures |Touched({}, inv)| == 0
  {
    assert Touched({}, inv) == {};
  }

  lemma {:induction false} BlockSize(k: nat, a: nat, b: nat)
    requires a <= b
    ensures |Block(k, a, b)| == b - a
    decreases b - a
  {
    if a < b { BlockSize(k, a, b - 1); }
  }

  lemma BlockCount(inv: InvertedIndex, id: nat, k: nat)
    requires inv.Valid()
    ensures |BlockOf(inv, id, k)| == |Touched({id}, inv)|
  {
    assert Ascending(inv.keys);
    hide LowerBound, Range, RowAt, Touched, Block, Between, StrictlyAscending, Ascending;
    var lo := LowerBound(inv.keys, id);
    if lo < |inv.keys| && inv.keys[lo] == id {
      BlockSize(k, inv.offsets[lo], inv.offsets[lo + 1]);
      TouchedRow(inv, lo);
    } else {
      TouchedAbsent(inv, id);
    }
  }

  lemma TouchedAbsent(inv: InvertedIndex, id: nat)
    requires inv.Valid() && id !in inv.keys
    ensures Touched({id}, inv) == {}
  {
  }

  lemma TouchedRow(inv: InvertedIndex, k: nat)
    requires inv.Valid() && k < |inv.keys|
    ensures Touched({inv.keys[k]}, inv) == Between(inv.offsets[k], inv.offsets[k + 1])
  {
    hide LowerBound, Range, RowAt;
    var row := Between(inv.offsets[k], inv.offsets[k + 1]);
    forall i ensures i in Touched({inv.keys[k]}, inv) <==> i in row {
      if i in row { RowAtIs(inv, i, k); }
    }
  }

  /** Disjoint element sets touch disjoint index entries. */
  lemma TouchedAdds(a: set<nat>, b: set<nat>, inv: InvertedIndex)
    requires inv.Valid() && a !! b
    ensures Touched(a, inv) !! Touched(b, inv)
    ensures Touched(a + b, inv) == Touched(a, inv) + Touched(b, inv)
    ensures |Touched(a + b, inv)| == |Touched(a, inv)| + |Touched(b, inv)|
  {
  }

  /** Once every indexed element has been served, every incidence has been decremented. */
  lemma TouchedAll(elems: set<nat>, inv: InvertedIndex)
    requires inv.Valid() && forall e :: e in inv.keys ==> e in elems
    ensures |Touched(elems, inv)| == |inv.data|
  {
    assert Touched(elems, inv) == Range(|inv.data|);
  }

  /** Every block first resolves its element's index range. */
  method ResolveRanges(ids: seq<nat>, n: nat, inv: InvertedIndex) returns (threads: set<(nat, nat)>)
    requires inv.Valid() && n <= |ids|
    ensures threads == Threads(inv, ids, n)
  {
    hide Block, LowerBound;
    threads := {};
    for k := 0 to n
      invariant threads == Threads(inv, ids, k)
    {
      var lo := SearchKeys(inv.keys, ids[k]);
      if lo < |inv.keys| && inv.keys[lo] == ids[k] {
        threads := threads + Block(k, inv.offsets[lo], inv.offsets[lo + 1]);
      }
    }
  }

  lemma FinishThread(all: set<(nat, nat)>, pending: set<(nat, nat)>, inv: InvertedIndex, t: (nat, nat), q: nat)
    requires pending <= all && t in pending && t.1 < |inv.data|
    ensures |Aiming(all - (pending - {t}), inv, q)|
            == |Aiming(all - pending, inv, q)| + (if inv.data[t.1] == q then 1 else 0)
  {
    var before := Aiming(all - pending, inv, q);
    var after := Aiming(all - (pending - {t}), inv, q);
    assert after == if inv.data[t.1] == q then before + {t} else before;
  }

  /** Patch-partitioned mode: every patch loses one point per newly covered element in it. */
  method ScoreUpdate(ids: seq<nat>, n: nat, inv: InvertedIndex, scores: seq<int>) returns (out: seq<int>, ghost steps: nat)
    requires inv.Valid() && RowsAscending(inv) && n <= |ids| && Distinct(ids[..n])
    requires forall i :: 0 <= i < |inv.data| ==> inv.data[i] < |scores|
    ensures |out| == |scores|
    ensures forall q :: 0 <= q < |scores| ==> out[q] == scores[q] - |Hits(ToSet(ids[..n]), inv, q)|
    ensures steps == |Touched(ToSet(ids[..n]), inv)|
  {
    hide Hits, Threads, Touched, ToSet, Aiming;
    var pending := ResolveRanges(ids, n, inv);
    ghost var all := pending;
    ThreadsInRange(inv, ids, n);
    out, steps := scores, 0;
    NobodyAims(inv, all, pending);
    while pending != {}
      invariant pending <= all && |out| == |scores|
      invariant steps + |pending| == |all|
      invariant forall q :: 0 <= q < |scores| ==> out[q] == scores[q] - |Aiming(all - pending, inv, q)|
    {
      var t :| t in pending;
      forall q | 0 <= q < |scores| ensures |Aiming(all - (pending - {t}), inv, q)|
        == |Aiming(all - pending, inv, q)| + (if inv.data[t.1] == q then 1 else 0) { FinishThread(all, pending, inv, t, q); }
      out := out[inv.data[t.1] := out[inv.data[t.1]] - 1];
      pending := pending - {t};
      steps := steps + 1;
    }
    assert all - pending == all;
    forall q | 0 <= q < |scores| ensures out[q] == scores[q] - |Hits(ToSet(ids[..n]), inv, q)| {
      ThreadsAim(inv, ids, n, q);
    }
    ThreadsCount(inv, ids, n);
  }

  lemma NobodyAims(inv: InvertedIndex, all: set<(nat, nat)>, pending: set<(nat, nat)>)
    requires pending == all
    ensures forall q: nat :: |Aiming(all - pending, inv, q)| == 0
  {
  }

  /** Element-partitioned mode: the same decrements in int32, none of which wraps. */
  method WireScoreUpdate(ids: seq<nat>, n: nat, inv: InvertedIndex, scores: seq<WireScore>)
    returns (out: seq<WireScore>, ghost steps: nat)
    requires inv.Valid() && RowsAscending(inv) && n <= |ids| && Distinct(ids[..n])
    requires forall i :: 0 <= i < |inv.data| ==> inv.data[i] < |scores|
    requires forall q :: 0 <= q < |scores| ==> scores[q] as int - |Hits(ToSet(ids[..n]), inv, q)| >= INT32_MIN
    ensures |out| == |scores|
    ensures forall q :: 0 <= q < |scores| ==> out[q] as int == scores[q] as int - |Hits(ToSet(ids[..n]), inv, q)|
    ensures steps == |Touched(ToSet(ids[..n]), inv)|
  {
    hide Hits, Threads, Touched, ToSet, Aiming;
    var pending := ResolveRanges(ids, n, inv);
    ghost var all := pending;
    ThreadsInRange(inv, ids, n);
    out, steps := scores, 0;
    NobodyAims(inv, all, pending);
    while pending != {}
      invariant pending <= all && |out| == |scores|
      invariant steps + |pending| == |all|
      invariant forall q :: 0 <= q < |scores| ==> out[q] as int == scores[q] as int - |Aiming(all - pending, inv, q)|
    {
      var t :| t in pending;
      forall q | 0 <= q < |scores| ensures |Aiming(all - (pending - {t}), inv, q)|
        == |Aiming(all - pending, inv, q)| + (if inv.data[t.1] == q then 1 else 0) { FinishThread(all, pending, inv, t, q); }
      NeverBelow(all, pending, inv, ids, n, t);
      out := out[inv.data[t.1] := out[inv.data[t.1]] - 1];
      pending := pending - {t};
      steps := steps + 1;
    }
    assert all - pending == all;
    forall q | 0 <= q < |scores| ensures out[q] as int == scores[q] as int - |Hits(ToSet(ids[..n]), inv, q)| {
      ThreadsAim(inv, ids, n, q);
    }
    ThreadsCount(inv, ids, n);
  }

  /** While a thread is pending, its patch has not yet received all its decrements. */
  lemma NeverBelow(all: set<(nat, nat)>, pending: set<(nat, nat)>, inv: InvertedIndex, ids: seq<nat>, n: nat, t: (nat, nat))
    requires inv.Valid() && RowsAscending(inv) && n <= |ids| && Distinct(ids[..n])
    requires all == Threads(inv, ids, n) && pending <= all && t in pending && t.1 < |inv.data|
    ensures |Aiming(all - pending, inv, inv.data[t.1])| < |Hits(ToSet(ids[..n]), inv, inv.data[t.1])|
  {
    var q := inv.data[t.1];
    ThreadsAim(inv, ids, n, q);
    var partial := Aiming(all - pending, inv, q);
    SubsetSize(partial + {t}, Aiming(all, inv, q));
  }
}
