/** The total work of a solve: when everything is covered, the score decrements of all
    ranks together are exactly the (element, patch) incidences, in both modes. */
module AmortisedWork {
  import opened Sequences
  import opened Bitset
  import opened Csr
  import opened InvertedIndexes
  import opened Kernels
  import opened GreedyCover
  import opened Slots
  import opened ElementShards
  import ByPatch
  import ByElement

  ghost function Sizes(sets: seq<set<nat>>): (s: seq<int>)
    ensures |s| == |sets| && forall i :: 0 <= i < |sets| ==> s[i] == |sets[i]|
  {
    seq(|sets|, i requires 0 <= i < |sets| => |sets[i]|)
  }

  ghost function DataSizes(stores: seq<PatchCsr>): (s: seq<int>)
    ensures |s| == |stores| && forall r :: 0 <= r < |stores| ==> s[r] == |stores[r].data|
  {
    seq(|stores|, r requires 0 <= r < |stores| => |stores[r].data|)
  }

  lemma {:induction false} StoreSize(csr: PatchCsr, n: nat, p: nat)
    requires csr.Clean(n) && p <= csr.M()
    ensures Sum(Sizes(csr.Sets())[..p]) == csr.offsets[p]
  {
    if p > 0 {
      StoreSize(csr, n, p - 1);
      SumPrefix(Sizes(csr.Sets()), p - 1);
      DistinctSize(csr.Patch(p - 1));
    }
  }

  lemma {:induction false} FlatSizes(ss: seq<seq<set<nat>>>, totals: seq<int>)
    requires |totals| == |ss| && forall r :: 0 <= r < |ss| ==> totals[r] == Sum(Sizes(ss[r]))
    ensures Sum(Sizes(Flatten(ss))) == Sum(totals)
  {
    if ss != [] {
      var n := |ss| - 1;
      FlatSizes(ss[..n], totals[..n]);
      assert Sizes(Flatten(ss)) == Sizes(Flatten(ss[..n])) + Sizes(ss[n]);
      SumConcat(Sizes(Flatten(ss[..n])), Sizes(ss[n]));
    }
  }

  /** The stores of all ranks hold each incidence of each patch once. */
  lemma StoresTotal(l: Layout)
    requires l.Valid()
    ensures Sum(DataSizes(l.stores)) == Sum(Sizes(l.All()))
  {
    forall r | 0 <= r < |l.stores| ensures DataSizes(l.stores)[r] == Sum(Sizes(l.Sets()[r])) {
      var csr := l.stores[r];
      StoreSize(csr, l.n, csr.M());
      assert Sizes(csr.Sets())[..csr.M()] == Sizes(csr.Sets());
    }
    FlatSizes(l.Sets(), DataSizes(l.stores));
  }

  /** Once a greedy selection ends, no patch has an uncovered element left. */
  lemma NothingMissing(all: seq<set<nat>>, n: nat, sel: seq<nat>)
    requires IsGreedyResult(all, n, sel) && forall p :: 0 <= p < |all| ==> all[p] <= Range(n)
    ensures forall p :: 0 <= p < |all| ==> all[p] <= Covered(all, sel)
  {
    var c := Covered(all, sel);
    CoveredWithin(all, sel, Range(n));
    if |c| >= n {
      SubsetEqual(c, Range(n));
    } else {
      forall p | 0 <= p < |all| ensures all[p] <= c {
        assert Gain(all, sel, p) == 0;
        assert all[p] - c == {};
      }
    }
  }

  /** When all elements of all patches have been served, so has every index entry. */
  lemma IndexServed(inv: InvertedIndex, csr: PatchCsr, elems: set<nat>)
    requires csr.Valid() && IsTranspose(inv, csr) && forall p :: 0 <= p < csr.M() ==> ToSet(csr.Patch(p)) <= elems
    ensures |Touched(elems, inv)| == |csr.data|
  {
    forall e | e in inv.keys ensures e in elems {
      var k :| 0 <= k < |inv.keys| && inv.keys[k] == e;
      assert RowIsExact(inv, csr, k);
      var p := inv.Row(k)[0];
      assert p in inv.Row(k);
      assert e in ToSet(csr.Patch(p));
    }
    TouchedAll(elems, inv);
  }

  // ----- patch-partitioned mode ------------------------------------------------

  /** The state a patch-partitioned solve ends in. */
  ghost predicate PatchModeEnded(ranks: seq<ByPatch.PatchRank>, l: Layout, sel: seq<nat>)
    reads ranks
  {
    ByPatch.Ready(ranks, l) && IsGreedyResult(l.All(), l.n, sel) && ByPatch.AllTrack(ranks, l, sel, sel)
  }

  ghost function PatchModeDecrements(ranks: seq<ByPatch.PatchRank>): (work: seq<int>)
    reads ranks
    ensures |work| == |ranks| && forall r :: 0 <= r < |ranks| ==> work[r] == ranks[r].decrements
  {
    seq(|ranks|, r requires 0 <= r < |ranks| reads ranks => ranks[r].decrements)
  }

  /** When a solve ends, the decrements of all ranks add up to the sizes of all patches,
      whether or not the patches cover the universe. */
  lemma PatchModeWork(ranks: seq<ByPatch.PatchRank>, l: Layout, sel: seq<nat>)
    requires PatchModeEnded(ranks, l, sel)
    ensures l.Valid() && Sum(PatchModeDecrements(ranks)) == Sum(Sizes(l.All()))
  {
    EndedLayout(ranks, l, sel);
    hide PatchModeEnded, Layout.Valid, Layout.All, Sum;
    forall r | 0 <= r < |ranks| ensures ranks[r].decrements == |l.stores[r].data| { RankWork(ranks, l, sel, r); }
    assert PatchModeDecrements(ranks) == DataSizes(l.stores);
    StoresTotal(l);
  }

  lemma EndedLayout(ranks: seq<ByPatch.PatchRank>, l: Layout, sel: seq<nat>)
    requires PatchModeEnded(ranks, l, sel)
    ensures l.Valid() && |ranks| == |l.stores|
    ensures forall p :: 0 <= p < |l.All()| ==> l.All()[p] <= Covered(l.All(), sel)
  {
    hide Covered, Layout.All;
    forall p | 0 <= p < |l.All()| ensures l.All()[p] <= Range(l.n) { AllWithin(l, p); }
    NothingMissing(l.All(), l.n, sel);
  }

  lemma RankWork(ranks: seq<ByPatch.PatchRank>, l: Layout, sel: seq<nat>, r: nat)
    requires PatchModeEnded(ranks, l, sel) && r < |ranks| == |l.stores|
    ensures ranks[r].decrements == |l.stores[r].data|
  {
    hide Touched, Covered, ByPatch.ScoresTrack, Exhausted, IsGreedyRun;
    EndedLayout(ranks, l, sel);
    assert ranks[r].Tracks(l.All(), l.Base(r), sel, sel);
    IndexServed(ranks[r].inv, ranks[r].patches, Covered(l.All(), sel));
  }

  /** The patch-partitioned solve, with its total work. */
  method SolveByPatch(ranks: seq<ByPatch.PatchRank>, ghost l: Layout) returns (ghost sel: seq<nat>)
    requires ByPatch.Ready(ranks, l) && ByPatch.AllTrack(ranks, l, [], [])
    requires ByPatch.AllLogged(ranks, PatchSelection([], 0, 0))
    modifies ranks
    ensures |l.AllIds()| == |l.All()| && PatchModeEnded(ranks, l, sel)
    ensures forall r :: 0 <= r < |ranks| ==> IsGreedySelection(l.All(), l.n, l.AllIds(), ranks[r].Result())
    ensures Sum(PatchModeDecrements(ranks)) == Sum(Sizes(l.All()))
  {
    hide ByPatch.Ready, ByPatch.AllTrack, IsGreedyResult, IsGreedySelection, Layout.All, Layout.AllIds;
    sel := ByPatch.Solve(ranks, l);
    PatchModeWork(ranks, l, sel);
  }

  // ----- element shards: the same total, summed the other way ------------------

  ghost function ShardTotals(all: seq<set<nat>>, n: nat, size: nat, k: nat): (t: seq<int>)
    requires size > 0 && k <= |all|
    ensures |t| == size
  {
    if k == 0 then seq(size, _ => 0)
    else
      var before, row := ShardTotals(all, n, size, k - 1), LocalSizes(all[k - 1], n, size);
      seq(size, r requires 0 <= r < size => before[r] + row[r])
  }

  lemma {:induction false} ShardTotalsSum(all: seq<set<nat>>, n: nat, size: nat, k: nat)
    requires size > 0 && k <= |all| && forall s :: 0 <= s < |all| ==> all[s] <= Range(n)
    ensures Sum(ShardTotals(all, n, size, k)) == Sum(Sizes(all)[..k])
  {
    if k == 0 {
      SumConstant(ShardTotals(all, n, size, 0), 0);
    } else {
      ShardTotalsSum(all, n, size, k - 1);
      SumPlus(ShardTotals(all, n, size, k - 1), LocalSizes(all[k - 1], n, size), ShardTotals(all, n, size, k));
      LocalSizesSum(all[k - 1], n, size);
      SumPrefix(Sizes(all), k - 1);
    }
  }

  lemma {:induction false} ShardTotalIs(sub: PatchCsr, all: seq<set<nat>>, n: nat, size: nat, r: nat, k: nat)
    requires size > 0 && r < size && IsShardOf(sub, all, ShardBase(n, size, r), ShardExtent(n, size, r)) && k <= |all|
    ensures ShardTotals(all, n, size, k)[r] == sub.offsets[k]
  {
    if k > 0 {
      ShardTotalIs(sub, all, n, size, r, k - 1);
      DistinctSize(sub.Patch(k - 1));
      assert ToSet(sub.Patch(k - 1)) == Local(all[k - 1], ShardBase(n, size, r), ShardExtent(n, size, r));
    }
  }

  /** The state an element-partitioned solve ends in. */
  ghost predicate ElementModeEnded(ranks: seq<ByElement.ElemRank>, all: seq<set<nat>>, n: nat, sel: seq<nat>)
    reads ranks
  {
    ByElement.Ready(ranks, all, n) && IsGreedyResult(all, n, sel) && ByElement.AllTrack(ranks, all, n, sel, true)
  }

  ghost function ElementModeDecrements(ranks: seq<ByElement.ElemRank>): (work: seq<int>)
    reads ranks
    ensures |work| == |ranks| && forall r :: 0 <= r < |ranks| ==> work[r] == ranks[r].decrements
  {
    seq(|ranks|, r requires 0 <= r < |ranks| reads ranks => ranks[r].decrements)
  }

  /** Element-partitioned mode: the same total, although no rank holds a whole patch. */
  lemma ElementModeWork(ranks: seq<ByElement.ElemRank>, all: seq<set<nat>>, n: nat, sel: seq<nat>)
    requires ElementModeEnded(ranks, all, n, sel)
    ensures Sum(ElementModeDecrements(ranks)) == Sum(Sizes(all))
  {
    EndedShards(ranks, all, n, sel);
    hide ElementModeEnded, ShardTotals, Sum;
    forall r | 0 <= r < |ranks| ensures ranks[r].decrements == ShardTotals(all, n, |ranks|, |all|)[r] {
      ShardWork(ranks, all, n, sel, r);
    }
    assert ElementModeDecrements(ranks) == ShardTotals(all, n, |ranks|, |all|);
    ShardTotalsSum(all, n, |ranks|, |all|);
    assert Sizes(all)[..|all|] == Sizes(all);
  }

  lemma EndedShards(ranks: seq<ByElement.ElemRank>, all: seq<set<nat>>, n: nat, sel: seq<nat>)
    requires ElementModeEnded(ranks, all, n, sel)
    ensures ranks != [] && InRange(all, sel)
    ensures forall p :: 0 <= p < |all| ==> all[p] <= Range(n) && all[p] <= Covered(all, sel)
  {
    hide Covered;
    NothingMissing(all, n, sel);
  }

  lemma ShardWork(ranks: seq<ByElement.ElemRank>, all: seq<set<nat>>, n: nat, sel: seq<nat>, r: nat)
    requires ElementModeEnded(ranks, all, n, sel) && r < |ranks|
    ensures ranks[r].decrements == ShardTotals(all, n, |ranks|, |all|)[r]
  {
    hide Covered, ShardBase, ShardExtent, Bits, Touched, ByElement.PartialsTrack, Exhausted, IsGreedyRun, ShardTotals;
    EndedShards(ranks, all, n, sel);
    var rank, base := ranks[r], ShardBase(n, |ranks|, r);
    assert rank.At(all, base, sel, true);
    RowsServed(rank.sub, all, base, rank.extent, Covered(all, sel));
    IndexServed(rank.inv, rank.sub, Bits(rank.covered));
    ShardTotalIs(rank.sub, all, n, |ranks|, r, |all|);
  }

  lemma RowsServed(sub: PatchCsr, all: seq<set<nat>>, base: nat, extent: nat, c: set<nat>)
    requires IsShardOf(sub, all, base, extent) && forall p :: 0 <= p < |all| ==> all[p] <= c
    ensures sub.Valid() && forall s :: 0 <= s < sub.M() ==> ToSet(sub.Patch(s)) <= Local(c, base, extent)
  {
    forall s | 0 <= s < sub.M() ensures ToSet(sub.Patch(s)) <= Local(c, base, extent) {
      assert ToSet(sub.Patch(s)) == Local(all[s], base, extent);
    }
  }

  /** The element-partitioned solve for any batch size, with its total work. */
  method SolveByElement(ranks: seq<ByElement.ElemRank>, batch: nat, ghost all: seq<set<nat>>, ghost n: nat)
    returns (ghost sel: seq<nat>)
    requires ByElement.Ready(ranks, all, n) && all != [] && n > 0 && batch > 0 && ByElement.AllTrack(ranks, all, n, [], false)
    modifies ranks
    ensures ElementModeEnded(ranks, all, n, sel)
    ensures Sum(ElementModeDecrements(ranks)) == Sum(Sizes(all))
  {
    hide ByElement.Ready, ByElement.AllTrack, IsGreedyResult;
    sel := ByElement.SelectSlots(ranks, batch, all, n);
    ElementModeWork(ranks, all, n, sel);
  }
}
