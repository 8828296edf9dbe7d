/** From raw hashes to a selection: both distributed modes against the one-process reference. */
module Solver {
  import opened Sequences
  import opened Collectives
  import opened Csr
  import opened Slots
  import opened GreedyCover
  import opened PatchSet
  import opened Partition
  import SampleSort
  import BruteForce
  import ByPatch
  import ByElement
  import ElementShards

  /** The patches as sets of dense IDs, as one process would number them. */
  ghost function ReferenceSets(patches: seq<seq<nat>>): (s: seq<set<nat>>)
    ensures |s| == |patches|
    ensures forall p :: 0 <= p < |patches| ==> s[p] == ToSet(TranslatePatch(GlobalHashes(patches), patches[p]))
  {
    seq(|patches|, p requires 0 <= p < |patches| => ToSet(TranslatePatch(GlobalHashes(patches), patches[p])))
  }

  /** Numbering by hash always yields patches that cover the whole universe. */
  lemma ReferenceCovers(patches: seq<seq<nat>>)
    ensures CoversUniverse(ReferenceSets(patches), |GlobalHashes(patches)|)
  {
    var sets, n := ReferenceSets(patches), |GlobalHashes(patches)|;
    forall p | 0 <= p < |sets| ensures sets[p] <= Range(n) {
      forall e | e in sets[p] ensures e in Range(n) { IdsBelow(patches, p, e); }
    }
    forall e | e in Range(n) ensures exists p :: 0 <= p < |sets| && e in sets[p] {
      var p := IdsOccur(patches, e);
      assert e in sets[p];
    }
  }

  /** A numbered patch has as many elements as the patch has distinct hashes. */
  lemma ReferenceSizes(patches: seq<seq<nat>>, p: nat)
    requires p < |patches|
    ensures |ReferenceSets(patches)[p]| == |ToSet(patches[p])|
  {
    hide GlobalHashes;
    var global := GlobalHashes(patches);
    var ids := TranslatePatch(global, patches[p]);
    PatchHashesKnown(patches, p);
    forall e: nat ensures e in ids <==> e < |global| && global[e] in patches[p] { TranslateMember(global, patches[p], e); }
    hide TranslatePatch;
    forall i | 0 <= i < |ids| ensures ids[i] < |global| { assert ids[i] in ids; }
    var hashes := seq(|ids|, i requires 0 <= i < |ids| => global[ids[i]]);
    forall h ensures h in ToSet(hashes) <==> h in ToSet(patches[p]) {
      if i :| 0 <= i < |hashes| && hashes[i] == h { assert ids[i] in ids; }
      if h in patches[p] {
        IdIsIndex(global, h);
        var i :| 0 <= i < |ids| && ids[i] == IdOf(global, h);
        assert hashes[i] == h;
      }
    }
    assert ToSet(hashes) == ToSet(patches[p]);
    DistinctSize(hashes);
    DistinctSize(ids);
    assert ReferenceSets(patches)[p] == ToSet(ids);
  }

  lemma StoreOfLists(lists: seq<seq<nat>>, n: nat)
    requires forall p :: 0 <= p < |lists| ==> StrictlyAscending(lists[p])
    requires forall p, e :: 0 <= p < |lists| && e in lists[p] ==> e < n
    ensures CsrOf(lists).Clean(n) && CsrOf(lists).M() == |lists| && CsrOf(lists).Lists() == lists
    ensures CsrOf(lists).Sets() == Each((s: seq<nat>) => ToSet(s), lists)
  {
    CsrOfHolds(lists);
    var csr := CsrOf(lists);
    forall i | 0 <= i < |csr.data| ensures csr.data[i] < n {
      var p, k := FlattenLocate(lists, i);
      assert lists[p][k] in lists[p];
    }
    assert csr.Sets() == Each((s: seq<nat>) => ToSet(s), lists);
  }

  ghost function ListsOfRanks(outs: seq<IdMappedPatches>): (l: seq<seq<seq<nat>>>)
    ensures |l| == |outs| && forall r :: 0 <= r < |outs| ==> l[r] == outs[r].idPatches
  {
    seq(|outs|, r requires 0 <= r < |outs| => outs[r].idPatches)
  }

  ghost function MappedLayout(outs: seq<IdMappedPatches>, ids: seq<seq<nat>>, n: nat): Layout {
    Layout(seq(|outs|, r requires 0 <= r < |outs| => CsrOf(outs[r].idPatches)), ids, n)
  }

  lemma MappedLayoutValid(raw: seq<seq<seq<nat>>>, outs: seq<IdMappedPatches>, ids: seq<seq<nat>>, n: nat)
    requires IsMapped(raw, outs) && |raw| > 0 && |ids| == |raw| && n == |GlobalHashes(Flatten(raw))|
    requires forall r :: 0 <= r < |raw| ==> |ids[r]| == |raw[r]|
    ensures MappedLayout(outs, ids, n).Valid()
    ensures ElementShards.ListsOf(MappedLayout(outs, ids, n), ListsOfRanks(outs))
    ensures MappedLayout(outs, ids, n).All() == ReferenceSets(Flatten(raw))
  {
    MappedStores(raw, outs, ids, n);
    hide Layout.Valid, ElementShards.ListsOf, GlobalHashes, Translate, TranslatePatch, MappedLayout, IsMapped;
    FlattenEach((s: seq<nat>) => ToSet(s), ListsOfRanks(outs));
    MappedIsLocal(raw, outs, ListsOfRanks(outs));
    assert MappedLayout(outs, ids, n).All() == ReferenceSets(Flatten(raw));
  }

  lemma MappedStores(raw: seq<seq<seq<nat>>>, outs: seq<IdMappedPatches>, ids: seq<seq<nat>>, n: nat)
    requires IsMapped(raw, outs) && |raw| > 0 && |ids| == |raw| && n == |GlobalHashes(Flatten(raw))|
    requires forall r :: 0 <= r < |raw| ==> |ids[r]| == |raw[r]|
    ensures MappedLayout(outs, ids, n).Valid()
    ensures ElementShards.ListsOf(MappedLayout(outs, ids, n), ListsOfRanks(outs))
    ensures MappedLayout(outs, ids, n).Sets() == EachRank((s: seq<nat>) => ToSet(s), ListsOfRanks(outs))
  {
    hide GlobalHashes, Translate, TranslatePatch;
    var l := MappedLayout(outs, ids, n);
    forall r | 0 <= r < |outs|
      ensures l.stores[r].Clean(n) && |ids[r]| == l.stores[r].M() && l.stores[r].Lists() == outs[r].idPatches
      ensures l.stores[r].Sets() == Each((s: seq<nat>) => ToSet(s), outs[r].idPatches)
    {
      RankStore(raw, outs, r);
    }
    assert l.Valid();
    assert l.Sets() == EachRank((s: seq<nat>) => ToSet(s), ListsOfRanks(outs));
  }

  lemma RankStore(raw: seq<seq<seq<nat>>>, outs: seq<IdMappedPatches>, r: nat)
    requires IsMapped(raw, outs) && r < |outs|
    ensures var n, csr := |GlobalHashes(Flatten(raw))|, CsrOf(outs[r].idPatches);
            && csr.Clean(n) && csr.M() == |raw[r]| && csr.Lists() == outs[r].idPatches
            && csr.Sets() == Each((s: seq<nat>) => ToSet(s), outs[r].idPatches)
    ensures forall p :: 0 <= p < |outs[r].idPatches| ==> StrictlyAscending(outs[r].idPatches[p])
  {
    var global, lists := GlobalHashes(Flatten(raw)), outs[r].idPatches;
    forall p, e | 0 <= p < |lists| && e in lists[p] ensures e < |global| {
      forall h | h in raw[r][p] ensures h in global { HashKnown(raw, r, p, h); }
      TranslateMember(global, raw[r][p], e);
    }
    StoreOfLists(lists, |global|);
  }

  // ----- the three solvers on raw patches --------------------------------------

  /** One process: number the hashes, build the store, run the reference loop. */
  method SelectReference(patches: seq<seq<nat>>) returns (result: PatchSelection)
    ensures IsGreedySelection(ReferenceSets(patches), |GlobalHashes(patches)|, BruteForce.Identity(|patches|), result)
  {
    var global := GlobalHashes(patches);
    var lists := Translate(global, patches);
    var csr := BuildPatchCsr(lists);
    forall p, e | 0 <= p < |lists| && e in lists[p] ensures e < |global| { IdsBelow(patches, p, e); }
    StoreOfLists(lists, |global|);
    assert csr.Sets() == ReferenceSets(patches);
    result := BruteForce.BruteForceSelect(csr, |global|);
  }

  /** Patch-partitioned mode on every rank's raw patches and IDs. */
  method SelectByPatch(raw: seq<seq<seq<nat>>>, ids: seq<seq<nat>>) returns (results: seq<PatchSelection>)
    requires |raw| > 0 && |ids| == |raw| && forall r :: 0 <= r < |raw| ==> |ids[r]| == |raw[r]|
    ensures |results| == |raw| && |Flatten(ids)| == |Flatten(raw)|
    ensures forall r :: 0 <= r < |raw| ==>
      IsGreedySelection(ReferenceSets(Flatten(raw)), |GlobalHashes(Flatten(raw))|, Flatten(ids), results[r])
  {
    hide IsMapped, GlobalHashes, IsGreedySelection, Layout.Valid, ByPatch.AllTrack, ByPatch.AllLogged, Layout.Base, Layout.All;
    var outs := SampleSort.MapHashesToElementIds(raw);
    MappedSizes(raw, outs);
    ghost var l := MappedLayout(outs, ids, outs[0].n);
    MappedLayoutValid(raw, outs, ids, outs[0].n);
    results := SolveMapped(outs, ids, outs[0].n, l);
  }

  lemma MappedSizes(raw: seq<seq<seq<nat>>>, outs: seq<IdMappedPatches>)
    requires IsMapped(raw, outs) && |raw| > 0
    ensures |outs| == |raw| && outs[0].n == |GlobalHashes(Flatten(raw))|
  {
  }

  /** A rank as the mapping leaves it: its own store, nothing selected. */
  ghost predicate StartsAs(rank: ByPatch.PatchRank, l: Layout, r: nat)
    requires l.Valid() && r < |l.stores|
    reads rank
  {
    && rank.Built() && rank.patches == l.stores[r] && rank.globalIds == l.ids[r] && rank.universe == l.n
    && rank.Tracks(l.All(), l.Base(r), [], []) && rank.Result() == PatchSelection([], 0, 0)
  }

  method BuildPatchRank(lists: seq<seq<nat>>, ids: seq<nat>, n: nat, ghost l: Layout, ghost r: nat) returns (rank: ByPatch.PatchRank)
    requires l.Valid() && r < |l.stores| && l.stores[r] == CsrOf(lists) && l.ids[r] == ids && l.n == n
    ensures fresh(rank) && StartsAs(rank, l, r)
  {
    hide ByPatch.PatchRank.Tracks, Layout.Base, Layout.All;
    var csr := BuildPatchCsr(lists);
    rank := new ByPatch.PatchRank(csr, ids, n);
    SlotsMatch(l, r);
  }

  method BuildPatchRanks(outs: seq<IdMappedPatches>, ids: seq<seq<nat>>, n: nat, ghost l: Layout) returns (ranks: seq<ByPatch.PatchRank>)
    requires l == MappedLayout(outs, ids, n) && l.Valid()
    ensures fresh(ranks) && ByPatch.Ready(ranks, l)
    ensures ByPatch.AllTrack(ranks, l, [], []) && ByPatch.AllLogged(ranks, PatchSelection([], 0, 0))
  {
    hide StartsAs, Layout.Base, Layout.All;
    ranks := [];
    for r := 0 to |outs|
      invariant |ranks| == r && Distinct(ranks) && fresh(ranks)
      invariant forall q :: 0 <= q < r ==> StartsAs(ranks[q], l, q)
    {
      var rank := BuildPatchRank(outs[r].idPatches, ids[r], n, l, r);
      ranks := ranks + [rank];
    }
    AllStart(ranks, l);
  }

  lemma AllStart(ranks: seq<ByPatch.PatchRank>, l: Layout)
    requires l.Valid() && |ranks| == |l.stores| && Distinct(ranks)
    requires forall q :: 0 <= q < |ranks| ==> StartsAs(ranks[q], l, q)
    ensures ByPatch.Ready(ranks, l)
    ensures ByPatch.AllTrack(ranks, l, [], []) && ByPatch.AllLogged(ranks, PatchSelection([], 0, 0))
  {
    hide ByPatch.PatchRank.Tracks, ByPatch.PatchRank.Built, Layout.Base, Layout.All, Layout.Valid;
  }

  method SolveMapped(outs: seq<IdMappedPatches>, ids: seq<seq<nat>>, n: nat, ghost l: Layout) returns (results: seq<PatchSelection>)
    requires l == MappedLayout(outs, ids, n) && l.Valid()
    ensures |l.AllIds()| == |l.All()| && |results| == |outs|
    ensures forall r :: 0 <= r < |results| ==> IsGreedySelection(l.All(), n, l.AllIds(), results[r])
  {
    hide IsGreedySelection, Layout.Valid, ByPatch.AllTrack, ByPatch.AllLogged, Layout.Base, Layout.All;
    var ranks := BuildPatchRanks(outs, ids, n, l);
    ghost var sel;
    sel := ByPatch.Solve(ranks, l);
    results := ByPatch.Results(ranks);
  }

  /** Element-partitioned mode on every rank's raw patches and IDs, for any batch size. */
  method SelectByElement(raw: seq<seq<seq<nat>>>, ids: seq<seq<nat>>, batch: nat) returns (outcome: ByElement.Outcome)
    requires |raw| > 0 && |ids| == |raw| && forall r :: 0 <= r < |raw| ==> |ids[r]| == |raw[r]|
    requires batch > 0 && ByElement.ShortRows(ReferenceSets(Flatten(raw)), |GlobalHashes(Flatten(raw))|, |raw|)
    ensures |Flatten(ids)| == |Flatten(raw)|
    ensures ByElement.IsOutcome(ReferenceSets(Flatten(raw)), |GlobalHashes(Flatten(raw))|, Flatten(ids), |raw|, outcome)
    ensures outcome.Solved? <==>
      |Flatten(raw)| <= 2147483647 && forall p :: 0 <= p < |Flatten(raw)| ==> |ReferenceSets(Flatten(raw))[p]| <= 2147483646 - |raw|
  {
    hide IsMapped, GlobalHashes, IsGreedySelection, Layout.Valid, Layout.Base, Layout.All, ElementShards.ListsOf, ByElement.ShortRows,
      ByElement.IsOutcome;
    var outs := SampleSort.MapHashesToElementIds(raw);
    MappedSizes(raw, outs);
    var n := outs[0].n;
    ghost var l := MappedLayout(outs, ids, n);
    MappedLayoutValid(raw, outs, ids, n);
    var lists := seq(|outs|, r requires 0 <= r < |outs| => outs[r].idPatches);
    assert lists == ListsOfRanks(outs);
    outcome := ByElement.Solve(lists, ids, n, batch, l);
  }

  // ----- agreement -------------------------------------------------------------

  /** For arbitrary caller IDs both modes report the same selection on every rank. */
  lemma ModesAgree(raw: seq<seq<seq<nat>>>, ids: seq<seq<nat>>, a: PatchSelection, b: PatchSelection)
    requires |Flatten(ids)| == |Flatten(raw)|
    requires IsGreedySelection(ReferenceSets(Flatten(raw)), |GlobalHashes(Flatten(raw))|, Flatten(ids), a)
    requires IsGreedySelection(ReferenceSets(Flatten(raw)), |GlobalHashes(Flatten(raw))|, Flatten(ids), b)
    ensures a == b
  {
    SelectionUnique(ReferenceSets(Flatten(raw)), |GlobalHashes(Flatten(raw))|, Flatten(ids), a, b);
  }

  lemma ReportSelected(sets: seq<set<nat>>, sel: seq<nat>)
    requires InRange(sets, sel)
    ensures var r := Report(sets, BruteForce.Identity(|sets|), sel);
            r.selected == sel && r.coveredCount == |Covered(sets, sel)| && r.iterations == |sel|
  {
    hide Covered;
  }

  /** Every reported selection covers the universe, repeats no patch, and counts its rounds. */
  lemma SelectionCovers(patches: seq<seq<nat>>, result: PatchSelection)
    requires IsGreedySelection(ReferenceSets(patches), |GlobalHashes(patches)|, BruteForce.Identity(|patches|), result)
    ensures result.coveredCount == |GlobalHashes(patches)|
    ensures InRange(ReferenceSets(patches), result.selected)
    ensures Covered(ReferenceSets(patches), result.selected) == Range(|GlobalHashes(patches)|)
    ensures Distinct(result.selected) && result.iterations == |result.selected| <= |patches|
  {
    var sets, n, ids := ReferenceSets(patches), |GlobalHashes(patches)|, BruteForce.Identity(|patches|);
    var sel :| IsGreedyResult(sets, n, sel) && result == Report(sets, ids, sel);
    ReportSelected(sets, sel);
    hide ReferenceSets, GlobalHashes, Report, Exhausted;
    ReferenceCovers(patches);
    GreedyCovers(sets, n, sel);
    RunDistinct(sets, n, sel);
  }

  datatype Answer = BadIds(rank: nat) | Answered(results: seq<PatchSelection>) | Refused(reason: ByElement.Outcome)

  /** The public entry: one ID per patch on every rank, then the chosen mode, which in
      element mode runs the fixed batch. */
  method PatchSelect(raw: seq<seq<seq<nat>>>, ids: seq<seq<nat>>, byElement: bool) returns (answer: Answer)
    requires |raw| > 0 && |ids| == |raw|
    requires byElement ==> ByElement.ShortRows(ReferenceSets(Flatten(raw)), |GlobalHashes(Flatten(raw))|, |raw|)
    ensures answer.BadIds? <==> exists r :: 0 <= r < |raw| && |ids[r]| != |raw[r]|
    ensures answer.BadIds? ==>
      && answer.rank < |raw| && |ids[answer.rank]| != |raw[answer.rank]|
      && forall q :: 0 <= q < answer.rank ==> |ids[q]| == |raw[q]|
    ensures !answer.BadIds? && !byElement ==> answer.Answered?
    ensures !answer.BadIds? && byElement ==>
      (answer.Answered? <==>
        |Flatten(raw)| <= 2147483647 && forall p :: 0 <= p < |Flatten(raw)| ==> |ReferenceSets(Flatten(raw))[p]| <= 2147483646 - |raw|)
    ensures !answer.BadIds? ==> |Flatten(ids)| == |Flatten(raw)|
    ensures answer.Answered? ==> |answer.results| == |raw| && forall r :: 0 <= r < |raw| ==>
      IsGreedySelection(ReferenceSets(Flatten(raw)), |GlobalHashes(Flatten(raw))|, Flatten(ids), answer.results[r])
    ensures answer.Refused? ==>
      ByElement.IsOutcome(ReferenceSets(Flatten(raw)), |GlobalHashes(Flatten(raw))|, Flatten(ids), |raw|, answer.reason)
  {
    hide Flatten, GlobalHashes, IsGreedySelection, ByElement.ShortRows;
    for r := 0 to |raw|
      invariant forall q :: 0 <= q < r ==> |ids[q]| == |raw[q]|
    {
      if |ids[r]| != |raw[r]| { return BadIds(r); }
    }
    if byElement {
      var outcome := SelectByElement(raw, ids, ByElement.BATCH);
      answer := if outcome.Solved? then Answered(outcome.results) else Refused(outcome);
    } else {
      var results := SelectByPatch(raw, ids);
      answer := Answered(results);
    }
  }

  /** A patch set split over the ranks by the library's own rule: both distributed modes
      report, on every rank, exactly what the one-process reference reports. */
  method SolveSplit(patches: seq<seq<nat>>, size: nat, batch: nat)
    returns (reference: PatchSelection, byPatch: seq<PatchSelection>, byElement: ByElement.Outcome)
    requires size > 0 && batch > 0
    requires ByElement.ShortRows(ReferenceSets(patches), |GlobalHashes(patches)|, size)
    ensures IsGreedySelection(ReferenceSets(patches), |GlobalHashes(patches)|, BruteForce.Identity(|patches|), reference)
    ensures |byPatch| == size && forall r :: 0 <= r < size ==> byPatch[r] == reference
    ensures byElement.Solved? <==>
      |patches| <= 2147483647 && forall p :: 0 <= p < |patches| ==> |ReferenceSets(patches)[p]| <= 2147483646 - size
    ensures byElement.Solved? ==> |byElement.results| == size && forall r :: 0 <= r < size ==> byElement.results[r] == reference
  {
    var raw, ids: seq<seq<nat>> := [], [];
    for r := 0 to size
      invariant |raw| == |ids| == r
      invariant forall q :: 0 <= q < r ==> raw[q] == Part(patches, q, size) && |ids[q]| == |raw[q]|
      invariant forall q, i :: 0 <= q < r && 0 <= i < |ids[q]| ==> ids[q][i] == SplitPoint(|patches|, q, size) + i
    {
      var slice: PatchSlice<nat> := SlicePatchesByRank(patches, r, size);
      raw, ids := raw + [slice.patches], ids + [slice.globalIds];
    }
    SplitIsWhole(patches, size, raw, ids);
    reference := SelectReference(patches);
    byPatch := SelectByPatch(raw, ids);
    byElement := SelectByElement(raw, ids, batch);
    forall r | 0 <= r < size ensures byPatch[r] == reference { ModesAgree(raw, ids, byPatch[r], reference); }
    if byElement.Solved? {
      forall r | 0 <= r < size ensures byElement.results[r] == reference {
        ModesAgree(raw, ids, byElement.results[r], reference);
      }
    }
  }

  lemma SplitIsWhole(patches: seq<seq<nat>>, size: nat, raw: seq<seq<seq<nat>>>, ids: seq<seq<nat>>)
    requires size > 0 && |raw| == |ids| == size
    requires forall q :: 0 <= q < size ==> raw[q] == Part(patches, q, size) && |ids[q]| == |raw[q]|
    requires forall q, i :: 0 <= q < size && 0 <= i < |ids[q]| ==> ids[q][i] == SplitPoint(|patches|, q, size) + i
    ensures Flatten(raw) == patches && Flatten(ids) == BruteForce.Identity(|patches|)
  {
    hide SplitPoint, Flatten;
    PartsTile(patches, size);
    assert raw == Parts(patches, size);
    forall q | 0 <= q < size ensures |ids[q]| == SplitPoint(|patches|, q + 1, size) - SplitPoint(|patches|, q, size) {
      SplitAscends(|patches|, q, q + 1, size);
    }
    SliceIdsCount(|patches|, size, ids, size);
    SplitEnds(|patches|, size);
    assert ids[..size] == ids;
  }
}
