/** The patch-partitioned solver: every rank keeps the scores of its own patches and a
    full covered bitset, and a round ships the winner's newly covered elements. */
module ByPatch {
  import opened Sequences
  import opened Bitset
  import opened Csr
  import opened InvertedIndexes
  import opened Kernels
  import opened Collectives
  import opened GreedyCover
  import opened Slots

  const DISABLED_SCORE: int := -1

  // ----- what a rank's buffers stand for ---------------------------------------

  /** A score is the number of elements still missing, or -1 once the patch is switched off. */
  ghost predicate ScoresTrack(all: seq<set<nat>>, base: nat, m: nat, sel: seq<nat>, off: seq<nat>, scores: seq<int>)
    requires InRange(all, sel) && base + m <= |all|
  {
    && |scores| == m
    && forall p :: 0 <= p < m ==> scores[p] == if base + p in off then DISABLED_SCORE else Gain(all, sel, base + p)
  }

  lemma HitsAreShared(patches: PatchCsr, inv: InvertedIndex, newly: set<nat>, q: nat)
    requires patches.Valid() && IsTranspose(inv, patches) && q < patches.M()
    ensures Hits(newly, inv, q) == newly * ToSet(patches.Patch(q))
  {
    forall e | e in newly ensures q in inv.PatchesOf(e) <==> e in patches.Patch(q) {
      TransposeExact(inv, patches, e);
    }
  }

  /** Covering one more patch costs another exactly the newly covered elements they share. */
  lemma GainDrops(all: seq<set<nat>>, sel: seq<nat>, w: nat, s: nat)
    requires InRange(all, sel) && w < |all| && s < |all|
    ensures InRange(all, sel + [w])
    ensures Gain(all, sel + [w], s) == Gain(all, sel, s) - |(all[w] - Covered(all, sel)) * all[s]|
  {
    CoveredSnoc(all, sel, w);
    var c := Covered(all, sel);
    var left, lost := all[s] - (c + all[w]), (all[w] - c) * all[s];
    assert all[s] - c == left + lost;
  }

  lemma SelectedSharesNothing(all: seq<set<nat>>, sel: seq<nat>, w: nat, s: nat)
    requires InRange(all, sel) && w < |all| && s in sel
    ensures s < |all| && (all[w] - Covered(all, sel)) * all[s] == {}
  {
    var i :| 0 <= i < |sel| && sel[i] == s;
    CoveredContains(all, sel, i);
  }

  lemma UpdateTracks(patches: PatchCsr, inv: InvertedIndex, all: seq<set<nat>>, base: nat, sel: seq<nat>, w: nat,
                     before: seq<int>, after: seq<int>)
    requires patches.Valid() && IsTranspose(inv, patches) && Placed(patches, all, base)
    requires InRange(all, sel) && w < |all|
    requires ScoresTrack(all, base, patches.M(), sel, sel, before)
    requires |after| == |before|
    requires forall q :: 0 <= q < |before| ==> after[q] == before[q] - |Hits(all[w] - Covered(all, sel), inv, q)|
    ensures InRange(all, sel + [w]) && ScoresTrack(all, base, patches.M(), sel + [w], sel, after)
  {
    hide Hits, Gain, Covered, IsTranspose, Placed, InRange;
    CoveredSnoc(all, sel, w);
    PlacedInside(patches, all, base);
    forall q | 0 <= q < patches.M()
      ensures after[q] == if base + q in sel then DISABLED_SCORE else Gain(all, sel + [w], base + q)
    {
      SlotUpdate(patches, inv, all, base, sel, w, q, before[q]);
    }
  }

  lemma PlacedInside(patches: PatchCsr, all: seq<set<nat>>, base: nat)
    requires patches.Valid() && Placed(patches, all, base)
    ensures base + patches.M() <= |all|
  {
  }

  /** What one slot loses in a round: what its patch shares with the newly covered elements,
      and nothing if it is switched off. */
  lemma SlotUpdate(patches: PatchCsr, inv: InvertedIndex, all: seq<set<nat>>, base: nat, sel: seq<nat>, w: nat, q: nat, score: int)
    requires patches.Valid() && IsTranspose(inv, patches) && Placed(patches, all, base)
    requires InRange(all, sel) && InRange(all, sel + [w]) && w < |all| && q < patches.M() && base + q < |all|
    requires score == if base + q in sel then DISABLED_SCORE else Gain(all, sel, base + q)
    ensures score - |Hits(all[w] - Covered(all, sel), inv, q)|
            == if base + q in sel then DISABLED_SCORE else Gain(all, sel + [w], base + q)
  {
    hide Hits, Gain, IsTranspose;
    HitsAreShared(patches, inv, all[w] - Covered(all, sel), q);
    GainDrops(all, sel, w, base + q);
    if base + q in sel { SelectedSharesNothing(all, sel, w, base + q); }
  }

  lemma DisableTracks(all: seq<set<nat>>, base: nat, m: nat, sel: seq<nat>, w: nat, scores: seq<int>, after: seq<int>)
    requires InRange(all, sel + [w]) && base + m <= |all|
    requires ScoresTrack(all, base, m, sel + [w], sel, scores)
    requires after == if base <= w < base + m then scores[w - base := DISABLED_SCORE] else scores
    ensures ScoresTrack(all, base, m, sel + [w], sel + [w], after)
  {
    hide Gain, Covered;
  }

  /** A switched-off patch can never win: it has score -1, and gains nothing anyway. */
  lemma ScoreVersusGain(all: seq<set<nat>>, base: nat, m: nat, sel: seq<nat>, scores: seq<int>, p: nat)
    requires InRange(all, sel) && base + m <= |all| && ScoresTrack(all, base, m, sel, sel, scores) && p < m
    ensures scores[p] <= Gain(all, sel, base + p)
    ensures scores[p] > 0 || Gain(all, sel, base + p) > 0 ==> scores[p] == Gain(all, sel, base + p) && base + p !in sel
  {
    if base + p in sel { SelectedGainsNothing(all, sel, base + p); }
  }

  // ----- one rank --------------------------------------------------------------

  class PatchRank {
    const patches: PatchCsr
    const inv: InvertedIndex
    const globalIds: seq<nat>
    const universe: nat

    var scores: seq<int>
    var covered: seq<bool>
    var newly: seq<nat>
    var selected: seq<nat>
    var coveredCount: nat
    var iterations: nat
    ghost var decrements: nat

    ghost predicate Built() {
      && patches.Clean(universe)
      && IsTranspose(inv, patches)
      && |globalIds| == patches.M()
    }

    /** The buffers after selecting sel, with the scores of the slots in off switched off. */
    ghost predicate Tracks(all: seq<set<nat>>, base: nat, sel: seq<nat>, off: seq<nat>)
      reads this`scores, this`covered, this`decrements
    {
      && Built() && Placed(patches, all, base) && InRange(all, sel)
      && ScoresTrack(all, base, patches.M(), sel, off, scores)
      && |covered| == universe && Bits(covered) == Covered(all, sel)
      && decrements == |Touched(Covered(all, sel), inv)|
    }

    /** The first n list entries are the elements of s, each once. */
    ghost predicate Lists(n: nat, s: set<nat>)
      reads this`newly
    {
      n <= |newly| && Distinct(newly[..n]) && ToSet(newly[..n]) == s
    }

    function Result(): PatchSelection
      reads this`selected, this`coveredCount, this`iterations
    {
      PatchSelection(selected, coveredCount, iterations)
    }

    /** Index and scores from this rank's patches; nothing covered yet. */
    constructor (csr: PatchCsr, ids: seq<nat>, n: nat)
      requires csr.Clean(n) && |ids| == csr.M()
      ensures patches == csr && globalIds == ids && universe == n && Built()
      ensures forall all, base :: Placed(csr, all, base) ==> Tracks(all, base, [], [])
      ensures Result() == PatchSelection([], 0, 0)
    {
      var index := BuildInvertedIndex(csr);
      patches, globalIds, universe, inv := csr, ids, n, index;
      scores := seq(csr.M(), p requires 0 <= p < csr.M() => csr.PatchSize(p));
      covered := seq(n, _ => false);
      newly, selected, coveredCount, iterations, decrements := [], [], 0, 0, 0;
      new;
      BitsClear(covered);
      NoneTouched(inv);
      forall all, base | Placed(csr, all, base) ensures Tracks(all, base, [], []) {
        FullScores(csr, all, base, scores);
      }
    }

    /** ArgMax over the local scores; a rank without patches offers -1. */
    method LocalBest() returns (score: int, patch: nat)
      ensures scores == [] ==> score == -1
      ensures scores != [] ==> IsLeftmostMax(scores, patch) && score == scores[patch]
    {
      score, patch := DISABLED_SCORE, 0;
      if |scores| > 0 {
        patch := LeftmostMax(scores);
        score := scores[patch];
      }
    }

    /** Grow the list buffer to the announced length; its contents are not kept. */
    method Reserve(n: nat)
      modifies this`newly
      ensures |newly| >= n
    {
      if |newly| < n { newly := seq(n, _ => 0); }
    }

    /** Winner only: list the patch's uncovered elements. */
    method BuildNewly(p: nat) returns (count: nat)
      requires Built() && |covered| == universe && p < patches.M()
      requires |ToSet(patches.Patch(p)) - Bits(covered)| <= |newly|
      modifies this`newly
      ensures |newly| == old(|newly|) && count == |ToSet(patches.Patch(p)) - Bits(covered)|
      ensures Lists(count, ToSet(patches.Patch(p)) - Bits(covered))
    {
      CleanPatch(patches, universe, p);
      newly, count := BuildNewlyCovered(patches.data, patches.offsets[p], patches.offsets[p + 1], covered, newly);
    }

    /** Every rank: take the broadcast list and log the winner. */
    method Receive(payload: seq<nat>, winner: nat)
      requires |payload| <= |newly|
      modifies this`newly, this`selected, this`coveredCount
      ensures |newly| == old(|newly|) && newly[..|payload|] == payload
      ensures Distinct(payload) ==> Lists(|payload|, ToSet(payload))
      ensures Result() == PatchSelection(old(selected) + [winner], old(coveredCount) + |payload|, iterations)
    {
      newly := payload + newly[|payload|..];
      coveredCount := coveredCount + |payload|;
      selected := selected + [winner];
    }

    /** Every rank: raise the bits of the first n listed elements and lower the scores. */
    method Absorb(n: nat, ghost all: seq<set<nat>>, ghost base: nat, ghost sel: seq<nat>, ghost w: nat)
      requires Tracks(all, base, sel, sel)
      requires w < |all| && all[w] <= Range(universe)
      requires Lists(n, all[w] - Covered(all, sel))
      modifies this`covered, this`scores, this`decrements
      ensures Tracks(all, base, sel + [w], sel)
    {
      hide Bits, ToSet, Hits, Touched, Covered, Gain, Distinct, IsTranspose, ScoresTrack;
      PayloadBelow(newly[..n], all[w] - Covered(all, sel), universe);
      covered := SetBits(covered, newly, n);
      IndexReady(inv, patches);
      SameSize(scores, all, base, patches.M(), sel, sel);
      ghost var before, steps := scores, 0;
      scores, steps := ScoreUpdate(newly, n, inv, scores);
      UpdateTracks(patches, inv, all, base, sel, w, before, scores);
      CoveredSnoc(all, sel, w);
      CoverRest(Covered(all, sel), all[w]);
      TouchedAdds(Covered(all, sel), all[w] - Covered(all, sel), inv);
      decrements := decrements + steps;
    }

    /** Winner only: switch the selected patch off. */
    method Disable(p: nat, ghost all: seq<set<nat>>, ghost base: nat, ghost sel: seq<nat>)
      requires p < |scores| && Tracks(all, base, sel + [base + p], sel)
      modifies this`scores
      ensures Tracks(all, base, sel + [base + p], sel + [base + p])
      ensures scores[p] == -1
    {
      ghost var before := scores;
      scores := scores[p := DISABLED_SCORE];
      DisableTracks(all, base, patches.M(), sel, base + p, before, scores);
    }
  }

  lemma FullScores(csr: PatchCsr, all: seq<set<nat>>, base: nat, scores: seq<int>)
    requires csr.Valid() && Placed(csr, all, base)
    requires forall p :: 0 <= p < csr.M() ==> StrictlyAscending(csr.Patch(p))
    requires |scores| == csr.M() && forall p :: 0 <= p < csr.M() ==> scores[p] == csr.PatchSize(p)
    ensures ScoresTrack(all, base, csr.M(), [], [], scores)
  {
    forall p | 0 <= p < csr.M() ensures scores[p] == Gain(all, [], base + p) {
      DistinctSize(csr.Patch(p));
      assert all[base + p] - {} == all[base + p];
    }
  }

  lemma PayloadBelow(payload: seq<nat>, s: set<nat>, n: nat)
    requires ToSet(payload) == s && s <= Range(n)
    ensures forall e :: e in payload ==> e < n
  {
    forall e | e in payload ensures e < n { assert e in ToSet(payload); }
  }

  lemma IndexReady(inv: InvertedIndex, patches: PatchCsr)
    requires patches.Valid() && IsTranspose(inv, patches)
    ensures inv.Valid() && RowsAscending(inv)
    ensures forall i :: 0 <= i < |inv.data| ==> inv.data[i] < patches.M()
  {
    forall k | 0 <= k < |inv.keys| ensures StrictlyAscending(inv.Row(k)) {
      assert RowIsExact(inv, patches, k);
    }
    forall i | 0 <= i < |inv.data| ensures inv.data[i] < patches.M() {
      var k := RowAt(inv, i);
      assert RowIsExact(inv, patches, k);
      assert inv.offsets[k + 1] <= inv.offsets[|inv.keys|];
      SliceHolds(inv.data, inv.offsets[k], inv.offsets[k + 1], i);
    }
  }

  lemma SameSize(scores: seq<int>, all: seq<set<nat>>, base: nat, m: nat, sel: seq<nat>, off: seq<nat>)
    requires InRange(all, sel) && base + m <= |all| && ScoresTrack(all, base, m, sel, off, scores)
    ensures |scores| == m
  {
  }

  lemma CoverRest(c: set<nat>, p: set<nat>)
    ensures c + (p - c) == c + p
  {
  }

  // ----- the offers of all ranks ------------------------------------------------

  /** The score buffers of all ranks after selecting sel. */
  ghost predicate BuffersTrack(l: Layout, sel: seq<nat>, scores: seq<seq<int>>)
    requires l.Valid() && InRange(l.All(), sel)
  {
    && |scores| == |l.stores|
    && forall r :: 0 <= r < |scores| ==>
         l.Base(r) + l.stores[r].M() <= |l.All()| && ScoresTrack(l.All(), l.Base(r), l.stores[r].M(), sel, sel, scores[r])
  }

  /** What a rank offers: its first best score, or -1 when it holds no patch. */
  ghost predicate IsOffer(scores: seq<int>, offer: int, best: nat) {
    if scores == [] then offer == DISABLED_SCORE else IsLeftmostMax(scores, best) && offer == scores[best]
  }

  ghost predicate AreOffers(scores: seq<seq<int>>, offers: seq<int>, best: seq<nat>) {
    && |scores| == |offers| == |best|
    && forall r :: 0 <= r < |scores| ==> IsOffer(scores[r], offers[r], best[r])
  }

  lemma OfferBounds(l: Layout, sel: seq<nat>, scores: seq<seq<int>>, offers: seq<int>, best: seq<nat>, q: nat)
    returns (r: nat, p: nat)
    requires l.Valid() && InRange(l.All(), sel) && BuffersTrack(l, sel, scores) && AreOffers(scores, offers, best)
    requires q < |l.All()|
    ensures r < |l.stores| && p < l.stores[r].M() && q == l.Base(r) + p
    ensures Gain(l.All(), sel, q) <= offers[r] || Gain(l.All(), sel, q) == 0
    ensures Gain(l.All(), sel, q) > 0 ==> best[r] < l.stores[r].M() && (p < best[r] ==> Gain(l.All(), sel, q) < offers[r])
  {
    hide Gain, Covered, InRange, Flatten;
    r, p := FlattenLocate(l.Sets(), q);
    assert IsOffer(scores[r], offers[r], best[r]);
    ScoreVersusGain(l.All(), l.Base(r), l.stores[r].M(), sel, scores[r], p);
  }

  lemma WinningScore(l: Layout, sel: seq<nat>, scores: seq<seq<int>>, offers: seq<int>, best: seq<nat>, wr: nat)
    requires l.Valid() && InRange(l.All(), sel) && BuffersTrack(l, sel, scores) && AreOffers(scores, offers, best)
    requires wr < |offers| && offers[wr] > 0
    ensures |best| == |offers| == |l.stores| && best[wr] < l.stores[wr].M() && l.Base(wr) + best[wr] < |l.All()|
    ensures offers[wr] == Gain(l.All(), sel, l.Base(wr) + best[wr])
  {
    hide Gain, Covered, Layout.All, Layout.Base;
    assert IsOffer(scores[wr], offers[wr], best[wr]);
    ScoreVersusGain(l.All(), l.Base(wr), l.stores[wr].M(), sel, scores[wr], best[wr]);
  }

  /** The best local offer at the smallest rank is the global pick: the largest gain,
      at the smallest slot among equals. */
  lemma OfferIsPick(l: Layout, sel: seq<nat>, scores: seq<seq<int>>, offers: seq<int>, best: seq<nat>, wr: nat)
    requires l.Valid() && InRange(l.All(), sel) && BuffersTrack(l, sel, scores) && AreOffers(scores, offers, best)
    requires IsLeftmostMax(offers, wr) && offers[wr] > 0
    ensures best[wr] < l.stores[wr].M() && l.Base(wr) + best[wr] < |l.All()|
    ensures IsPick(l.All(), sel, l.Base(wr) + best[wr])
    ensures offers[wr] == Gain(l.All(), sel, l.Base(wr) + best[wr])
  {
    hide Gain, Covered, Layout.All, Layout.Base, BuffersTrack, AreOffers;
    WinningScore(l, sel, scores, offers, best, wr);
    var all, w := l.All(), l.Base(wr) + best[wr];
    forall q | 0 <= q < |all|
      ensures Gain(all, sel, q) <= Gain(all, sel, w) && (q < w ==> Gain(all, sel, q) < Gain(all, sel, w))
    {
      OfferBeats(l, sel, scores, offers, best, wr, q);
    }
  }

  lemma OfferBeats(l: Layout, sel: seq<nat>, scores: seq<seq<int>>, offers: seq<int>, best: seq<nat>, wr: nat, q: nat)
    requires l.Valid() && InRange(l.All(), sel) && BuffersTrack(l, sel, scores) && AreOffers(scores, offers, best)
    requires IsLeftmostMax(offers, wr) && offers[wr] > 0
    requires best[wr] < l.stores[wr].M() && q < |l.All()|
    ensures Gain(l.All(), sel, q) <= offers[wr]
    ensures q < l.Base(wr) + best[wr] ==> Gain(l.All(), sel, q) < offers[wr]
  {
    hide Gain, Covered, Layout.Base, Layout.All, ScoresTrack;
    var r, p := OfferBounds(l, sel, scores, offers, best, q);
    SlotOrder(l, r, p, wr, best[wr]);
  }

  /** When no offer is positive, no patch would cover anything new. */
  lemma NoOffer(l: Layout, sel: seq<nat>, scores: seq<seq<int>>, offers: seq<int>, best: seq<nat>, wr: nat)
    requires l.Valid() && InRange(l.All(), sel) && BuffersTrack(l, sel, scores) && AreOffers(scores, offers, best)
    requires IsLeftmostMax(offers, wr) && offers[wr] <= 0
    ensures Exhausted(l.All(), l.n, sel)
  {
    hide Gain, Covered;
    forall q | 0 <= q < |l.All()| ensures Gain(l.All(), sel, q) == 0 {
      var r, p := OfferBounds(l, sel, scores, offers, best, q);
    }
  }

  // ----- all ranks in lockstep -------------------------------------------------

  ghost predicate Ready(ranks: seq<PatchRank>, l: Layout) {
    && l.Valid() && |ranks| == |l.stores| && Distinct(ranks)
    && forall r :: 0 <= r < |ranks| ==>
         ranks[r].Built() && ranks[r].patches == l.stores[r] && ranks[r].globalIds == l.ids[r] && ranks[r].universe == l.n
  }

  ghost predicate AllTrack(ranks: seq<PatchRank>, l: Layout, sel: seq<nat>, off: seq<nat>)
    requires l.Valid() && |ranks| == |l.stores|
    reads ranks`scores, ranks`covered, ranks`decrements
  {
    forall r :: 0 <= r < |ranks| ==> ranks[r].Tracks(l.All(), l.Base(r), sel, off)
  }

  ghost predicate AllLogged(ranks: seq<PatchRank>, result: PatchSelection)
    reads ranks`selected, ranks`coveredCount, ranks`iterations
  {
    forall r :: 0 <= r < |ranks| ==> ranks[r].Result() == result
  }

  ghost function ScoresOf(ranks: seq<PatchRank>): (s: seq<seq<int>>)
    reads ranks`scores
    ensures |s| == |ranks| && forall r :: 0 <= r < |ranks| ==> s[r] == ranks[r].scores
  {
    if ranks == [] then [] else ScoresOf(ranks[..|ranks| - 1]) + [ranks[|ranks| - 1].scores]
  }

  method Offers(ranks: seq<PatchRank>) returns (offers: seq<int>, best: seq<nat>)
    ensures AreOffers(ScoresOf(ranks), offers, best)
  {
    offers, best := [], [];
    for k := 0 to |ranks|
      invariant |offers| == |best| == k
      invariant forall r :: 0 <= r < k ==> IsOffer(ScoresOf(ranks)[r], offers[r], best[r])
    {
      var score, patch := ranks[k].LocalBest();
      assert IsOffer(ScoresOf(ranks)[k], score, patch);
      offers, best := offers + [score], best + [patch];
    }
  }

  method ReserveAll(ranks: seq<PatchRank>, n: nat)
    requires Distinct(ranks)
    modifies ranks`newly
    ensures forall r :: 0 <= r < |ranks| ==> |ranks[r].newly| >= n
  {
    for k := 0 to |ranks|
      invariant forall r :: 0 <= r < k ==> |ranks[r].newly| >= n
    {
      ranks[k].Reserve(n);
    }
  }

  method ReceiveAll(ranks: seq<PatchRank>, payload: seq<nat>, winner: nat, ghost before: PatchSelection, ghost s: set<nat>)
    requires Distinct(ranks) && AllLogged(ranks, before)
    requires Distinct(payload) && ToSet(payload) == s
    requires forall r :: 0 <= r < |ranks| ==> |ranks[r].newly| >= |payload|
    modifies ranks`newly, ranks`selected, ranks`coveredCount
    ensures forall r :: 0 <= r < |ranks| ==> ranks[r].Lists(|payload|, s)
    ensures AllLogged(ranks, PatchSelection(before.selected + [winner], before.coveredCount + |payload|, before.iterations))
  {
    hide PatchRank.Lists, ToSet;
    for k := 0 to |ranks|
      invariant forall r :: 0 <= r < |ranks| ==> |ranks[r].newly| >= |payload|
      invariant forall r :: 0 <= r < k ==> ranks[r].Lists(|payload|, s)
      invariant forall r :: 0 <= r < k ==>
        ranks[r].Result() == PatchSelection(before.selected + [winner], before.coveredCount + |payload|, before.iterations)
      invariant forall r :: k <= r < |ranks| ==> ranks[r].Result() == before
    {
      ranks[k].Receive(payload, winner);
    }
  }

  method AbsorbAll(ranks: seq<PatchRank>, count: nat, ghost l: Layout, ghost sel: seq<nat>, ghost w: nat)
    requires Ready(ranks, l) && AllTrack(ranks, l, sel, sel)
    requires InRange(l.All(), sel) && w < |l.All()|
    requires forall r :: 0 <= r < |ranks| ==> ranks[r].Lists(count, l.All()[w] - Covered(l.All(), sel))
    modifies ranks`covered, ranks`scores, ranks`decrements
    ensures AllTrack(ranks, l, sel + [w], sel)
  {
    hide PatchRank.Tracks, PatchRank.Lists, PatchRank.Built, Covered, Layout.Valid, Layout.All, Layout.Base, InRange;
    AllWithin(l, w);
    for k := 0 to |ranks|
      invariant forall r :: 0 <= r < k ==> ranks[r].Tracks(l.All(), l.Base(r), sel + [w], sel)
      invariant forall r :: k <= r < |ranks| ==> ranks[r].Tracks(l.All(), l.Base(r), sel, sel)
    {
      ranks[k].Absorb(count, l.All(), l.Base(k), sel, w);
    }
  }

  method CountRound(ranks: seq<PatchRank>, ghost before: PatchSelection)
    requires Distinct(ranks) && AllLogged(ranks, before)
    modifies ranks`iterations
    ensures AllLogged(ranks, before.(iterations := before.iterations + 1))
  {
    for k := 0 to |ranks|
      invariant forall r :: 0 <= r < k ==> ranks[r].Result() == before.(iterations := before.iterations + 1)
      invariant forall r :: k <= r < |ranks| ==> ranks[r].Result() == before
    {
      ranks[k].iterations := ranks[k].iterations + 1;
    }
  }

  lemma ReadyFacts(ranks: seq<PatchRank>, l: Layout)
    requires Ready(ranks, l)
    ensures l.Valid() && |ranks| == |l.stores| > 0 && Distinct(ranks)
    ensures ranks[0].universe == l.n
  {
  }

  lemma TrackedBuffers(ranks: seq<PatchRank>, l: Layout, sel: seq<nat>)
    requires Ready(ranks, l) && InRange(l.All(), sel) && AllTrack(ranks, l, sel, sel)
    ensures BuffersTrack(l, sel, ScoresOf(ranks))
  {
    hide Gain, Covered, Layout.Base, Layout.All;
    forall r | 0 <= r < |ranks|
      ensures l.Base(r) + l.stores[r].M() <= |l.All()|
      ensures ScoresTrack(l.All(), l.Base(r), l.stores[r].M(), sel, sel, ScoresOf(ranks)[r])
    {
      assert ranks[r].Tracks(l.All(), l.Base(r), sel, sel);
    }
  }

  lemma ReportSnoc(all: seq<set<nat>>, ids: seq<nat>, sel: seq<nat>, w: nat)
    requires |ids| == |all| && InRange(all, sel) && w < |all|
    ensures InRange(all, sel + [w])
    ensures var before := Report(all, ids, sel);
            Report(all, ids, sel + [w])
            == PatchSelection(before.selected + [ids[w]], before.coveredCount + Gain(all, sel, w), before.iterations + 1)
  {
    CoveredSnoc(all, sel, w);
    assert Report(all, ids, sel + [w]).selected == Report(all, ids, sel).selected + [ids[w]];
  }

  /** What the winner needs to know about its patch before listing it. */
  lemma WinnerGain(ranks: seq<PatchRank>, l: Layout, sel: seq<nat>, r: nat, p: nat)
    requires Ready(ranks, l) && InRange(l.All(), sel) && r < |ranks| && p < l.stores[r].M()
    requires l.Base(r) + p < |l.All()| && ranks[r].Tracks(l.All(), l.Base(r), sel, sel)
    ensures ranks[r].Built() && |ranks[r].covered| == ranks[r].universe
    ensures p < ranks[r].patches.M() && |ranks[r].scores| == ranks[r].patches.M()
    ensures ToSet(ranks[r].patches.Patch(p)) - Bits(ranks[r].covered) == l.All()[l.Base(r) + p] - Covered(l.All(), sel)
  {
  }

  method ShareWinner(ranks: seq<PatchRank>, wr: nat, p: nat, score: nat, ghost l: Layout, ghost sel: seq<nat>)
    requires Ready(ranks, l) && AllTrack(ranks, l, sel, sel) && InRange(l.All(), sel)
    requires wr < |ranks| && p < l.stores[wr].M() && l.Base(wr) + p < |l.All()| == |l.AllIds()|
    requires score == Gain(l.All(), sel, l.Base(wr) + p)
    requires AllLogged(ranks, Report(l.All(), l.AllIds(), sel))
    modifies ranks`newly, ranks`selected, ranks`coveredCount
    ensures forall r :: 0 <= r < |ranks| ==> ranks[r].Lists(score, l.All()[l.Base(wr) + p] - Covered(l.All(), sel))
    ensures var before := Report(l.All(), l.AllIds(), sel);
            AllLogged(ranks, PatchSelection(before.selected + [l.AllIds()[l.Base(wr) + p]], before.coveredCount + score, before.iterations))
  {
    hide Gain, Covered, Layout.Base, Layout.All, Layout.AllIds, Layout.Valid, Report, PatchRank.Tracks, AllLogged, Bits, ToSet;
    IdsMatch(l, wr, p);
    var winner := ranks[wr].globalIds[p];
    ReserveAll(ranks, score);
    WinnerGain(ranks, l, sel, wr, p);
    GainSize(l.All(), sel, l.Base(wr) + p);
    var count := ranks[wr].BuildNewly(p);
    assert count == score;
    var payload := ranks[wr].newly[..score];
    ReceiveAll(ranks, payload, winner, Report(l.All(), l.AllIds(), sel), l.All()[l.Base(wr) + p] - Covered(l.All(), sel));
  }

  lemma GainSize(all: seq<set<nat>>, sel: seq<nat>, w: nat)
    requires InRange(all, sel) && w < |all|
    ensures Gain(all, sel, w) == |all[w] - Covered(all, sel)|
  {
  }

  /** Play the agreed winner: broadcast its list, cover and rescore, switch it off, count. */
  method Play(ranks: seq<PatchRank>, wr: nat, p: nat, score: nat, ghost l: Layout, ghost sel: seq<nat>)
    requires Ready(ranks, l) && AllTrack(ranks, l, sel, sel) && InRange(l.All(), sel)
    requires wr < |ranks| && p < l.stores[wr].M() && l.Base(wr) + p < |l.All()| == |l.AllIds()|
    requires score == Gain(l.All(), sel, l.Base(wr) + p)
    requires AllLogged(ranks, Report(l.All(), l.AllIds(), sel))
    modifies ranks
    ensures InRange(l.All(), sel + [l.Base(wr) + p])
    ensures AllTrack(ranks, l, sel + [l.Base(wr) + p], sel + [l.Base(wr) + p])
    ensures AllLogged(ranks, Report(l.All(), l.AllIds(), sel + [l.Base(wr) + p]))
  {
    hide Gain, Covered, Layout.Base, Layout.All, Layout.AllIds, Layout.Valid, Report, PatchRank.Tracks, PatchRank.Lists,
      InRange, Ready, AllTrack, AllLogged;
    ReadyFacts(ranks, l);
    ghost var w := l.Base(wr) + p;
    ghost var before := Report(l.All(), l.AllIds(), sel);
    ShareWinner(ranks, wr, p, score, l, sel);
    AbsorbAll(ranks, score, l, sel, w);
    DisableWinner(ranks, wr, p, l, sel);
    ReportSnoc(l.All(), l.AllIds(), sel, w);
    CountRound(ranks, PatchSelection(before.selected + [l.AllIds()[w]], before.coveredCount + score, before.iterations));
  }

  /** One round: offers, global winner, broadcast, cover and rescore, switch off, count. */
  method Round(ranks: seq<PatchRank>, ghost l: Layout, ghost sel: seq<nat>) returns (done: bool, ghost w: nat)
    requires Ready(ranks, l) && InRange(l.All(), sel) && AllTrack(ranks, l, sel, sel)
    requires |l.All()| == |l.AllIds()| && AllLogged(ranks, Report(l.All(), l.AllIds(), sel))
    modifies ranks
    ensures done ==> Exhausted(l.All(), l.n, sel) && AllTrack(ranks, l, sel, sel)
                     && AllLogged(ranks, Report(l.All(), l.AllIds(), sel))
    ensures !done ==> IsPick(l.All(), sel, w) && InRange(l.All(), sel + [w]) && AllTrack(ranks, l, sel + [w], sel + [w])
                      && AllLogged(ranks, Report(l.All(), l.AllIds(), sel + [w]))
  {
    hide Gain, Covered, Layout.Base, Layout.All, Layout.AllIds, Layout.Valid, Report, PatchRank.Tracks, IsPick, Exhausted,
      BuffersTrack, AreOffers, PatchRank.Lists, InRange, Ready, AllTrack, AllLogged, ScoresOf;
    w := 0;
    ReadyFacts(ranks, l);
    var offers, best := Offers(ranks);
    TrackedBuffers(ranks, l, sel);
    OffersExist(ScoresOf(ranks), offers, best);
    var wr := LeftmostMax(offers);
    var score := offers[wr];
    if score <= 0 {
      NoOffer(l, sel, ScoresOf(ranks), offers, best, wr);
      return true, w;
    }
    OfferIsPick(l, sel, ScoresOf(ranks), offers, best, wr);
    w := l.Base(wr) + best[wr];
    Play(ranks, wr, best[wr], score, l, sel);
    done := false;
  }

  lemma OffersExist(scores: seq<seq<int>>, offers: seq<int>, best: seq<nat>)
    requires AreOffers(scores, offers, best)
    ensures |offers| == |best| == |scores|
  {
  }

  /** Only the winner's rank switches its patch off; elsewhere the slot does not exist. */
  method DisableWinner(ranks: seq<PatchRank>, wr: nat, p: nat, ghost l: Layout, ghost sel: seq<nat>)
    requires Ready(ranks, l) && wr < |ranks| && p < l.stores[wr].M()
    requires AllTrack(ranks, l, sel + [l.Base(wr) + p], sel)
    modifies ranks`scores
    ensures AllTrack(ranks, l, sel + [l.Base(wr) + p], sel + [l.Base(wr) + p])
  {
    hide PatchRank.Tracks, Layout.Base, Layout.All, Layout.Valid;
    ghost var w := l.Base(wr) + p;
    forall r | 0 <= r < |ranks| && r != wr ensures ranks[r].Tracks(l.All(), l.Base(r), sel + [w], sel + [w]) {
      OtherRank(ranks, l, sel, wr, p, r);
    }
    assert ranks[wr].Tracks(l.All(), l.Base(wr), sel + [w], sel);
    WinnerScores(ranks, l, sel + [w], sel, wr);
    ranks[wr].Disable(p, l.All(), l.Base(wr), sel);
  }

  lemma WinnerScores(ranks: seq<PatchRank>, l: Layout, sel: seq<nat>, off: seq<nat>, r: nat)
    requires Ready(ranks, l) && r < |ranks| && ranks[r].Tracks(l.All(), l.Base(r), sel, off)
    ensures |ranks[r].scores| == l.stores[r].M()
  {
  }

  lemma OtherRank(ranks: seq<PatchRank>, l: Layout, sel: seq<nat>, wr: nat, p: nat, r: nat)
    requires Ready(ranks, l) && wr < |ranks| && p < l.stores[wr].M() && r < |ranks| && r != wr
    requires ranks[r].Tracks(l.All(), l.Base(r), sel + [l.Base(wr) + p], sel)
    ensures ranks[r].Tracks(l.All(), l.Base(r), sel + [l.Base(wr) + p], sel + [l.Base(wr) + p])
  {
    hide Layout.Base, Layout.All, Layout.Valid, Covered, Gain, ScoresTrack, Touched, PatchRank.Built, Distinct;
    var w := l.Base(wr) + p;
    SlotElsewhere(l, wr, p, r);
    DisableTracks(l.All(), l.Base(r), l.stores[r].M(), sel, w, ranks[r].scores, ranks[r].scores);
  }

  lemma SlotElsewhere(l: Layout, wr: nat, p: nat, r: nat)
    requires l.Valid() && wr < |l.stores| && p < l.stores[wr].M() && r < |l.stores| && r != wr
    ensures !(l.Base(r) <= l.Base(wr) + p < l.Base(r) + l.stores[r].M())
  {
    var w := l.Base(wr) + p;
    if l.Base(r) <= w < l.Base(r) + l.stores[r].M() { SameSlot(l, r, w - l.Base(r), wr, p); }
  }

  /** The solve on all ranks: every rank ends with the greedy selection over all patches
      of all ranks, named by the callers' IDs, and with one raised bit per covered element;
      its decrements are as many as the index entries of the elements whose bits are up. */
  method Solve(ranks: seq<PatchRank>, ghost l: Layout) returns (ghost sel: seq<nat>)
    requires Ready(ranks, l) && AllTrack(ranks, l, [], []) && AllLogged(ranks, PatchSelection([], 0, 0))
    modifies ranks
    ensures |l.AllIds()| == |l.All()|
    ensures IsGreedyResult(l.All(), l.n, sel) && AllTrack(ranks, l, sel, sel)
    ensures AllLogged(ranks, Report(l.All(), l.AllIds(), sel))
    ensures forall r :: 0 <= r < |ranks| ==> IsGreedySelection(l.All(), l.n, l.AllIds(), ranks[r].Result())
    ensures forall r :: 0 <= r < |ranks| ==> |ranks[r].covered| == ranks[r].universe && ranks[r].coveredCount == |Bits(ranks[r].covered)|
    ensures forall r :: 0 <= r < |ranks| ==> ranks[r].decrements == |Touched(Bits(ranks[r].covered), ranks[r].inv)|
  {
    hide Gain, Covered, Layout.Base, Layout.All, Layout.AllIds, Layout.Valid, PatchRank.Tracks, IsPick, Exhausted,
      BuffersTrack, AreOffers, PatchRank.Lists, IsGreedyRun, IsGreedySelection;
    ReadyFacts(ranks, l);
    SlotCounts(l, 0);
    sel := [];
    BruteForceStart(l.All(), l.AllIds(), l.n);
    var done := false;
    while !done && ranks[0].coveredCount < ranks[0].universe
      invariant InRange(l.All(), sel) && IsGreedyRun(l.All(), l.n, sel)
      invariant AllTrack(ranks, l, sel, sel)
      invariant AllLogged(ranks, Report(l.All(), l.AllIds(), sel))
      invariant done ==> Exhausted(l.All(), l.n, sel)
      decreases !done, l.n - ranks[0].coveredCount
    {
      assert ranks[0].Result() == Report(l.All(), l.AllIds(), sel);
      ghost var w;
      done, w := Round(ranks, l, sel);
      if !done {
        PickExtends(l.All(), l.n, sel, w);
        assert ranks[0].Result() == Report(l.All(), l.AllIds(), sel + [w]);
        sel := sel + [w];
      }
    }
    assert ranks[0].Result() == Report(l.All(), l.AllIds(), sel);
    FullIsExhausted(l.All(), l.n, sel);
    SelectionIs(l.All(), l.n, l.AllIds(), sel);
    forall r | 0 <= r < |ranks|
      ensures |ranks[r].covered| == ranks[r].universe && ranks[r].coveredCount == |Bits(ranks[r].covered)|
      ensures ranks[r].decrements == |Touched(Bits(ranks[r].covered), ranks[r].inv)|
    {
      assert ranks[r].Result() == Report(l.All(), l.AllIds(), sel);
      CoveredBits(ranks[r], l.All(), l.Base(r), sel, sel);
    }
  }

  method Results(ranks: seq<PatchRank>) returns (results: seq<PatchSelection>)
    ensures |results| == |ranks| && forall r :: 0 <= r < |ranks| ==> results[r] == ranks[r].Result()
  {
    results := [];
    for r := 0 to |ranks|
      invariant |results| == r && forall q :: 0 <= q < r ==> results[q] == ranks[q].Result()
    {
      results := results + [ranks[r].Result()];
    }
  }

  lemma CoveredBits(rank: PatchRank, all: seq<set<nat>>, base: nat, sel: seq<nat>, off: seq<nat>)
    requires rank.Tracks(all, base, sel, off)
    ensures |rank.covered| == rank.universe && Bits(rank.covered) == Covered(all, sel)
    ensures rank.decrements == |Touched(Bits(rank.covered), rank.inv)|
  {
  }

  lemma BruteForceStart(all: seq<set<nat>>, ids: seq<nat>, n: nat)
    requires |ids| == |all|
    ensures IsGreedyRun(all, n, []) && Report(all, ids, []) == PatchSelection([], 0, 0)
  {
  }

  lemma PickExtends(all: seq<set<nat>>, n: nat, sel: seq<nat>, w: nat)
    requires IsGreedyRun(all, n, sel) && |Covered(all, sel)| < n && IsPick(all, sel, w)
    ensures InRange(all, sel + [w]) && IsGreedyRun(all, n, sel + [w])
    ensures |Covered(all, sel + [w])| > |Covered(all, sel)|
  {
    RunSnoc(all, n, sel, w);
    CoveredSnoc(all, sel, w);
  }

  lemma FullIsExhausted(all: seq<set<nat>>, n: nat, sel: seq<nat>)
    requires InRange(all, sel)
    ensures |Covered(all, sel)| >= n ==> Exhausted(all, n, sel)
  {
  }

  lemma SelectionIs(all: seq<set<nat>>, n: nat, ids: seq<nat>, sel: seq<nat>)
    requires |ids| == |all| && IsGreedyRun(all, n, sel) && Exhausted(all, n, sel)
    ensures IsGreedySelection(all, n, ids, Report(all, ids, sel))
  {
    assert IsGreedyResult(all, n, sel);
  }
}
