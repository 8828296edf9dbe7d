/** The reference greedy loop, which recomputes every score in every round. */
module BruteForce {
  import opened Sequences
  import opened Bitset
  import opened Csr
  import opened GreedyCover

  /** The IDs 0, 1, ..., m-1: brute force reports patch indices as they are. */
  function Identity(m: nat): (ids: seq<nat>)
    ensures |ids| == m && forall p :: 0 <= p < m ==> ids[p] == p
  {
    seq(m, p => p)
  }

  method CountUncovered(ids: seq<nat>, covered: array<bool>) returns (s: nat)
    requires StrictlyAscending(ids) && forall i :: 0 <= i < |ids| ==> ids[i] < covered.Length
    ensures s == |ToSet(ids) - Bits(covered[..])|
  {
    s := 0;
    ghost var up := Bits(covered[..]);
    ToSetNone(ids);
    for i := 0 to |ids|
      invariant s == |ToSet(ids[..i]) - up|
    {
      NextMissing(ids, i, up);
      if !covered[ids[i]] { s := s + 1; }
    }
    assert ids[..|ids|] == ids;
  }

  /** One more listed ID is missing, or nothing changes. */
  lemma NextMissing(ids: seq<nat>, i: nat, up: set<nat>)
    requires StrictlyAscending(ids) && i < |ids|
    ensures |ToSet(ids[..i + 1]) - up| == |ToSet(ids[..i]) - up| + (if ids[i] in up then 0 else 1)
  {
    assert ids[i] !in ToSet(ids[..i]);
    ToSetPrefix(ids, i);
    hide ToSet, StrictlyAscending;
    ghost var before := ToSet(ids[..i]);
    if ids[i] in up {
      assert before + {ids[i]} - up == before - up;
    } else {
      assert before + {ids[i]} - up == (before - up) + {ids[i]};
    }
  }

  method CoverAll(ids: seq<nat>, covered: array<bool>) returns (added: nat)
    requires forall i :: 0 <= i < |ids| ==> ids[i] < covered.Length
    modifies covered
    ensures Bits(covered[..]) == old(Bits(covered[..])) + ToSet(ids)
    ensures |Bits(covered[..])| == old(|Bits(covered[..])|) + added
  {
    hide Bits, ToSet;
    added := 0;
    ghost var before := Bits(covered[..]);
    ToSetNone(ids);
    for i := 0 to |ids|
      invariant Bits(covered[..]) == before + ToSet(ids[..i])
      invariant |Bits(covered[..])| == |before| + added
    {
      ToSetPrefix(ids, i);
      ghost var now := covered[..];
      RaiseBit(now, ids[i]);
      if !covered[ids[i]] {
        covered[ids[i]] := true;
        added := added + 1;
      }
      assert covered[..] == now[ids[i] := true];
    }
    assert ids[..|ids|] == ids;
  }

  /** The best unselected patch so far: highest score, smallest index among equals. */
  ghost predicate BestSoFar(sets: seq<set<nat>>, sel: seq<nat>, m: nat, score: nat, patch: nat, found: bool)
    requires InRange(sets, sel) && m <= |sets|
  {
    if found then
      && patch < m && score == Gain(sets, sel, patch) > 0
      && (forall q :: 0 <= q < m ==> Gain(sets, sel, q) <= score)
      && (forall q :: 0 <= q < patch ==> Gain(sets, sel, q) < score)
    else
      score == 0 && forall q :: 0 <= q < m ==> Gain(sets, sel, q) == 0
  }

  method FindBest(patches: PatchCsr, covered: array<bool>, selectedFlag: array<bool>, ghost sel: seq<nat>)
    returns (score: nat, patch: nat, found: bool)
    requires patches.Clean(covered.Length) && selectedFlag.Length == patches.M()
    requires InRange(patches.Sets(), sel)
    requires Bits(covered[..]) == Covered(patches.Sets(), sel)
    requires forall p :: 0 <= p < patches.M() ==> (selectedFlag[p] <==> p in sel)
    ensures BestSoFar(patches.Sets(), sel, patches.M(), score, patch, found)
  {
    hide Covered, Gain, BestSoFar, Bits;
    score, patch, found := 0, 0, false;
    ghost var sets := patches.Sets();
    BestOfNone(sets, sel);
    for p := 0 to patches.M()
      invariant BestSoFar(sets, sel, p, score, patch, found)
    {
      if selectedFlag[p] {
        SelectedGainsNothing(sets, sel, p);
        BestStep(sets, sel, p, score, patch, found);
      } else {
        CleanPatch(patches, covered.Length, p);
        var s := CountUncovered(patches.Patch(p), covered);
        GainIs(sets, sel, p, s);
        BestStep(sets, sel, p, score, patch, found);
        if s > score {
          score, patch, found := s, p, true;
        }
      }
    }
  }

  lemma GainIs(sets: seq<set<nat>>, sel: seq<nat>, p: nat, s: nat)
    requires InRange(sets, sel) && p < |sets| && s == |sets[p] - Covered(sets, sel)|
    ensures s == Gain(sets, sel, p)
  {
  }

  lemma BestOfNone(sets: seq<set<nat>>, sel: seq<nat>)
    requires InRange(sets, sel)
    ensures BestSoFar(sets, sel, 0, 0, 0, false)
  {
  }

  lemma BestStep(sets: seq<set<nat>>, sel: seq<nat>, p: nat, score: nat, patch: nat, found: bool)
    requires InRange(sets, sel) && p < |sets| && BestSoFar(sets, sel, p, score, patch, found)
    ensures if Gain(sets, sel, p) > score then BestSoFar(sets, sel, p + 1, Gain(sets, sel, p), p, true)
            else BestSoFar(sets, sel, p + 1, score, patch, found)
  {
    hide Gain, Covered;
  }

  /** Take the patch: cover its elements, flag it, count what is new. */
  method Commit(patches: PatchCsr, covered: array<bool>, selectedFlag: array<bool>, best: nat, ghost sel: seq<nat>) returns (added: nat)
    requires covered != selectedFlag && patches.Clean(covered.Length) && selectedFlag.Length == patches.M() && best < patches.M()
    requires InRange(patches.Sets(), sel) && Bits(covered[..]) == Covered(patches.Sets(), sel)
    requires forall p :: 0 <= p < patches.M() ==> (selectedFlag[p] <==> p in sel)
    modifies covered, selectedFlag
    ensures InRange(patches.Sets(), sel + [best]) && Bits(covered[..]) == Covered(patches.Sets(), sel + [best])
    ensures added == Gain(patches.Sets(), sel, best)
    ensures |Covered(patches.Sets(), sel + [best])| == |Covered(patches.Sets(), sel)| + added <= covered.Length
    ensures forall p :: 0 <= p < patches.M() ==> (selectedFlag[p] <==> p in sel + [best])
  {
    hide Covered, Bits, ToSet, Gain;
    CleanPatch(patches, covered.Length, best);
    CoveredSnoc(patches.Sets(), sel, best);
    added := CoverAll(patches.Patch(best), covered);
    selectedFlag[best] := true;
  }

  method BruteForceSelect(patches: PatchCsr, n: nat) returns (result: PatchSelection)
    requires patches.Clean(n)
    ensures IsGreedySelection(patches.Sets(), n, Identity(patches.M()), result)
  {
    hide IsGreedyRun, IsPick, Covered, Gain, Bits, BestSoFar, Exhausted, IsGreedySelection, ToSet;
    ghost var sets := patches.Sets();
    var covered := new bool[n](_ => false);
    var selectedFlag := new bool[patches.M()](_ => false);
    var coveredCount, iterations, selected := 0, 0, [];
    EmptyRun(sets, n);
    BitsClear(covered[..]);
    while coveredCount < n
      invariant InRange(sets, selected) && IsGreedyRun(sets, n, selected)
      invariant Bits(covered[..]) == Covered(sets, selected)
      invariant coveredCount == |Covered(sets, selected)| <= n
      invariant iterations == |selected|
      invariant forall p :: 0 <= p < patches.M() ==> (selectedFlag[p] <==> p in selected)
      decreases n - coveredCount
    {
      var score, best, found := FindBest(patches, covered, selectedFlag, selected);
      if !found || score <= 0 {
        NothingLeft(sets, n, selected, score, best, found);
        break;
      }
      BestIsPick(sets, n, selected, score, best);
      var added := Commit(patches, covered, selectedFlag, best, selected);
      coveredCount := coveredCount + added;
      selected := selected + [best];
      iterations := iterations + 1;
    }
    result := PatchSelection(selected, coveredCount, iterations);
    ReportIdentity(sets, n, selected);
  }

  lemma EmptyRun(sets: seq<set<nat>>, n: nat)
    ensures IsGreedyRun(sets, n, []) && Covered(sets, []) == {}
  {
  }

  lemma NothingLeft(sets: seq<set<nat>>, n: nat, sel: seq<nat>, score: nat, best: nat, found: bool)
    requires InRange(sets, sel) && BestSoFar(sets, sel, |sets|, score, best, found) && (!found || score == 0)
    ensures Exhausted(sets, n, sel)
  {
  }

  lemma BestIsPick(sets: seq<set<nat>>, n: nat, sel: seq<nat>, score: nat, best: nat)
    requires IsGreedyRun(sets, n, sel) && |Covered(sets, sel)| < n
    requires BestSoFar(sets, sel, |sets|, score, best, true)
    ensures IsPick(sets, sel, best) && InRange(sets, sel + [best]) && IsGreedyRun(sets, n, sel + [best])
    ensures Gain(sets, sel, best) > 0
  {
    RunSnoc(sets, n, sel, best);
  }

  lemma ReportIdentity(sets: seq<set<nat>>, n: nat, sel: seq<nat>)
    requires IsGreedyResult(sets, n, sel)
    ensures IsGreedySelection(sets, n, Identity(|sets|), PatchSelection(sel, |Covered(sets, sel)|, |sel|))
  {
    assert Report(sets, Identity(|sets|), sel).selected == sel;
  }
}
