/** What a greedy set cover is, independently of how it is computed: the
    declarative reference that every form of the solver is proved to meet. */
module GreedyCover {
  import opened Sequences

  /** What a solve returns on each rank. */
  datatype PatchSelection = PatchSelection(selected: seq<nat>, coveredCount: nat, iterations: nat)

  ghost predicate InRange(patches: seq<set<nat>>, sel: seq<nat>) {
    forall i :: 0 <= i < |sel| ==> sel[i] < |patches|
  }

  ghost function Covered(patches: seq<set<nat>>, sel: seq<nat>): set<nat>
    requires InRange(patches, sel)
  {
    if sel == [] then {} else Covered(patches, sel[..|sel| - 1]) + patches[sel[|sel| - 1]]
  }

  /** How many elements patch p would newly cover. */
  ghost function Gain(patches: seq<set<nat>>, sel: seq<nat>, p: nat): nat
    requires InRange(patches, sel) && p < |patches|
  {
    |patches[p] - Covered(patches, sel)|
  }

  /** p has the largest gain, the gain is positive, and every smaller index gains less. */
  ghost predicate IsPick(patches: seq<set<nat>>, sel: seq<nat>, p: nat)
    requires InRange(patches, sel)
  {
    && p < |patches|
    && Gain(patches, sel, p) > 0
    && (forall q :: 0 <= q < |patches| ==> Gain(patches, sel, q) <= Gain(patches, sel, p))
    && (forall q :: 0 <= q < p ==> Gain(patches, sel, q) < Gain(patches, sel, p))
  }

  /** Every selection was the pick of its round, taken while elements were missing. */
  ghost predicate IsGreedyRun(patches: seq<set<nat>>, n: nat, sel: seq<nat>) {
    && InRange(patches, sel)
    && (sel != [] ==>
          var k := |sel| - 1;
          && IsGreedyRun(patches, n, sel[..k])
          && |Covered(patches, sel[..k])| < n
          && IsPick(patches, sel[..k], sel[k]))
  }

  ghost predicate Exhausted(patches: seq<set<nat>>, n: nat, sel: seq<nat>)
    requires InRange(patches, sel)
  {
    |Covered(patches, sel)| >= n || forall p :: 0 <= p < |patches| ==> Gain(patches, sel, p) == 0
  }

  ghost predicate IsGreedyResult(patches: seq<set<nat>>, n: nat, sel: seq<nat>) {
    IsGreedyRun(patches, n, sel) && Exhausted(patches, n, sel)
  }

  /** The whole answer a caller gets, with patch p reported under the name ids[p]. */
  ghost predicate IsGreedySelection(patches: seq<set<nat>>, n: nat, ids: seq<nat>, result: PatchSelection)
    requires |ids| == |patches|
  {
    exists sel {:trigger IsGreedyResult(patches, n, sel)} :: IsGreedyResult(patches, n, sel) && result == Report(patches, ids, sel)
  }

  ghost function Report(patches: seq<set<nat>>, ids: seq<nat>, sel: seq<nat>): PatchSelection
    requires |ids| == |patches| && InRange(patches, sel)
  {
    PatchSelection(seq(|sel|, i requires 0 <= i < |sel| => ids[sel[i]]), |Covered(patches, sel)|, |sel|)
  }

  // ----- extending a run -------------------------------------------------------

  lemma CoveredSnoc(patches: seq<set<nat>>, sel: seq<nat>, p: nat)
    requires InRange(patches, sel) && p < |patches|
    ensures InRange(patches, sel + [p])
    ensures Covered(patches, sel + [p]) == Covered(patches, sel) + patches[p]
    ensures |Covered(patches, sel + [p])| == |Covered(patches, sel)| + Gain(patches, sel, p)
  {
    assert (sel + [p])[..|sel|] == sel;
    var c := Covered(patches, sel);
    assert c + patches[p] == c + (patches[p] - c);
  }

  lemma RunSnoc(patches: seq<set<nat>>, n: nat, sel: seq<nat>, p: nat)
    requires IsGreedyRun(patches, n, sel) && |Covered(patches, sel)| < n && IsPick(patches, sel, p)
    ensures IsGreedyRun(patches, n, sel + [p])
  {
    assert (sel + [p])[..|sel|] == sel;
  }

  /** Every prefix of a run is a run, and its next selection is the pick. */
  lemma {:induction false} RunPrefix(patches: seq<set<nat>>, n: nat, sel: seq<nat>, k: nat)
    requires IsGreedyRun(patches, n, sel) && k <= |sel|
    ensures IsGreedyRun(patches, n, sel[..k])
    ensures k < |sel| ==> |Covered(patches, sel[..k])| < n && IsPick(patches, sel[..k], sel[k])
  {
    if k == |sel| {
      assert sel[..k] == sel;
    } else {
      var init := sel[..|sel| - 1];
      RunPrefix(patches, n, init, k);
      assert init[..k] == sel[..k];
    }
  }

  lemma {:induction false} CoveredContains(patches: seq<set<nat>>, sel: seq<nat>, i: nat)
    requires InRange(patches, sel) && i < |sel|
    ensures patches[sel[i]] <= Covered(patches, sel)
  {
    if i < |sel| - 1 { CoveredContains(patches, sel[..|sel| - 1], i); }
  }

  lemma {:induction false} CoveredWithin(patches: seq<set<nat>>, sel: seq<nat>, all: set<nat>)
    requires InRange(patches, sel)
    requires forall p :: 0 <= p < |patches| ==> patches[p] <= all
    ensures Covered(patches, sel) <= all
  {
    if sel != [] { CoveredWithin(patches, sel[..|sel| - 1], all); }
  }

  /** A patch already selected gains nothing, so it is never the pick again. */
  lemma SelectedGainsNothing(patches: seq<set<nat>>, sel: seq<nat>, p: nat)
    requires InRange(patches, sel) && p in sel
    ensures p < |patches| && Gain(patches, sel, p) == 0
  {
    var i :| 0 <= i < |sel| && sel[i] == p;
    CoveredContains(patches, sel, i);
    assert patches[p] - Covered(patches, sel) == {};
  }

  // ----- consequences of being the greedy result -------------------------------

  /** The greedy result is unique, so two solvers that both meet it agree. */
  lemma {:induction false} GreedyResultUnique(patches: seq<set<nat>>, n: nat, s: seq<nat>, t: seq<nat>)
    requires IsGreedyResult(patches, n, s) && IsGreedyResult(patches, n, t)
    ensures s == t
  {
    if |s| <= |t| {
      SamePrefix(patches, n, s, t, |s|);
      NotLonger(patches, n, s, t);
    } else {
      SamePrefix(patches, n, t, s, |t|);
      NotLonger(patches, n, t, s);
    }
  }

  lemma PickUnique(patches: seq<set<nat>>, sel: seq<nat>, p: nat, q: nat)
    requires InRange(patches, sel) && IsPick(patches, sel, p) && IsPick(patches, sel, q)
    ensures p == q
  {
    assert Gain(patches, sel, p) == Gain(patches, sel, q);
  }

  lemma {:induction false} SamePrefix(patches: seq<set<nat>>, n: nat, s: seq<nat>, t: seq<nat>, k: nat)
    requires IsGreedyRun(patches, n, s) && IsGreedyRun(patches, n, t)
    requires k <= |s| && k <= |t|
    ensures s[..k] == t[..k]
  {
    hide IsGreedyRun, IsPick;
    if k > 0 {
      SamePrefix(patches, n, s, t, k - 1);
      RunPrefix(patches, n, s, k - 1);
      RunPrefix(patches, n, t, k - 1);
      PickUnique(patches, s[..k - 1], s[k - 1], t[k - 1]);
      assert s[..k] == s[..k - 1] + [s[k - 1]] && t[..k] == t[..k - 1] + [t[k - 1]];
    }
  }

  lemma NotLonger(patches: seq<set<nat>>, n: nat, s: seq<nat>, t: seq<nat>)
    requires IsGreedyResult(patches, n, s) && IsGreedyRun(patches, n, t)
    requires |s| <= |t| && s == t[..|s|]
    ensures s == t
  {
    RunPrefix(patches, n, t, |s|);
    assert t[..|t|] == t;
  }

  lemma SelectionUnique(patches: seq<set<nat>>, n: nat, ids: seq<nat>, a: PatchSelection, b: PatchSelection)
    requires |ids| == |patches|
    requires IsGreedySelection(patches, n, ids, a) && IsGreedySelection(patches, n, ids, b)
    ensures a == b
  {
    var s :| IsGreedyResult(patches, n, s) && a == Report(patches, ids, s);
    var t :| IsGreedyResult(patches, n, t) && b == Report(patches, ids, t);
    GreedyResultUnique(patches, n, s, t);
  }

  /** No patch is selected twice, so a list of |patches| slots always suffices. */
  lemma RunDistinct(patches: seq<set<nat>>, n: nat, sel: seq<nat>)
    requires IsGreedyRun(patches, n, sel)
    ensures Distinct(sel) && |sel| <= |patches|
  {
    forall i, j | 0 <= i < j < |sel| ensures sel[i] != sel[j] {
      assert sel[..j][i] == sel[i];
      RunPrefix(patches, n, sel, j);
      SelectedGainsNothing(patches, sel[..j], sel[i]);
    }
    DistinctBounded(sel, |patches|);
  }

  ghost predicate CoversUniverse(patches: seq<set<nat>>, n: nat) {
    && (forall p :: 0 <= p < |patches| ==> patches[p] <= Range(n))
    && (forall e :: e in Range(n) ==> exists p :: 0 <= p < |patches| && e in patches[p])
  }

  /** When the patches cover the universe, so does the greedy selection. */
  lemma GreedyCovers(patches: seq<set<nat>>, n: nat, sel: seq<nat>)
    requires IsGreedyResult(patches, n, sel) && CoversUniverse(patches, n)
    ensures Covered(patches, sel) == Range(n)
    ensures |Covered(patches, sel)| == n
  {
    var c := Covered(patches, sel);
    CoveredWithin(patches, sel, Range(n));
    if |c| >= n {
      SubsetEqual(c, Range(n));
    } else {
      forall e | e in Range(n) ensures e in c {
        var p :| 0 <= p < |patches| && e in patches[p];
        assert Gain(patches, sel, p) == 0;
        assert e !in patches[p] - c;
      }
      assert c == Range(n);
    }
  }

  /** The union spelt out. */
  lemma {:induction false} CoveredExactly(patches: seq<set<nat>>, sel: seq<nat>, e: nat)
    requires InRange(patches, sel)
    ensures e in Covered(patches, sel) <==> exists i :: 0 <= i < |sel| && e in patches[sel[i]]
  {
    if sel != [] {
      var n := |sel| - 1;
      CoveredExactly(patches, sel[..n], e);
      assert forall i :: 0 <= i < n ==> sel[..n][i] == sel[i];
      assert e in patches[sel[n]] ==> e in Covered(patches, sel);
    }
  }

  /** A greedy result spelt out: every entry covers something new, no patch would have covered
      more, none with a smaller index as much, and elements were still missing; it ends when all
      are covered or no patch holds a missing one. */
  lemma GreedyInWords(patches: seq<set<nat>>, n: nat, sel: seq<nat>)
    requires IsGreedyResult(patches, n, sel)
    ensures InRange(patches, sel)
    ensures forall k :: 0 <= k < |sel| ==>
      |patches[sel[k]] - Covered(patches, sel[..k])| > 0 && |Covered(patches, sel[..k])| < n
    ensures forall k, q :: 0 <= k < |sel| && 0 <= q < |patches| ==>
      |patches[q] - Covered(patches, sel[..k])| <= |patches[sel[k]] - Covered(patches, sel[..k])|
    ensures forall k, q :: 0 <= k < |sel| && 0 <= q < sel[k] ==>
      |patches[q] - Covered(patches, sel[..k])| < |patches[sel[k]] - Covered(patches, sel[..k])|
    ensures |Covered(patches, sel)| >= n || forall q :: 0 <= q < |patches| ==> patches[q] <= Covered(patches, sel)
  {
    hide Covered;
    forall k | 0 <= k < |sel|
      ensures |patches[sel[k]] - Covered(patches, sel[..k])| > 0 && |Covered(patches, sel[..k])| < n
    {
      RunPrefix(patches, n, sel, k);
    }
    forall k, q | 0 <= k < |sel| && 0 <= q < |patches|
      ensures |patches[q] - Covered(patches, sel[..k])| <= |patches[sel[k]] - Covered(patches, sel[..k])|
      ensures q < sel[k] ==> |patches[q] - Covered(patches, sel[..k])| < |patches[sel[k]] - Covered(patches, sel[..k])|
    {
      RunPrefix(patches, n, sel, k);
      assert Gain(patches, sel[..k], q) <= Gain(patches, sel[..k], sel[k]);
    }
    if |Covered(patches, sel)| < n {
      forall q | 0 <= q < |patches| ensures patches[q] <= Covered(patches, sel) {
        assert Gain(patches, sel, q) == 0;
        NothingLeftIn(patches[q], Covered(patches, sel));
      }
    }
  }

  /** A whole answer spelt out: the selected patches under the callers' names in the order of
      the run, how many elements they cover, and the number of rounds. */
  lemma SelectionInWords(patches: seq<set<nat>>, n: nat, ids: seq<nat>, result: PatchSelection) returns (sel: seq<nat>)
    requires |ids| == |patches| && IsGreedySelection(patches, n, ids, result)
    ensures IsGreedyResult(patches, n, sel)
    ensures result.iterations == |result.selected| == |sel|
    ensures forall i :: 0 <= i < |sel| ==> sel[i] < |patches| && result.selected[i] == ids[sel[i]]
    ensures result.coveredCount == |Covered(patches, sel)|
  {
    hide Exhausted, Covered;
    sel :| IsGreedyResult(patches, n, sel) && result == Report(patches, ids, sel);
  }

  lemma NothingLeftIn(x: set<nat>, c: set<nat>)
    requires |x - c| == 0
    ensures x <= c
  {
    forall e | e in x ensures e in c { assert e !in x - c; }
  }
}
