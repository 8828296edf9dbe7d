/** The approximation guarantee: greedy selects at most H(d) times as many patches
    as any cover of the universe, where d bounds the patch sizes. */
module GreedyGuarantee {
  import opened Sequences
  import opened GreedyCover

  ghost function Harmonic(n: nat): real {
    if n == 0 then 0.0 else Harmonic(n - 1) + 1.0 / (n as real)
  }

  /** Each of the n-m terms between H(m) and H(n) is at least 1/n. */
  lemma {:induction false} HarmonicGap(m: nat, n: nat)
    requires m <= n && n > 0
    ensures Harmonic(n) - Harmonic(m) >= (n - m) as real / (n as real)
    decreases n - m
  {
    if m < n {
      HarmonicGap(m + 1, n);
      var a, b := (m + 1) as real, n as real;
      assert 1.0 / a >= 1.0 / b by { ReciprocalLe(a, b); }
      assert (n - m) as real / b == (n - (m + 1)) as real / b + 1.0 / b;
    }
  }

  lemma ReciprocalLe(a: real, b: real)
    requires 0.0 < a <= b
    ensures 1.0 / a >= 1.0 / b
  {
  }

  lemma {:induction false} HarmonicMonotone(m: nat, n: nat)
    requires m <= n
    ensures 0.0 <= Harmonic(m) <= Harmonic(n)
  {
    if m < n { HarmonicMonotone(m, n - 1); } else if m > 0 { HarmonicMonotone(m - 1, n - 1); }
  }

  /** Each of the n-m terms between H(m) and H(n) is at most 1/(m+1). */
  lemma {:induction false} HarmonicRise(m: nat, n: nat)
    requires m <= n
    ensures Harmonic(n) - Harmonic(m) <= (n - m) as real / ((m + 1) as real)
  {
    if m < n {
      HarmonicRise(m, n - 1);
      var a, b := (m + 1) as real, n as real;
      ReciprocalLe(a, b);
      assert (n - m) as real / a == (n - 1 - m) as real / a + 1.0 / a;
    }
  }

  function Pow2(k: nat): (p: nat)
    ensures p > 0
  {
    if k == 0 then 1 else 2 * Pow2(k - 1)
  }

  /** H(d) is at most the number of binary digits of d. */
  lemma {:induction false} HarmonicLog(d: nat, k: nat)
    requires d < Pow2(k)
    ensures Harmonic(d) <= k as real
  {
    if k > 0 {
      var m := Pow2(k - 1) - 1;
      if d <= m {
        HarmonicLog(d, k - 1);
      } else {
        HarmonicLog(m, k - 1);
        HarmonicRise(m, d);
        ShareAtMostOne(d - m, m + 1);
      }
    }
  }

  lemma ShareAtMostOne(a: nat, b: nat)
    requires a <= b && b > 0
    ensures a as real / (b as real) <= 1.0
  {
  }

  /** What the patches of the competing cover still miss, weighed harmonically. */
  ghost function Potential(patches: seq<set<nat>>, cover: seq<nat>, c: set<nat>): real
    requires InRange(patches, cover)
  {
    if cover == [] then 0.0
    else Potential(patches, cover[..|cover| - 1], c) + Harmonic(|patches[cover[|cover| - 1]] - c|)
  }

  ghost function Overlap(patches: seq<set<nat>>, cover: seq<nat>, newly: set<nat>): nat
    requires InRange(patches, cover)
  {
    if cover == [] then 0
    else Overlap(patches, cover[..|cover| - 1], newly) + |patches[cover[|cover| - 1]] * newly|
  }

  lemma {:induction false} OverlapReaches(patches: seq<set<nat>>, cover: seq<nat>, newly: set<nat>)
    requires InRange(patches, cover)
    ensures Overlap(patches, cover, newly) >= |Covered(patches, cover) * newly|
  {
    if cover != [] {
      var init, last := cover[..|cover| - 1], patches[cover[|cover| - 1]];
      OverlapReaches(patches, init, newly);
      var a, b := Covered(patches, init) * newly, last * newly;
      assert Covered(patches, cover) * newly == a + b;
      assert |a + b| <= |a| + |b|;
    }
  }

  lemma ShareGrows(h: real, n: real, g: real)
    requires h >= 0.0 && 0.0 < n <= g
    ensures h / n >= h / g
  {
    ReciprocalLe(n, g);
    assert h / n == h * (1.0 / n) && h / g == h * (1.0 / g);
  }

  lemma SharesAdd(a: real, b: real, g: real)
    requires g > 0.0
    ensures (a + b) / g == a / g + b / g
  {
  }

  /** Dropping h of n missing elements is worth at least h/g when n <= g. */
  lemma DropWorth(n: nat, h: nat, g: nat)
    requires h <= n <= g && g > 0
    ensures Harmonic(n) - Harmonic(n - h) >= h as real / g as real
  {
    if n > 0 {
      HarmonicGap(n - h, n);
      ShareGrows(h as real, n as real, g as real);
    }
  }

  /** Covering `newly` lowers the weight of one patch by at least its share of `newly`. */
  lemma OnePatchDrop(patch: set<nat>, c: set<nat>, newly: set<nat>)
    requires newly !! c && newly != {} && |patch - c| <= |newly|
    ensures Harmonic(|patch - c|) - Harmonic(|patch - (c + newly)|) >= |patch * newly| as real / |newly| as real
  {
    SplitSizes(patch, c, newly);
    DropWorth(|patch - c|, |patch * newly|, |newly|);
  }

  lemma SplitSizes(patch: set<nat>, c: set<nat>, newly: set<nat>)
    requires newly !! c
    ensures |patch - c| == |patch - (c + newly)| + |patch * newly|
  {
    assert patch - c == (patch - (c + newly)) + patch * newly;
  }

  lemma {:induction false} PotentialDrop(patches: seq<set<nat>>, cover: seq<nat>, c: set<nat>, newly: set<nat>)
    requires InRange(patches, cover)
    requires newly !! c && newly != {}
    requires forall p :: 0 <= p < |patches| ==> |patches[p] - c| <= |newly|
    ensures Potential(patches, cover, c) - Potential(patches, cover, c + newly)
            >= Overlap(patches, cover, newly) as real / |newly| as real
  {
    if cover != [] {
      var k := |cover| - 1;
      var last := patches[cover[k]];
      PotentialDrop(patches, cover[..k], c, newly);
      OnePatchDrop(last, c, newly);
      SharesAdd(Overlap(patches, cover[..k], newly) as real, |last * newly| as real, |newly| as real);
    }
  }

  lemma AtLeastOne(o: nat, g: nat)
    requires o >= g > 0
    ensures o as real / g as real >= 1.0
  {
  }

  /** Every greedy round uses up at least one unit of potential. */
  lemma RoundDrop(patches: seq<set<nat>>, cover: seq<nat>, sel: seq<nat>, p: nat)
    requires InRange(patches, cover) && InRange(patches, sel) && IsPick(patches, sel, p)
    requires patches[p] <= Covered(patches, cover)
    ensures InRange(patches, sel + [p])
    ensures Potential(patches, cover, Covered(patches, sel)) >= Potential(patches, cover, Covered(patches, sel + [p])) + 1.0
  {
    var c := Covered(patches, sel);
    var newly := patches[p] - c;
    CoveredSnoc(patches, sel, p);
    assert c + newly == Covered(patches, sel + [p]);
    forall q | 0 <= q < |patches| ensures |patches[q] - c| <= |newly| {
      assert Gain(patches, sel, q) <= Gain(patches, sel, p);
    }
    PotentialDrop(patches, cover, c, newly);
    OverlapReaches(patches, cover, newly);
    assert Covered(patches, cover) * newly == newly;
    AtLeastOne(Overlap(patches, cover, newly), |newly|);
  }

  lemma {:induction false} PotentialNonNegative(patches: seq<set<nat>>, cover: seq<nat>, c: set<nat>)
    requires InRange(patches, cover)
    ensures Potential(patches, cover, c) >= 0.0
  {
    if cover != [] {
      PotentialNonNegative(patches, cover[..|cover| - 1], c);
      HarmonicMonotone(0, |patches[cover[|cover| - 1]] - c|);
    }
  }

  lemma {:induction false} PotentialStart(patches: seq<set<nat>>, cover: seq<nat>, d: nat)
    requires InRange(patches, cover)
    requires forall p :: 0 <= p < |patches| ==> |patches[p]| <= d
    ensures Potential(patches, cover, {}) <= Harmonic(d) * |cover| as real
  {
    if cover != [] {
      var last := patches[cover[|cover| - 1]];
      PotentialStart(patches, cover[..|cover| - 1], d);
      assert last - {} == last;
      HarmonicMonotone(|last|, d);
      var h, k := Harmonic(d), (|cover| - 1) as real;
      assert h * (k + 1.0) == h * k + h;
    }
  }

  lemma {:induction false} RunSpendsPotential(patches: seq<set<nat>>, n: nat, cover: seq<nat>, sel: seq<nat>)
    requires IsGreedyRun(patches, n, sel) && InRange(patches, cover)
    requires forall p :: 0 <= p < |patches| ==> patches[p] <= Covered(patches, cover)
    ensures Potential(patches, cover, {}) >= Potential(patches, cover, Covered(patches, sel)) + |sel| as real
  {
    if sel != [] {
      var k := |sel| - 1;
      var init := sel[..k];
      RunSpendsPotential(patches, n, cover, init);
      RoundDrop(patches, cover, init, sel[k]);
      assert init + [sel[k]] == sel;
    }
  }

  /** For any collection `cover` of the patches whose union holds every patch, and any
      bound d on the patch sizes, a greedy run selects at most H(d)·|cover| patches. */
  lemma GreedyWithinHarmonicFactor(patches: seq<set<nat>>, n: nat, sel: seq<nat>, cover: seq<nat>, d: nat)
    requires IsGreedyRun(patches, n, sel) && CoversUniverse(patches, n)
    requires InRange(patches, cover) && Covered(patches, cover) == Range(n)
    requires forall p :: 0 <= p < |patches| ==> |patches[p]| <= d
    ensures |sel| as real <= Harmonic(d) * |cover| as real
  {
    RunSpendsPotential(patches, n, cover, sel);
    PotentialNonNegative(patches, cover, Covered(patches, sel));
    PotentialStart(patches, cover, d);
  }

  /** The bound on what a caller gets: the rounds of every reported selection. */
  lemma ReportWithinHarmonicFactor(patches: seq<set<nat>>, n: nat, ids: seq<nat>, result: PatchSelection, cover: seq<nat>, d: nat)
    requires |ids| == |patches| && IsGreedySelection(patches, n, ids, result) && CoversUniverse(patches, n)
    requires InRange(patches, cover) && Covered(patches, cover) == Range(n)
    requires forall p :: 0 <= p < |patches| ==> |patches[p]| <= d
    ensures result.iterations == |result.selected|
    ensures result.iterations as real <= Harmonic(d) * |cover| as real
  {
    hide Exhausted, Covered, Harmonic;
    var sel :| IsGreedyResult(patches, n, sel) && result == Report(patches, ids, sel);
    GreedyWithinHarmonicFactor(patches, n, sel, cover, d);
  }

  /** The bound without harmonic numbers: with patches below 2^k elements, at most k rounds for
      each patch of any cover. */
  lemma ReportWithinLogFactor(patches: seq<set<nat>>, n: nat, ids: seq<nat>, result: PatchSelection, cover: seq<nat>, k: nat)
    requires |ids| == |patches| && IsGreedySelection(patches, n, ids, result) && CoversUniverse(patches, n)
    requires InRange(patches, cover) && Covered(patches, cover) == Range(n)
    requires forall p :: 0 <= p < |patches| ==> |patches[p]| < Pow2(k)
    ensures result.iterations as real <= k as real * |cover| as real
  {
    hide IsGreedySelection, CoversUniverse, Harmonic, Covered, Range, Pow2;
    var d: nat := Pow2(k) - 1;
    ReportWithinHarmonicFactor(patches, n, ids, result, cover, d);
    HarmonicLog(d, k);
    ScaleReal(Harmonic(d), k as real, |cover| as real);
  }

  lemma ScaleReal(a: real, b: real, c: real)
    requires a <= b && c >= 0.0
    ensures a * c <= b * c
  {
  }
}
