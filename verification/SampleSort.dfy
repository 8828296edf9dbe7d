/** Splitters from evenly spaced samples, and the load they guarantee. */
module SampleSort {
  import opened Arithmetic
  import opened Sequences
  import opened Collectives
  import opened Routing
  import opened PatchSet

  const SAMPLES_PER_RANK: nat := 128

  function SampleIndex(i: nat, n: nat): nat
    requires n > 0
  {
    if n <= SAMPLES_PER_RANK then (if i < n - 1 then i else n - 1)
    else (i * (n - 1)) / (SAMPLES_PER_RANK - 1)
  }

  lemma ScaledAtMost(i: nat, m: nat, d: nat)
    requires d > 0 && i <= d
    ensures (i * m) / d <= m
  {
    MulLe(i, d, m);
    DivLe(i * m, m * d, d);
    DivOfMultiple(m, d);
  }

  lemma SampleIndexInRange(i: nat, n: nat)
    requires n > 0 && i < SAMPLES_PER_RANK
    ensures SampleIndex(i, n) < n
  {
    if n > SAMPLES_PER_RANK { ScaledAtMost(i, n - 1, SAMPLES_PER_RANK - 1); }
  }

  /** What a rank contributes: its hashes at the sample positions, zeros if it has none. */
  ghost predicate IsSample(sample: seq<nat>, uniq: seq<nat>) {
    && |sample| == SAMPLES_PER_RANK
    && (uniq == [] ==> forall i :: 0 <= i < SAMPLES_PER_RANK ==> sample[i] == 0)
    && (uniq != [] ==> forall i :: 0 <= i < SAMPLES_PER_RANK ==>
          SampleIndex(i, |uniq|) < |uniq| && sample[i] == uniq[SampleIndex(i, |uniq|)])
  }

  /** The positions in numbers: every hash once and the last one repeated, or position p with
      p = i(n - 1)/127 rounded down. */
  lemma SamplesInNumbers(sample: seq<nat>, uniq: seq<nat>)
    requires IsSample(sample, uniq)
    ensures |sample| == 128 && (uniq == [] ==> forall i :: 0 <= i < 128 ==> sample[i] == 0)
    ensures 0 < |uniq| <= 128 ==> forall i :: 0 <= i < 128 ==> sample[i] == uniq[if i < |uniq| then i else |uniq| - 1]
    ensures |uniq| > 128 ==> forall i: nat, p: nat :: i < 128 && p * 127 <= i * (|uniq| - 1) < p * 127 + 127 ==>
      p < |uniq| && sample[i] == uniq[p]
  {
    if |uniq| > 128 {
      forall i: nat, p: nat | i < 128 && p * 127 <= i * (|uniq| - 1) < p * 127 + 127
        ensures p < |uniq| && sample[i] == uniq[p]
      {
        DivUnique(i * (|uniq| - 1), p, 127);
      }
    }
  }

  /** Step 1: a fixed number of evenly spaced samples; too short a list repeats its last
      hash, an empty one contributes zeros. */
  method LocalSample(uniq: seq<nat>) returns (sample: seq<nat>)
    ensures IsSample(sample, uniq) && |sample| == 128
  {
    sample := [];
    for i := 0 to SAMPLES_PER_RANK
      invariant |sample| == i
      invariant uniq == [] ==> forall j :: 0 <= j < i ==> sample[j] == 0
      invariant uniq != [] ==> forall j :: 0 <= j < i ==>
                  SampleIndex(j, |uniq|) < |uniq| && sample[j] == uniq[SampleIndex(j, |uniq|)]
    {
      if uniq == [] {
        sample := sample + [0];
      } else {
        SampleIndexInRange(i, |uniq|);
        sample := sample + [uniq[SampleIndex(i, |uniq|)]];
      }
    }
  }

  function Insert(t: seq<nat>, x: nat): seq<nat>
    requires Ascending(t)
  {
    var k := UpperBound(t, x);
    t[..k] + [x] + t[k..]
  }

  lemma InsertKeepsOrder(t: seq<nat>, x: nat)
    requires Ascending(t)
    ensures Ascending(Insert(t, x)) && multiset(Insert(t, x)) == multiset(t) + multiset{x}
  {
    var k := UpperBound(t, x);
    assert t == t[..k] + t[k..];
  }

  /** std::sort on plain values. */
  method SortValues(s: seq<nat>) returns (t: seq<nat>)
    ensures Ascending(t) && multiset(t) == multiset(s)
  {
    t := [];
    for i := 0 to |s|
      invariant Ascending(t) && multiset(t) == multiset(s[..i])
    {
      assert s[..i + 1] == s[..i] + [s[i]];
      InsertKeepsOrder(t, s[i]);
      t := Insert(t, s[i]);
    }
    assert s[..|s|] == s;
  }

  ghost predicate AllSampled(samples: seq<seq<nat>>, uniqs: seq<seq<nat>>) {
    |samples| == |uniqs| && forall q :: 0 <= q < |uniqs| ==> IsSample(samples[q], uniqs[q])
  }

  /** The sorted samples of all ranks decide the splitters: every SAMPLES_PER_RANK-th one. */
  ghost predicate AreSplitters(splitters: seq<nat>, samples: seq<seq<nat>>, sorted: seq<nat>) {
    && |samples| > 0 && |splitters| == |samples| - 1
    && (forall q :: 0 <= q < |samples| ==> |samples[q]| == SAMPLES_PER_RANK)
    && |sorted| == |samples| * SAMPLES_PER_RANK
    && Ascending(sorted) && multiset(sorted) == multiset(Flatten(samples))
    && forall r :: 0 <= r < |splitters| ==> splitters[r] == sorted[(r + 1) * SAMPLES_PER_RANK]
  }

  method ComputeSplitters(uniqs: seq<seq<nat>>) returns (splitters: seq<nat>, ghost samples: seq<seq<nat>>, ghost sorted: seq<nat>)
    requires |uniqs| > 0
    ensures Ascending(splitters) && |splitters| + 1 == |uniqs|
    ensures |uniqs| > 1 ==> AllSampled(samples, uniqs) && AreSplitters(splitters, samples, sorted)
    ensures |uniqs| > 1 ==> forall r :: 0 <= r < |splitters| ==> (r + 1) * 128 < |sorted| && splitters[r] == sorted[(r + 1) * 128]
  {
    samples, sorted := [], [];
    if |uniqs| <= 1 { return [], samples, sorted; }
    var gathered: seq<seq<nat>> := [];
    for q := 0 to |uniqs|
      invariant |gathered| == q && forall r :: 0 <= r < q ==> IsSample(gathered[r], uniqs[r])
    {
      var sample := LocalSample(uniqs[q]);
      gathered := gathered + [sample];
    }
    var all := SortValues(Flatten(gathered));
    SampleTotal(gathered, all);
    splitters := [];
    for r := 1 to |uniqs|
      invariant |splitters| == r - 1
      invariant forall s :: 0 <= s < r - 1 ==> splitters[s] == all[(s + 1) * SAMPLES_PER_RANK]
    {
      assert r * SAMPLES_PER_RANK < |all|;
      splitters := splitters + [all[r * SAMPLES_PER_RANK]];
    }
    samples, sorted := gathered, all;
    forall i, j | 0 <= i <= j < |splitters| ensures splitters[i] <= splitters[j] {
      assert (i + 1) * SAMPLES_PER_RANK <= (j + 1) * SAMPLES_PER_RANK;
    }
  }

  lemma SampleTotal(samples: seq<seq<nat>>, sorted: seq<nat>)
    requires multiset(sorted) == multiset(Flatten(samples))
    requires forall q :: 0 <= q < |samples| ==> |samples[q]| == SAMPLES_PER_RANK
    ensures |sorted| == |samples| * SAMPLES_PER_RANK
  {
    assert |sorted| == |multiset(sorted)| == |Flatten(samples)|;
    FlattenLength(samples);
    SumConstant(Lengths(samples), SAMPLES_PER_RANK);
  }

  // ----- load bound ------------------------------------------------------------

  ghost function Count(s: seq<nat>, p: nat -> bool): nat {
    if s == [] then 0 else Count(s[..|s| - 1], p) + (if p(s[|s| - 1]) then 1 else 0)
  }

  lemma {:induction false} CountConcat(s: seq<nat>, t: seq<nat>, p: nat -> bool)
    ensures Count(s + t, p) == Count(s, p) + Count(t, p)
  {
    if t == [] {
      assert s + t == s;
    } else {
      CountConcat(s, t[..|t| - 1], p);
      assert (s + t)[..|s + t| - 1] == s + t[..|t| - 1];
    }
  }

  lemma CountOne(x: nat, p: nat -> bool)
    ensures Count([x], p) == if p(x) then 1 else 0
  {
    assert [x][..0] == [];
  }

  lemma RemoveOne(s: seq<nat>, t: seq<nat>, u: seq<nat>, x: nat)
    requires multiset(s + [x]) == multiset(t + [x] + u)
    ensures multiset(s) == multiset(t + u)
  {
    assert multiset(s) == multiset(s + [x]) - multiset{x};
    assert multiset(t + u) == multiset(t + [x] + u) - multiset{x};
  }

  /** Rearranging a list does not change how many entries satisfy p. */
  lemma {:induction false} CountPermuted(s: seq<nat>, t: seq<nat>, p: nat -> bool)
    requires multiset(s) == multiset(t)
    ensures Count(s, p) == Count(t, p)
  {
    if s == [] {
      assert |multiset(t)| == 0;
    } else {
      var n := |s| - 1;
      var x := s[n];
      assert x in multiset(s);
      var k :| 0 <= k < |t| && t[k] == x;
      assert t == t[..k] + [x] + t[k + 1..];
      assert s == s[..n] + [x];
      RemoveOne(s[..n], t[..k], t[k + 1..], x);
      CountPermuted(s[..n], t[..k] + t[k + 1..], p);
      CountConcat(t[..k], t[k + 1..], p);
      CountConcat(t[..k] + [x], t[k + 1..], p);
      CountConcat(t[..k], [x], p);
      CountOne(x, p);
    }
  }

  lemma {:induction false} CountAtMost(s: seq<nat>, p: nat -> bool)
    ensures Count(s, p) <= |s|
  {
    if s != [] { CountAtMost(s[..|s| - 1], p); }
  }

  lemma {:induction false} CountImplies(s: seq<nat>, p: nat -> bool, q: nat -> bool)
    requires forall i :: 0 <= i < |s| && p(s[i]) ==> q(s[i])
    ensures Count(s, p) <= Count(s, q)
  {
    if s != [] { CountImplies(s[..|s| - 1], p, q); }
  }

  lemma {:induction false} CountNone(s: seq<nat>, p: nat -> bool)
    requires forall i :: 0 <= i < |s| ==> !p(s[i])
    ensures Count(s, p) == 0
  {
    if s != [] { CountNone(s[..|s| - 1], p); }
  }

  lemma {:induction false} CountOnce(s: seq<nat>, v: nat)
    requires StrictlyAscending(s)
    ensures Count(s, x => x == v) <= 1
  {
    if s != [] {
      var n := |s| - 1;
      CountOnce(s[..n], v);
      if s[n] == v { CountNone(s[..n], x => x == v); }
    }
  }

  ghost function Counts(ss: seq<seq<nat>>, p: nat -> bool): (c: seq<int>)
    ensures |c| == |ss| && forall q :: 0 <= q < |ss| ==> c[q] == Count(ss[q], p)
  {
    seq(|ss|, q requires 0 <= q < |ss| => Count(ss[q], p))
  }

  lemma {:induction false} CountFlatten(ss: seq<seq<nat>>, p: nat -> bool)
    ensures Count(Flatten(ss), p) == Sum(Counts(ss, p))
  {
    if ss != [] {
      var n := |ss| - 1;
      CountFlatten(ss[..n], p);
      CountConcat(Flatten(ss[..n]), ss[n], p);
      assert Counts(ss, p)[..n] == Counts(ss[..n], p);
    }
  }

  // -- spacing of the samples of one rank

  /** Neighbouring samples are at most gap positions apart, and never at the same position. */
  lemma SampleSpacing(i: nat, n: nat, gap: nat)
    requires i + 1 < SAMPLES_PER_RANK <= n && n - 1 <= (SAMPLES_PER_RANK - 1) * gap
    ensures SampleIndex(i, n) < SampleIndex(i + 1, n) <= SampleIndex(i, n) + gap
  {
    var d, m := SAMPLES_PER_RANK - 1, n - 1;
    if n == SAMPLES_PER_RANK {
    } else {
      NextMultiple(i, m);
      assert (i + 1) * m == i * m + m;
      DivLe(i * m + m, i * m + gap * d, d);
      DivPlusMultiple(i * m, gap, d);
      DivPlusMultiple(i * m, 1, d);
      DivLe(i * m + 1 * d, i * m + m, d);
    }
  }

  lemma SampleEnds(n: nat)
    requires n >= SAMPLES_PER_RANK
    ensures SampleIndex(0, n) == 0 && SampleIndex(SAMPLES_PER_RANK - 1, n) == n - 1
  {
    DivOfMultiple(n - 1, SAMPLES_PER_RANK - 1);
  }

  lemma {:induction false} SampleIndexAscends(i: nat, j: nat, n: nat)
    requires i < j < SAMPLES_PER_RANK <= n
    ensures SampleIndex(i, n) < SampleIndex(j, n)
  {
    SampleSpacing(j - 1, n, n);
    if i < j - 1 { SampleIndexAscends(i, j - 1, n); }
  }

  lemma SampleAscends(sample: seq<nat>, uniq: seq<nat>)
    requires IsSample(sample, uniq) && StrictlyAscending(uniq) && |uniq| >= SAMPLES_PER_RANK
    ensures StrictlyAscending(sample)
  {
    forall i, j | 0 <= i < j < |sample| ensures sample[i] < sample[j] {
      SampleIndexAscends(i, j, |uniq|);
    }
  }

  ghost function To(splitters: seq<nat>, t: nat): nat -> bool
    requires Ascending(splitters)
  {
    (h: nat) => TargetRank(h, splitters) == t
  }

  /** Nothing for target t before the first sample bound for t, then at most gap hashes per
      such sample, and at most one more gap after the last. */
  ghost predicate LoadOk(load: nat, hits: nat, at: nat, t: nat, gap: nat) {
    && (at < t ==> load == 0)
    && (at == t ==> load <= hits * gap)
    && (at > t ==> load <= (hits + 1) * gap)
  }

  lemma LoadStep(load: nat, hits: nat, at: nat, load': nat, hits': nat, at': nat, t: nat, gap: nat)
    requires LoadOk(load, hits, at, t, gap) && at <= at' && load' <= load + gap
    requires at > t ==> load' == load
    requires at' < t ==> load' == 0
    requires hits' == hits + (if at' == t then 1 else 0)
    ensures LoadOk(load', hits', at', t, gap)
  {
    assert (hits + 1) * gap == hits * gap + gap;
    assert (hits + 2) * gap == (hits + 1) * gap + gap;
  }

  lemma {:induction false} LoadUpToSample(uniq: seq<nat>, sample: seq<nat>, splitters: seq<nat>, t: nat, gap: nat, j: nat)
    requires Ascending(splitters) && StrictlyAscending(uniq) && IsSample(sample, uniq)
    requires |uniq| >= SAMPLES_PER_RANK && |uniq| - 1 <= (SAMPLES_PER_RANK - 1) * gap && j < SAMPLES_PER_RANK
    ensures SampleIndex(j, |uniq|) < |uniq| && sample[j] == uniq[SampleIndex(j, |uniq|)]
    ensures LoadOk(Count(uniq[..SampleIndex(j, |uniq|) + 1], To(splitters, t)), Count(sample[..j + 1], To(splitters, t)),
                   TargetRank(sample[j], splitters), t, gap)
  {
    hide TargetRank, SampleIndex, LoadOk, StrictlyAscending, Ascending, Count;
    var n, p := |uniq|, To(splitters, t);
    if j == 0 {
      FirstSample(uniq, sample, splitters, t, gap);
    } else {
      LoadUpToSample(uniq, sample, splitters, t, gap, j - 1);
      SampleSpacing(j - 1, n, gap);
      var a, b := SampleIndex(j - 1, n) + 1, SampleIndex(j, n) + 1;
      StretchLoad(uniq, splitters, t, a, b, gap);
      CountSnoc(sample, j, p);
      AscendingAt(uniq, a - 1, b - 1);
      TargetMonotone(sample[j - 1], sample[j], splitters);
      LoadStep(Count(uniq[..a], p), Count(sample[..j], p), TargetRank(sample[j - 1], splitters),
               Count(uniq[..b], p), Count(sample[..j + 1], p), TargetRank(sample[j], splitters), t, gap);
    }
  }

  lemma FirstSample(uniq: seq<nat>, sample: seq<nat>, splitters: seq<nat>, t: nat, gap: nat)
    requires Ascending(splitters) && IsSample(sample, uniq)
    requires |uniq| >= SAMPLES_PER_RANK && |uniq| - 1 <= (SAMPLES_PER_RANK - 1) * gap
    ensures SampleIndex(0, |uniq|) < |uniq| && sample[0] == uniq[SampleIndex(0, |uniq|)]
    ensures LoadOk(Count(uniq[..SampleIndex(0, |uniq|) + 1], To(splitters, t)), Count(sample[..1], To(splitters, t)),
                   TargetRank(sample[0], splitters), t, gap)
  {
    hide TargetRank;
    SampleEnds(|uniq|);
    assert uniq[..1] == [uniq[0]] && sample[..1] == [sample[0]];
    CountOne(uniq[0], To(splitters, t));
  }

  lemma CountSnoc(s: seq<nat>, i: nat, p: nat -> bool)
    requires i < |s|
    ensures Count(s[..i + 1], p) == Count(s[..i], p) + (if p(s[i]) then 1 else 0)
  {
    assert s[..i + 1][..i] == s[..i];
  }

  lemma AscendingAt(s: seq<nat>, i: nat, j: nat)
    requires StrictlyAscending(s) && i < j < |s|
    ensures s[i] < s[j]
  {
  }

  /** The hashes of positions [a, b): at most b - a of them, none once position a - 1 is past
      target t, and none while position b - 1 is still below it. */
  lemma StretchLoad(uniq: seq<nat>, splitters: seq<nat>, t: nat, a: nat, b: nat, gap: nat)
    requires Ascending(splitters) && StrictlyAscending(uniq) && 0 < a < b <= |uniq| && b <= a + gap
    ensures Count(uniq[..b], To(splitters, t)) <= Count(uniq[..a], To(splitters, t)) + gap
    ensures TargetRank(uniq[a - 1], splitters) > t ==> Count(uniq[..b], To(splitters, t)) == Count(uniq[..a], To(splitters, t))
    ensures TargetRank(uniq[b - 1], splitters) < t ==> Count(uniq[..b], To(splitters, t)) == 0
  {
    var p := To(splitters, t);
    assert uniq[..b] == uniq[..a] + uniq[a..b];
    CountConcat(uniq[..a], uniq[a..b], p);
    CountAtMost(uniq[a..b], p);
    if TargetRank(uniq[a - 1], splitters) > t {
      forall i | 0 <= i < b - a ensures !p(uniq[a..b][i]) { TargetMonotone(uniq[a - 1], uniq[a + i], splitters); }
      CountNone(uniq[a..b], p);
    }
    if TargetRank(uniq[b - 1], splitters) < t {
      forall i | 0 <= i < b ensures !p(uniq[..b][i]) { TargetMonotone(uniq[i], uniq[b - 1], splitters); }
      CountNone(uniq[..b], p);
    }
  }

  lemma RankLoad(uniq: seq<nat>, sample: seq<nat>, splitters: seq<nat>, t: nat, gap: nat)
    requires Ascending(splitters) && StrictlyAscending(uniq) && IsSample(sample, uniq)
    requires |uniq| >= SAMPLES_PER_RANK && |uniq| - 1 <= (SAMPLES_PER_RANK - 1) * gap
    ensures Count(uniq, To(splitters, t)) <= (Count(sample, To(splitters, t)) + 1) * gap
  {
    hide SampleIndex, TargetRank, Count, StrictlyAscending, Ascending, To;
    LoadUpToSample(uniq, sample, splitters, t, gap, SAMPLES_PER_RANK - 1);
    SampleEnds(|uniq|);
    assert uniq[..|uniq|] == uniq && sample[..SAMPLES_PER_RANK] == sample;
    LoadEnds(Count(uniq, To(splitters, t)), Count(sample, To(splitters, t)), TargetRank(uniq[|uniq| - 1], splitters), t, gap);
  }

  lemma LoadEnds(load: nat, hits: nat, at: nat, t: nat, gap: nat)
    requires LoadOk(load, hits, at, t, gap)
    ensures load <= (hits + 1) * gap
  {
    assert (hits + 1) * gap == hits * gap + gap;
  }

  // -- how many samples are bound for one rank

  /** Bound for t and, past the first rank, strictly above the splitter that opens t. */
  ghost function Inside(splitters: seq<nat>, t: nat): nat -> bool
    requires Ascending(splitters) && t <= |splitters|
  {
    (h: nat) => TargetRank(h, splitters) == t && (t > 0 ==> h > splitters[t - 1])
  }

  /** The splitter that opens t is itself bound for t. */
  function Opening(t: nat): nat { if t > 0 then 1 else 0 }

  lemma {:induction false} CountEither(s: seq<nat>, p: nat -> bool, q: nat -> bool, r: nat -> bool)
    requires forall x :: p(x) ==> q(x) || r(x)
    ensures Count(s, p) <= Count(s, q) + Count(s, r)
  {
    if s != [] { CountEither(s[..|s| - 1], p, q, r); }
  }

  /** Of distinct hashes at most one that is bound for t is not inside: the splitter. */
  lemma DistinctInside(s: seq<nat>, splitters: seq<nat>, t: nat)
    requires Ascending(splitters) && t <= |splitters| && StrictlyAscending(s)
    ensures Count(s, To(splitters, t)) <= Count(s, Inside(splitters, t)) + Opening(t)
  {
    if t == 0 {
      CountEither(s, To(splitters, t), Inside(splitters, t), Inside(splitters, t));
      CountImplies(s, To(splitters, t), Inside(splitters, t));
    } else {
      var v := splitters[t - 1];
      CountEither(s, To(splitters, t), Inside(splitters, t), x => x == v);
      CountOnce(s, v);
    }
  }

  /** Fewer than 128 positions of the sorted samples hold a sample inside t, whatever the
      samples repeat: those after splitter t's own position and before the next one's. */
  lemma SamplesBound(samples: seq<seq<nat>>, sorted: seq<nat>, splitters: seq<nat>, t: nat)
    requires AreSplitters(splitters, samples, sorted) && Ascending(splitters) && t < |samples|
    ensures Sum(Counts(samples, Inside(splitters, t))) <= SAMPLES_PER_RANK - Opening(t)
  {
    var p := Inside(splitters, t);
    var a, b := t * SAMPLES_PER_RANK + Opening(t), (t + 1) * SAMPLES_PER_RANK;
    CountFlatten(samples, p);
    CountPermuted(sorted, Flatten(samples), p);
    assert b <= |sorted|;
    SplitThree(sorted, a, b);
    CountConcat(sorted[..a] + sorted[a..b], sorted[b..], p);
    CountConcat(sorted[..a], sorted[a..b], p);
    CountAtMost(sorted[a..b], p);
    SamplesAbove(samples, sorted, splitters, t);
    SamplesBelow(samples, sorted, splitters, t);
  }

  lemma SamplesAbove(samples: seq<seq<nat>>, sorted: seq<nat>, splitters: seq<nat>, t: nat)
    requires AreSplitters(splitters, samples, sorted) && Ascending(splitters) && t < |samples|
    ensures (t + 1) * SAMPLES_PER_RANK <= |sorted|
    ensures Count(sorted[(t + 1) * SAMPLES_PER_RANK..], Inside(splitters, t)) == 0
  {
    var b := (t + 1) * SAMPLES_PER_RANK;
    forall i | 0 <= i < |sorted| - b ensures !Inside(splitters, t)(sorted[b..][i]) {
      assert t < |splitters|;
      assert splitters[t] == sorted[b] <= sorted[b + i];
    }
    CountNone(sorted[b..], Inside(splitters, t));
  }

  lemma SamplesBelow(samples: seq<seq<nat>>, sorted: seq<nat>, splitters: seq<nat>, t: nat)
    requires AreSplitters(splitters, samples, sorted) && Ascending(splitters) && t < |samples|
    ensures t * SAMPLES_PER_RANK + Opening(t) <= |sorted|
    ensures Count(sorted[..t * SAMPLES_PER_RANK + Opening(t)], Inside(splitters, t)) == 0
  {
    var a := t * SAMPLES_PER_RANK + Opening(t);
    forall i | 0 <= i < a ensures !Inside(splitters, t)(sorted[..a][i]) {
      assert t > 0 ==> splitters[t - 1] == sorted[a - 1] >= sorted[i];
    }
    CountNone(sorted[..a], Inside(splitters, t));
  }

  /** A rank with up to 128 hashes samples every one of them. */
  lemma ShortSample(sample: seq<nat>, uniq: seq<nat>, p: nat -> bool)
    requires IsSample(sample, uniq) && |uniq| <= SAMPLES_PER_RANK
    ensures Count(uniq, p) <= Count(sample, p)
  {
    var n := |uniq|;
    assert uniq == sample[..n];
    assert sample == sample[..n] + sample[n..];
    CountConcat(sample[..n], sample[n..], p);
  }

  /** What one rank sends to t: at most gap hashes per sample inside t, and one gap more on
      either side. */
  lemma AnyRankLoad(uniq: seq<nat>, sample: seq<nat>, splitters: seq<nat>, t: nat, gap: nat)
    requires Ascending(splitters) && t <= |splitters| && StrictlyAscending(uniq) && IsSample(sample, uniq)
    requires gap > 0 && |uniq| <= (SAMPLES_PER_RANK - 1) * gap + 1
    ensures Count(uniq, To(splitters, t)) <= (Count(sample, Inside(splitters, t)) + Opening(t) + 1) * gap
  {
    hide TargetRank, Count, StrictlyAscending, Ascending, To, Inside, IsSample;
    var hits := Count(sample, Inside(splitters, t)) + Opening(t);
    if |uniq| <= SAMPLES_PER_RANK {
      DistinctInside(uniq, splitters, t);
      ShortSample(sample, uniq, Inside(splitters, t));
      MulUp(1, gap, hits + 1);
    } else {
      RankLoad(uniq, sample, splitters, t, gap);
      SampleAscends(sample, uniq);
      DistinctInside(sample, splitters, t);
      MulUp(Count(sample, To(splitters, t)) + 1, hits + 1, gap);
    }
  }

  // -- what a rank receives

  lemma {:induction false} BucketCount(uniq: seq<nat>, splitters: seq<nat>, t: nat)
    requires Ascending(splitters)
    ensures |Bucket(uniq, Targets(uniq, splitters), t)| == Count(uniq, To(splitters, t))
  {
    if uniq != [] {
      var n := |uniq| - 1;
      BucketCount(uniq[..n], splitters, t);
      assert Targets(uniq, splitters)[..n] == Targets(uniq[..n], splitters);
    }
  }

  lemma ReceivedCount(raw: seq<seq<seq<nat>>>, splitters: seq<nat>, bufs: seq<seq<nat>>, counts: seq<seq<nat>>, t: nat)
    requires Ascending(splitters) && AllPacked(raw, splitters, bufs, counts) && t < |raw|
    ensures Exchangeable(bufs, counts)
    ensures |Alltoallv(bufs, counts)[t]| == Sum(Counts(Uniqs(raw), To(splitters, t)))
  {
    PackedExchange(raw, splitters, bufs, counts);
    hide AllPacked, Exchangeable, GlobalHashes, TargetRank, Count, Bucket, Flatten, Sum, Ascending, To;
    var col := Column(bufs, counts, t);
    FlattenLength(col);
    forall r | 0 <= r < |raw| ensures |col[r]| == Count(Uniqs(raw)[r], To(splitters, t)) {
      BucketCount(Uniqs(raw)[r], splitters, t);
    }
    assert Lengths(col) == Counts(Uniqs(raw), To(splitters, t));
  }

  lemma {:induction false} SumScaled(loads: seq<int>, hits: seq<int>, extra: nat, gap: nat)
    requires |loads| == |hits| && forall q :: 0 <= q < |loads| ==> loads[q] <= (hits[q] + extra) * gap
    ensures Sum(loads) <= (Sum(hits) + extra * |hits|) * gap
  {
    if loads != [] {
      var n := |loads| - 1;
      SumScaled(loads[..n], hits[..n], extra, gap);
      NextMultiple(n, extra);
      assert extra * (n + 1) == extra * n + extra;
      AddScaled(Sum(hits[..n]) + extra * n, hits[n] + extra, gap);
    }
  }

  lemma AddScaled(a: int, b: int, gap: nat)
    ensures (a + b) * gap == a * gap + b * gap
  {
  }

  /** gap is at least 1 and bounds ceil((n_q - 1)/127) over the ranks' distinct hashes. */
  ghost predicate Spaced(raw: seq<seq<seq<nat>>>, gap: nat) {
    gap > 0 && forall q :: 0 <= q < |raw| ==> |Uniqs(raw)[q]| <= 127 * gap + 1
  }

  /** No rank receives more than gap·(127 + 2P) hashes, however few hashes any rank holds. */
  lemma LoadBound(raw: seq<seq<seq<nat>>>, samples: seq<seq<nat>>, sorted: seq<nat>, splitters: seq<nat>,
                  bufs: seq<seq<nat>>, counts: seq<seq<nat>>, t: nat, gap: nat)
    requires AreSplitters(splitters, samples, sorted) && Ascending(splitters)
    requires AllPacked(raw, splitters, bufs, counts) && t < |raw|
    requires AllSampled(samples, Uniqs(raw))
    requires Spaced(raw, gap)
    ensures Exchangeable(bufs, counts)
    ensures |Alltoallv(bufs, counts)[t]| <= gap * (127 + 2 * |raw|)
  {
    hide AllPacked, To, Inside, AreSplitters, IsSample, Ascending, TargetRank, Count, Exchangeable, Alltoallv, Spaced, Uniqs,
         Counts, Sum;
    SampleRanks(samples, sorted, splitters);
    assert |samples| == |raw|;
    hide AllSampled;
    ReceivedCount(raw, splitters, bufs, counts, t);
    SamplesBound(samples, sorted, splitters, t);
    RankLoads(raw, samples, splitters, t, gap);
    TotalLoad(Counts(Uniqs(raw), To(splitters, t)), Counts(samples, Inside(splitters, t)), Opening(t), gap);
  }

  lemma RankLoads(raw: seq<seq<seq<nat>>>, samples: seq<seq<nat>>, splitters: seq<nat>, t: nat, gap: nat)
    requires Ascending(splitters) && t <= |splitters| && Spaced(raw, gap)
    requires AllSampled(samples, Uniqs(raw))
    ensures var loads, hits := Counts(Uniqs(raw), To(splitters, t)), Counts(samples, Inside(splitters, t));
            forall q :: 0 <= q < |loads| ==> loads[q] <= (hits[q] + (Opening(t) + 1)) * gap
  {
    hide To, Inside, IsSample, StrictlyAscending, Ascending, TargetRank, Count, Uniqs;
    var loads, hits := Counts(Uniqs(raw), To(splitters, t)), Counts(samples, Inside(splitters, t));
    forall q | 0 <= q < |loads| ensures loads[q] <= (hits[q] + (Opening(t) + 1)) * gap {
      AnyRankLoad(Uniqs(raw)[q], samples[q], splitters, t, gap);
    }
  }

  lemma TotalLoad(loads: seq<int>, hits: seq<int>, opening: nat, gap: nat)
    requires |loads| == |hits| > 0 && opening <= 1 && Sum(hits) <= SAMPLES_PER_RANK - opening
    requires forall q :: 0 <= q < |loads| ==> loads[q] <= (hits[q] + (opening + 1)) * gap
    ensures Sum(loads) <= gap * (SAMPLES_PER_RANK - 1 + 2 * |loads|)
  {
    SumScaled(loads, hits, opening + 1, gap);
    MulUp(Sum(hits) + (opening + 1) * |hits|, SAMPLES_PER_RANK - 1 + 2 * |loads|, gap);
  }

  lemma SampleRanks(samples: seq<seq<nat>>, sorted: seq<nat>, splitters: seq<nat>)
    requires AreSplitters(splitters, samples, sorted)
    ensures |samples| == |splitters| + 1
  {
  }

  lemma MulUp(a: int, b: int, gap: nat)
    requires a <= b
    ensures a * gap <= gap * b
  {
  }

  // ----- the mapping as it runs ------------------------------------------------

  lemma {:induction false} SetNoLarger<T>(s: seq<T>)
    ensures |ToSet(s)| <= |s|
  {
    if s != [] {
      var n := |s| - 1;
      SetNoLarger(s[..n]);
      assert s == s[..n] + [s[n]];
      assert ToSet(s) == ToSet(s[..n]) + {s[n]};
    }
  }

  /** A shard is no larger than what its rank received. */
  lemma ShardWithinLoad(raw: seq<seq<seq<nat>>>, splitters: seq<nat>, outs: seq<IdMappedPatches>, t: nat)
    requires Ascending(splitters) && |raw| == |splitters| + 1 == |outs| && SplitBy(splitters, raw, outs) && t < |outs|
    ensures Exchangeable(PackedBufs(raw, splitters), PackedCounts(raw, splitters))
    ensures AllPacked(raw, splitters, PackedBufs(raw, splitters), PackedCounts(raw, splitters))
    ensures |outs[t].shardHashes| <= |Alltoallv(PackedBufs(raw, splitters), PackedCounts(raw, splitters))[t]|
  {
    hide GlobalHashes, TargetRank, Alltoallv, Flatten;
    var bufs, counts := PackedBufs(raw, splitters), PackedCounts(raw, splitters);
    PackedExchange(raw, splitters, bufs, counts);
    var shard, recv := outs[t].shardHashes, Alltoallv(bufs, counts)[t];
    forall h | h in ToSet(shard) ensures h in ToSet(recv) { ReceivedHashes(raw, splitters, bufs, counts, t, h); }
    DistinctSize(shard);
    SubsetSize(ToSet(shard), ToSet(recv));
    SetNoLarger(recv);
  }

  /** Balanced shards: none exceeds gap·(127 + 2P) hashes, for any spacing bound gap. */
  ghost predicate Balanced(raw: seq<seq<seq<nat>>>, outs: seq<IdMappedPatches>) {
    forall gap: nat, t: nat :: Spaced(raw, gap) && t < |outs| ==>
      |outs[t].shardHashes| <= gap * (127 + 2 * |raw|)
  }

  lemma SplittersBalance(raw: seq<seq<seq<nat>>>, samples: seq<seq<nat>>, sorted: seq<nat>, splitters: seq<nat>,
                         outs: seq<IdMappedPatches>)
    requires Ascending(splitters) && |raw| == |splitters| + 1 == |outs| && SplitBy(splitters, raw, outs)
    requires AreSplitters(splitters, samples, sorted)
    requires AllSampled(samples, Uniqs(raw))
    ensures Balanced(raw, outs)
  {
    hide AllPacked, Uniqs, Alltoallv, SplitBy, AreSplitters, AllSampled, Spaced, Exchangeable, Ascending;
    forall gap: nat, t: nat | Spaced(raw, gap) && t < |outs|
      ensures |outs[t].shardHashes| <= gap * (127 + 2 * |raw|)
    {
      ShardWithinLoad(raw, splitters, outs, t);
      LoadBound(raw, samples, sorted, splitters, PackedBufs(raw, splitters), PackedCounts(raw, splitters), t, gap);
    }
  }

  /** A single rank keeps its own hashes. */
  lemma SingleBalance(raw: seq<seq<seq<nat>>>, outs: seq<IdMappedPatches>)
    requires |raw| == |outs| == 1 && SplitBy([], raw, outs)
    ensures Balanced(raw, outs)
  {
    hide SplitBy, Uniqs;
    SingleShard(raw, outs);
    forall gap: nat, t: nat | Spaced(raw, gap) && t < |outs|
      ensures |outs[t].shardHashes| <= gap * (127 + 2 * |raw|)
    {
      SingleGap(|Uniqs(raw)[0]|, gap);
    }
  }

  lemma SingleGap(n: nat, gap: nat)
    requires gap > 0 && n <= (SAMPLES_PER_RANK - 1) * gap + 1
    ensures n <= gap * (SAMPLES_PER_RANK - 1 + 2)
  {
  }

  lemma SingleShard(raw: seq<seq<seq<nat>>>, outs: seq<IdMappedPatches>)
    requires |raw| == |outs| == 1 && SplitBy([], raw, outs)
    ensures |outs[0].shardHashes| <= |Uniqs(raw)[0]|
  {
    hide SplitBy, Uniqs, Alltoallv, AllPacked, Exchangeable, To;
    ShardWithinLoad(raw, [], outs, 0);
    ReceivedCount(raw, [], PackedBufs(raw, []), PackedCounts(raw, []), 0);
    var counts := Counts(Uniqs(raw), To([], 0));
    assert counts[..0] == [] && Sum(counts) == counts[0];
    CountAtMost(Uniqs(raw)[0], To([], 0));
  }

  /** The collective as the program runs it: the one-process numbering, in balanced shards. */
  method MapHashesToElementIds(raw: seq<seq<seq<nat>>>) returns (outs: seq<IdMappedPatches>)
    requires |raw| > 0
    ensures IsMapped(raw, outs) && Balanced(raw, outs)
  {
    hide IsMapped, Balanced, GlobalHashes, SplitBy, AreSplitters, IsSample;
    var uniqs: seq<seq<nat>> := [];
    for r := 0 to |raw|
      invariant |uniqs| == r && forall q :: 0 <= q < r ==> uniqs[q] == GlobalHashes(raw[q])
    {
      var uniq := LocalUnique(raw[r]);
      uniqs := uniqs + [uniq];
    }
    assert uniqs == Uniqs(raw);
    var splitters, samples, sorted := ComputeSplitters(uniqs);
    outs := MapWithSplitters(raw, uniqs, splitters);
    MappedCount(raw, outs);
    if |raw| > 1 {
      SplittersBalance(raw, samples, sorted, splitters, outs);
    } else {
      assert splitters == [];
      SingleBalance(raw, outs);
    }
  }

  lemma MappedCount(raw: seq<seq<seq<nat>>>, outs: seq<IdMappedPatches>)
    requires IsMapped(raw, outs)
    ensures |outs| == |raw|
  {
  }
}
