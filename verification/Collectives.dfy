/** The collectives the ranks meet in, as functions on one value or buffer per rank. */
module Collectives {
  import opened Sequences

  // ----- maximum with location -------------------------------------------------

  /** at is the smallest position of the largest value. */
  ghost predicate IsLeftmostMax(s: seq<int>, at: nat) {
    && at < |s|
    && (forall i :: 0 <= i < |s| ==> s[i] <= s[at])
    && (forall i :: 0 <= i < at ==> s[i] < s[at])
  }

  /** ArgMax on one device, and MAXLOC over the ranks: ties go to the smallest position. */
  method LeftmostMax(s: seq<int>) returns (at: nat)
    requires s != []
    ensures IsLeftmostMax(s, at)
  {
    at := 0;
    for k := 1 to |s|
      invariant at < k
      invariant forall i :: 0 <= i < k ==> s[i] <= s[at]
      invariant forall i :: 0 <= i < at ==> s[i] < s[at]
    {
      if s[k] > s[at] { at := k; }
    }
  }

  // ----- exclusive scan --------------------------------------------------------

  /** What rank r receives: the sum over the ranks below it, 0 on rank 0. */
  function Exscan(sizes: seq<nat>, r: nat): (s: nat)
    requires r <= |sizes|
    ensures s == Sum(sizes[..r])
  {
    if r == 0 then 0 else
      SumPrefix(sizes, r - 1);
      Exscan(sizes, r - 1) + sizes[r - 1]
  }

  // ----- cutting a buffer by counts --------------------------------------------

  /** Consecutive segments of the given lengths: displacements are prefix sums of counts. */
  function Cut<T>(buf: seq<T>, counts: seq<nat>): (segs: seq<seq<T>>)
    requires Sum(counts) == |buf|
    ensures |segs| == |counts| && Flatten(segs) == buf
    ensures forall t :: 0 <= t < |counts| ==> |segs[t]| == counts[t]
    decreases |counts|
  {
    if counts == [] then [] else
      var last := counts[|counts| - 1];
      SumMonotone(counts, 0, |counts| - 1);
      var init := Cut(buf[..|buf| - last], counts[..|counts| - 1]);
      FlattenSnoc(init, buf[|buf| - last..]);
      init + [buf[|buf| - last..]]
  }

  lemma {:induction false} CutUnique<T>(segs: seq<seq<T>>)
    ensures Sum(Lengths(segs)) == |Flatten(segs)|
    ensures Cut(Flatten(segs), Lengths(segs)) == segs
  {
    FlattenLength(segs);
    if segs != [] {
      var init, last := segs[..|segs| - 1], segs[|segs| - 1];
      CutUnique(init);
      assert Lengths(segs)[..|segs| - 1] == Lengths(init);
      var f := Flatten(segs);
      assert f[..|f| - |last|] == Flatten(init) && f[|f| - |last|..] == last;
      assert segs == init + [last];
    }
  }

  // ----- all-to-all with counts ------------------------------------------------

  /** counts[r][t] entries travel from rank r to rank t. */
  ghost predicate Exchangeable<T>(bufs: seq<seq<T>>, counts: seq<seq<nat>>) {
    && |bufs| == |counts|
    && forall r :: 0 <= r < |counts| ==> |counts[r]| == |counts| && Sum(counts[r]) == |bufs[r]|
  }

  /** What rank r sends to rank t. */
  function Segment<T>(bufs: seq<seq<T>>, counts: seq<seq<nat>>, r: nat, t: nat): (s: seq<T>)
    requires Exchangeable(bufs, counts) && r < |counts| && t < |counts|
    ensures |s| == counts[r][t]
  {
    Cut(bufs[r], counts[r])[t]
  }

  function Column<T>(bufs: seq<seq<T>>, counts: seq<seq<nat>>, t: nat): (c: seq<seq<T>>)
    requires Exchangeable(bufs, counts) && t < |counts|
    ensures |c| == |counts| && forall r :: 0 <= r < |c| ==> c[r] == Segment(bufs, counts, r, t)
  {
    seq(|counts|, r requires 0 <= r < |counts| => Segment(bufs, counts, r, t))
  }

  /** Every rank receives its segments in the order of the senders. */
  function Alltoallv<T>(bufs: seq<seq<T>>, counts: seq<seq<nat>>): (recv: seq<seq<T>>)
    requires Exchangeable(bufs, counts)
    ensures |recv| == |counts|
    ensures forall t :: 0 <= t < |recv| ==> recv[t] == Flatten(Column(bufs, counts, t))
  {
    seq(|counts|, t requires 0 <= t < |counts| => Flatten(Column(bufs, counts, t)))
  }

  /** The receive counts, once every rank knows every row of send counts. */
  function Transpose(counts: seq<seq<nat>>): (c: seq<seq<nat>>)
    requires forall r :: 0 <= r < |counts| ==> |counts[r]| == |counts|
    ensures |c| == |counts|
    ensures forall t :: 0 <= t < |c| ==> |c[t]| == |counts| && forall r :: 0 <= r < |counts| ==> c[t][r] == counts[r][t]
  {
    seq(|counts|, t requires 0 <= t < |counts| => seq(|counts|, r requires 0 <= r < |counts| => counts[r][t]))
  }

  /** In the flat gathered table, entry (s, t) of a P by P matrix sits at s*P + t. */
  lemma {:induction false} GatheredRow(rows: seq<seq<nat>>, p: nat, s: nat)
    requires s <= |rows| && forall r :: 0 <= r < |rows| ==> |rows[r]| == p
    ensures Start(rows, s) == s * p
  {
    if s > 0 {
      GatheredRow(rows, p, s - 1);
      FlattenPrefix(rows, s - 1);
      assert (s - 1) * p + p == s * p;
    }
  }

  /** Every rank gathers all send counts and reads its own column. */
  method RecvCounts(counts: seq<seq<nat>>, rank: nat) returns (recvcounts: seq<nat>)
    requires forall r :: 0 <= r < |counts| ==> |counts[r]| == |counts|
    requires rank < |counts|
    ensures recvcounts == Transpose(counts)[rank]
  {
    var size := |counts|;
    var table := Flatten(counts);
    recvcounts := [];
    for s := 0 to size
      invariant |recvcounts| == s
      invariant forall r :: 0 <= r < s ==> recvcounts[r] == counts[r][rank]
    {
      GatheredRow(counts, size, s);
      FlattenAt(counts, s, rank);
      recvcounts := recvcounts + [table[s * size + rank]];
    }
  }

  lemma RecvLengths<T>(bufs: seq<seq<T>>, counts: seq<seq<nat>>, t: nat)
    requires Exchangeable(bufs, counts) && t < |counts|
    ensures Lengths(Column(bufs, counts, t)) == Transpose(counts)[t]
    ensures Sum(Transpose(counts)[t]) == |Alltoallv(bufs, counts)[t]|
    ensures Cut(Alltoallv(bufs, counts)[t], Transpose(counts)[t]) == Column(bufs, counts, t)
  {
    var col := Column(bufs, counts, t);
    assert Lengths(col) == Transpose(counts)[t];
    CutUnique(col);
  }

  lemma Returnable<T>(bufs: seq<seq<T>>, counts: seq<seq<nat>>)
    requires Exchangeable(bufs, counts)
    ensures Exchangeable(Alltoallv(bufs, counts), Transpose(counts))
  {
    forall t | 0 <= t < |counts| ensures Sum(Transpose(counts)[t]) == |Alltoallv(bufs, counts)[t]| {
      RecvLengths(bufs, counts, t);
    }
  }

  lemma SegmentReturns<T>(bufs: seq<seq<T>>, counts: seq<seq<nat>>, r: nat, t: nat)
    requires Exchangeable(bufs, counts) && r < |counts| && t < |counts|
    requires Exchangeable(Alltoallv(bufs, counts), Transpose(counts))
    ensures Segment(Alltoallv(bufs, counts), Transpose(counts), t, r) == Segment(bufs, counts, r, t)
  {
    RecvLengths(bufs, counts, t);
  }

  /** Sending everything back with the counts swapped restores every buffer. */
  lemma AlltoallvRoundTrip<T>(bufs: seq<seq<T>>, counts: seq<seq<nat>>)
    requires Exchangeable(bufs, counts)
    ensures Exchangeable(Alltoallv(bufs, counts), Transpose(counts))
    ensures Alltoallv(Alltoallv(bufs, counts), Transpose(counts)) == bufs
  {
    hide Alltoallv, Segment, Column, Cut;
    Returnable(bufs, counts);
    var recv, back := Alltoallv(bufs, counts), Transpose(counts);
    forall r | 0 <= r < |counts| ensures Alltoallv(recv, back)[r] == bufs[r] {
      RowReturns(bufs, counts, r);
    }
  }

  lemma RowReturns<T>(bufs: seq<seq<T>>, counts: seq<seq<nat>>, r: nat)
    requires Exchangeable(bufs, counts) && r < |counts|
    requires Exchangeable(Alltoallv(bufs, counts), Transpose(counts))
    ensures Flatten(Column(Alltoallv(bufs, counts), Transpose(counts), r)) == bufs[r]
  {
    assert |counts[r]| == |counts| && Sum(counts[r]) == |bufs[r]|;
    hide Alltoallv, Cut, Flatten, Exchangeable, Transpose;
    var col := Column(Alltoallv(bufs, counts), Transpose(counts), r);
    forall t | 0 <= t < |counts| ensures col[t] == Cut(bufs[r], counts[r])[t] {
      SegmentReturns(bufs, counts, r, t);
    }
    assert col == Cut(bufs[r], counts[r]);
  }

  // ----- answering entry by entry ----------------------------------------------

  function Each<T, U>(f: T -> U, s: seq<T>): (m: seq<U>)
    ensures |m| == |s| && forall i :: 0 <= i < |s| ==> m[i] == f(s[i])
  {
    seq(|s|, i requires 0 <= i < |s| => f(s[i]))
  }

  function EachRank<T, U>(f: T -> U, ss: seq<seq<T>>): (m: seq<seq<U>>)
    ensures |m| == |ss| && forall r :: 0 <= r < |ss| ==> m[r] == Each(f, ss[r])
  {
    seq(|ss|, r requires 0 <= r < |ss| => Each(f, ss[r]))
  }

  lemma {:induction false} FlattenEach<T, U>(f: T -> U, ss: seq<seq<T>>)
    ensures Flatten(EachRank(f, ss)) == Each(f, Flatten(ss))
  {
    if ss != [] {
      var n := |ss| - 1;
      FlattenEach(f, ss[..n]);
      assert EachRank(f, ss)[..n] == EachRank(f, ss[..n]);
      assert Each(f, Flatten(ss)) == Each(f, Flatten(ss[..n])) + Each(f, ss[n]);
    }
  }

  lemma CutEach<T, U>(f: T -> U, buf: seq<T>, counts: seq<nat>)
    requires Sum(counts) == |buf|
    ensures Cut(Each(f, buf), counts) == EachRank(f, Cut(buf, counts))
  {
    var segs := EachRank(f, Cut(buf, counts));
    FlattenEach(f, Cut(buf, counts));
    CutUnique(segs);
    assert Lengths(segs) == counts;
  }

  /** Answering every entry before or after the exchange is the same. */
  lemma AlltoallvEach<T, U>(f: T -> U, bufs: seq<seq<T>>, counts: seq<seq<nat>>)
    requires Exchangeable(bufs, counts)
    ensures Exchangeable(EachRank(f, bufs), counts)
    ensures Alltoallv(EachRank(f, bufs), counts) == EachRank(f, Alltoallv(bufs, counts))
  {
    forall t | 0 <= t < |counts|
      ensures Alltoallv(EachRank(f, bufs), counts)[t] == Each(f, Alltoallv(bufs, counts)[t])
    {
      forall r | 0 <= r < |counts|
        ensures Segment(EachRank(f, bufs), counts, r, t) == Each(f, Segment(bufs, counts, r, t))
      {
        CutEach(f, bufs[r], counts[r]);
      }
      assert Column(EachRank(f, bufs), counts, t) == EachRank(f, Column(bufs, counts, t));
      FlattenEach(f, Column(bufs, counts, t));
    }
  }

  // ----- items that travel as several words ------------------------------------

  /** Every item written out as w words. */
  function Expand<T, U>(f: T -> seq<U>, s: seq<T>): seq<U> {
    Flatten(Each(f, s))
  }

  function ExpandRanks<T, U>(f: T -> seq<U>, ss: seq<seq<T>>): (m: seq<seq<U>>)
    ensures |m| == |ss| && forall r :: 0 <= r < |ss| ==> m[r] == Expand(f, ss[r])
  {
    seq(|ss|, r requires 0 <= r < |ss| => Expand(f, ss[r]))
  }

  function Scale(counts: seq<nat>, w: nat): (c: seq<nat>)
    ensures |c| == |counts| && forall t :: 0 <= t < |c| ==> c[t] == counts[t] * w
  {
    seq(|counts|, t requires 0 <= t < |counts| => counts[t] * w)
  }

  function ScaleRanks(counts: seq<seq<nat>>, w: nat): (c: seq<seq<nat>>)
    ensures |c| == |counts| && forall r :: 0 <= r < |c| ==> c[r] == Scale(counts[r], w)
  {
    seq(|counts|, r requires 0 <= r < |counts| => Scale(counts[r], w))
  }

  lemma {:induction false} ExpandLength<T, U>(f: T -> seq<U>, s: seq<T>, w: nat)
    requires forall i :: 0 <= i < |s| ==> |f(s[i])| == w
    ensures |Expand(f, s)| == |s| * w
  {
    if s != [] {
      var n := |s| - 1;
      ExpandLength(f, s[..n], w);
      assert Each(f, s)[..n] == Each(f, s[..n]);
      assert |s| * w == n * w + w;
    }
  }

  lemma ExpandConcat<T, U>(f: T -> seq<U>, a: seq<T>, b: seq<T>)
    ensures Expand(f, a + b) == Expand(f, a) + Expand(f, b)
  {
    assert Each(f, a + b) == Each(f, a) + Each(f, b);
    FlattenConcat(Each(f, a), Each(f, b));
  }

  lemma {:induction false} ExpandFlatten<T, U>(f: T -> seq<U>, ss: seq<seq<T>>)
    ensures Flatten(ExpandRanks(f, ss)) == Expand(f, Flatten(ss))
  {
    if ss != [] {
      hide Expand;
      var n := |ss| - 1;
      ExpandFlatten(f, ss[..n]);
      ExpandConcat(f, Flatten(ss[..n]), ss[n]);
      assert ExpandRanks(f, ss)[..n] == ExpandRanks(f, ss[..n]);
    } else {
      assert Each(f, Flatten(ss)) == [];
    }
  }

  lemma CutExpand<T, U>(f: T -> seq<U>, buf: seq<T>, counts: seq<nat>, w: nat)
    requires Sum(counts) == |buf| && forall i :: 0 <= i < |buf| ==> |f(buf[i])| == w
    ensures Sum(Scale(counts, w)) == |Expand(f, buf)|
    ensures Cut(Expand(f, buf), Scale(counts, w)) == ExpandRanks(f, Cut(buf, counts))
  {
    hide Expand;
    var parts := Cut(buf, counts);
    var segs := ExpandRanks(f, parts);
    ExpandFlatten(f, parts);
    CutUnique(segs);
    forall t | 0 <= t < |counts| ensures |segs[t]| == counts[t] * w {
      forall i | 0 <= i < |parts[t]| ensures |f(parts[t][i])| == w { FlattenAt(parts, t, i); }
      ExpandLength(f, parts[t], w);
    }
    assert Lengths(segs) == Scale(counts, w);
  }

  /** Items of w words exchanged with counts scaled by w arrive whole and in the same order. */
  lemma AlltoallvExpand<T, U>(f: T -> seq<U>, bufs: seq<seq<T>>, counts: seq<seq<nat>>, w: nat)
    requires Exchangeable(bufs, counts)
    requires forall r, i :: 0 <= r < |bufs| && 0 <= i < |bufs[r]| ==> |f(bufs[r][i])| == w
    ensures Exchangeable(ExpandRanks(f, bufs), ScaleRanks(counts, w))
    ensures Alltoallv(ExpandRanks(f, bufs), ScaleRanks(counts, w)) == ExpandRanks(f, Alltoallv(bufs, counts))
  {
    hide Expand, Cut;
    var wide, scaled := ExpandRanks(f, bufs), ScaleRanks(counts, w);
    forall r | 0 <= r < |counts|
      ensures Sum(scaled[r]) == |wide[r]| && Cut(wide[r], scaled[r]) == ExpandRanks(f, Cut(bufs[r], counts[r]))
    {
      CutExpand(f, bufs[r], counts[r], w);
    }
    forall t | 0 <= t < |counts| ensures Alltoallv(wide, scaled)[t] == Expand(f, Alltoallv(bufs, counts)[t]) {
      assert Column(wide, scaled, t) == ExpandRanks(f, Column(bufs, counts, t));
      ExpandFlatten(f, Column(bufs, counts, t));
    }
  }

  /** Requests go out, every owner answers with f entry by entry, answers come back:
      each rank ends with f of exactly the entry it sent, at the same position. */
  lemma AnswersPairUp<T, U>(f: T -> U, bufs: seq<seq<T>>, counts: seq<seq<nat>>)
    requires Exchangeable(bufs, counts)
    ensures Exchangeable(EachRank(f, Alltoallv(bufs, counts)), Transpose(counts))
    ensures Alltoallv(EachRank(f, Alltoallv(bufs, counts)), Transpose(counts)) == EachRank(f, bufs)
  {
    AlltoallvRoundTrip(bufs, counts);
    AlltoallvEach(f, Alltoallv(bufs, counts), Transpose(counts));
  }
}
