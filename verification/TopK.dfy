/** Pattern statistics, their output order, and merging the best of every shard. */
module TopK {
  import opened Sequences
  import opened Sorting

  /** A layout location; finite coordinates, ordered by x and then y. */
  datatype Point = Point(x: real, y: real)

  datatype PatternStat = PatternStat(hash: nat, count: nat, rep: Point)

  predicate PointLe(a: Point, b: Point) {
    a.x < b.x || (a.x == b.x && a.y <= b.y)
  }

  lemma PointLeTransitive(a: Point, b: Point, c: Point)
    requires PointLe(a, b) && PointLe(b, c)
    ensures PointLe(a, c)
  {
  }

  /** The smaller x, and of equal x the smaller y. */
  function LexMin(a: Point, b: Point): (m: Point)
    ensures m == a || m == b
    ensures PointLe(m, a) && PointLe(m, b)
    ensures m.x <= a.x && m.x <= b.x
    ensures a.x == b.x ==> m.y <= a.y && m.y <= b.y
  {
    if a.x != b.x then (if a.x < b.x then a else b)
    else if a.y <= b.y then a else b
  }

  /** Most patches first, then the smaller hash. */
  predicate StatBefore(a: PatternStat, b: PatternStat) {
    if a.count != b.count then a.count > b.count else a.hash < b.hash
  }

  /** The order spelt out: strict, total on distinct hashes, and on the two fields alone. */
  lemma StatOrder(a: PatternStat, b: PatternStat)
    ensures StatBefore(a, b) <==> a.count > b.count || (a.count == b.count && a.hash < b.hash)
    ensures a.hash != b.hash ==> (StatBefore(a, b) <==> !StatBefore(b, a))
  {
  }

  ghost predicate StatsSorted(s: seq<PatternStat>) {
    forall i, j :: 0 <= i < j < |s| ==> StatBefore(s[i], s[j])
  }

  lemma SortedDistinct(s: seq<PatternStat>)
    requires StatsSorted(s)
    ensures Distinct(s)
  {
    forall i, j | 0 <= i < j < |s| ensures s[i] != s[j] { assert StatBefore(s[i], s[j]); }
  }

  /** Order and contents determine a sorted list. */
  lemma {:induction false} SortedUnique(s: seq<PatternStat>, t: seq<PatternStat>)
    requires StatsSorted(s) && StatsSorted(t) && forall x :: x in s <==> x in t
    ensures s == t
  {
    SortedDistinct(s);
    SortedDistinct(t);
    forall x ensures x in ToSet(s) <==> x in ToSet(t) {}
    DistinctSize(s);
    DistinctSize(t);
    assert ToSet(s) == ToSet(t);
    SamePrefixes(s, t, |s|);
    assert s[..|s|] == s && t[..|s|] == t;
  }

  /** If the first m entries of s all occur in t, and t only holds entries of s, then t
      starts with the same m entries. */
  lemma {:induction false} SamePrefixes(s: seq<PatternStat>, t: seq<PatternStat>, m: nat)
    requires StatsSorted(s) && StatsSorted(t) && m <= |s| && m <= |t|
    requires forall i :: 0 <= i < m ==> s[i] in t
    requires forall x :: x in t ==> x in s
    ensures s[..m] == t[..m]
  {
    if m > 0 {
      var i := m - 1;
      SamePrefixes(s, t, i);
      assert s[i] in t;
      var p :| 0 <= p < |t| && t[p] == s[i];
      assert t[i] in t;
      var j :| 0 <= j < |s| && s[j] == t[i];
      PrefixPointwise(s, t, i);
      NoEarlier(s, t, i, p, j);
      assert s[..m] == s[..i] + [s[i]] && t[..m] == t[..i] + [t[i]];
    }
  }

  lemma PrefixPointwise(s: seq<PatternStat>, t: seq<PatternStat>, i: nat)
    requires i <= |s| && i <= |t| && s[..i] == t[..i]
    ensures forall q :: 0 <= q < i ==> s[q] == t[q]
  {
    forall q | 0 <= q < i ensures s[q] == t[q] { assert s[..i][q] == t[..i][q]; }
  }

  /** In a sorted list, being before and standing before are the same. */
  lemma Positions(s: seq<PatternStat>, a: nat, b: nat)
    requires StatsSorted(s) && a < |s| && b < |s|
    ensures StatBefore(s[a], s[b]) <==> a < b
    ensures s[a] == s[b] <==> a == b
  {
    var lo, hi := if a < b then a else b, if a < b then b else a;
    assert lo < hi ==> StatBefore(s[lo], s[hi]);
  }

  lemma NoEarlier(s: seq<PatternStat>, t: seq<PatternStat>, i: nat, p: nat, j: nat)
    requires StatsSorted(s) && StatsSorted(t) && i < |s| && i < |t| && p < |t| && j < |s|
    requires forall q :: 0 <= q < i ==> s[q] == t[q]
    requires t[p] == s[i] && s[j] == t[i]
    ensures s[i] == t[i]
  {
    var a, b := if p < i then p else i, if j < i then j else i;
    assert s[a] == t[a] || a == i;
    assert s[b] == t[b] || b == i;
    Positions(s, a, i);
    Positions(t, b, i);
    Positions(t, i, p);
    Positions(s, i, j);
  }

  function Min(a: nat, b: nat): nat { if a < b then a else b }

  /** tops holds, per shard, the first k entries of the shard's sorted list. */
  ghost predicate AreTops(lists: seq<seq<PatternStat>>, sorted: seq<seq<PatternStat>>, tops: seq<seq<PatternStat>>, k: nat) {
    && |lists| == |sorted| == |tops|
    && forall r :: 0 <= r < |lists| ==>
         && StatsSorted(sorted[r])
         && (forall x :: x in sorted[r] <==> x in lists[r])
         && tops[r] == sorted[r][..Min(k, |sorted[r]|)]
  }

  /** An entry among the first k of all shards together is among the first k of its own. */
  lemma GlobalTopIsLocalTop(lists: seq<seq<PatternStat>>, sorted: seq<seq<PatternStat>>, tops: seq<seq<PatternStat>>, k: nat,
                            global: seq<PatternStat>, i: nat)
    requires AreTops(lists, sorted, tops, k) && StatsSorted(global)
    requires forall x :: x in global <==> x in Flatten(lists)
    requires i < |global| && i < k
    ensures global[i] in Flatten(tops)
  {
    assert global[i] in global;
    InFlatten(lists, global[i]);
    var r :| 0 <= r < |lists| && global[i] in lists[r];
    var j :| 0 <= j < |sorted[r]| && sorted[r][j] == global[i];
    forall x | x in ToSet(sorted[r][..j]) ensures x in ToSet(global[..i]) {
      var q :| 0 <= q < j && sorted[r][q] == x;
      assert x in sorted[r];
      InFlatten(lists, x);
      var p :| 0 <= p < |global| && global[p] == x;
      Positions(sorted[r], q, j);
      Positions(global, p, i);
      assert global[..i][p] == x;
    }
    PrefixSizes(sorted[r], j, global, i);
    assert tops[r][j] == global[i];
    InFlatten(tops, global[i]);
  }

  lemma PrefixSizes(s: seq<PatternStat>, j: nat, t: seq<PatternStat>, i: nat)
    requires StatsSorted(s) && StatsSorted(t) && j <= |s| && i <= |t|
    requires forall x :: x in ToSet(s[..j]) ==> x in ToSet(t[..i])
    ensures j <= i
  {
    assert StatsSorted(s[..j]) && StatsSorted(t[..i]);
    SortedDistinct(s[..j]);
    SortedDistinct(t[..i]);
    DistinctSize(s[..j]);
    DistinctSize(t[..i]);
    SubsetSize(ToSet(s[..j]), ToSet(t[..i]));
  }

  /** Merging the shards' best k and keeping the best k of those is exact, for any split of
      the entries into shards. */
  lemma MergeIsExact(lists: seq<seq<PatternStat>>, sorted: seq<seq<PatternStat>>, tops: seq<seq<PatternStat>>, k: nat,
                     global: seq<PatternStat>, merged: seq<PatternStat>)
    requires AreTops(lists, sorted, tops, k) && StatsSorted(global) && StatsSorted(merged)
    requires forall x :: x in global <==> x in Flatten(lists)
    requires forall x :: x in merged <==> x in Flatten(tops)
    ensures Min(k, |merged|) == Min(k, |global|)
    ensures merged[..Min(k, |merged|)] == global[..Min(k, |global|)]
  {
    var m := Min(k, |global|);
    forall i | 0 <= i < m ensures global[i] in merged {
      GlobalTopIsLocalTop(lists, sorted, tops, k, global, i);
    }
    forall x | x in merged ensures x in global {
      TopsFromLists(lists, sorted, tops, k, x);
    }
    assert merged == merged[..|merged|] && global == global[..|global|];
    forall x | x in ToSet(global[..m]) ensures x in ToSet(merged[..|merged|]) {
      var i :| 0 <= i < m && global[i] == x;
    }
    PrefixSizes(global, m, merged, |merged|);
    PrefixSizes(merged, |merged|, global, |global|);
    SamePrefixes(global, merged, m);
  }

  lemma TopsFromLists(lists: seq<seq<PatternStat>>, sorted: seq<seq<PatternStat>>, tops: seq<seq<PatternStat>>, k: nat, x: PatternStat)
    requires AreTops(lists, sorted, tops, k) && x in Flatten(tops)
    ensures x in Flatten(lists)
  {
    InFlatten(tops, x);
    var r :| 0 <= r < |tops| && x in tops[r];
    assert x in sorted[r];
    InFlatten(lists, x);
  }

  // ----- the shard's own top k -------------------------------------------------

  const U64_MAX: nat := 0xffff_ffff_ffff_ffff

  /** The complemented count, again a 64-bit value. */
  function InvertCount(count: nat): (key: nat)
    requires count <= U64_MAX
    ensures key <= U64_MAX
  {
    U64_MAX - count
  }

  /** Ascending keys mean descending counts. */
  lemma InvertReverses(a: nat, b: nat)
    requires a <= U64_MAX && b <= U64_MAX
    ensures InvertCount(a) < InvertCount(b) <==> a > b
    ensures InvertCount(InvertCount(a)) == a
  {
  }

  /** One stable sort of the shard's slots on the complemented count yields the output
      order, because slots enter in hash order. */
  lemma InvertedOrderIsStatOrder(stats: seq<PatternStat>, keys: seq<nat>, zeros: seq<nat>, order: seq<nat>)
    requires |keys| == |zeros| == |stats| && IsStableOrder(keys, zeros, order)
    requires forall i :: 0 <= i < |zeros| ==> zeros[i] == 0
    requires forall i :: 0 <= i < |stats| ==> stats[i].count <= U64_MAX && keys[i] == InvertCount(stats[i].count)
    requires forall i, j :: 0 <= i < j < |stats| ==> stats[i].hash < stats[j].hash
    ensures forall x, y :: 0 <= x < y < |order| ==> StatBefore(stats[order[x]], stats[order[y]])
  {
    forall x, y | 0 <= x < y < |order| ensures StatBefore(stats[order[x]], stats[order[y]]) {
      assert Before(keys, zeros, order[x], order[y]);
      InvertReverses(stats[order[x]].count, stats[order[y]].count);
    }
  }

  lemma LastStays(t: seq<PatternStat>, u: seq<PatternStat>, x: PatternStat)
    requires StatsSorted(t) && t != [] && StatsSorted(u) && StatBefore(x, t[|t| - 1])
    requires forall y :: y in u <==> y in t[..|t| - 1] || y == x
    ensures StatsSorted(u + [t[|t| - 1]]) && forall y :: y in u + [t[|t| - 1]] <==> y in t || y == x
  {
    var n := |t| - 1;
    assert t == t[..n] + [t[n]];
    forall i | 0 <= i < |u| ensures StatBefore(u[i], t[n]) {
      assert u[i] in u;
      if u[i] != x { var j :| 0 <= j < n && t[j] == u[i]; }
    }
  }

  function InsertStat(t: seq<PatternStat>, x: PatternStat): (u: seq<PatternStat>)
    requires StatsSorted(t) && forall i :: 0 <= i < |t| ==> t[i].hash != x.hash
    ensures |u| == |t| + 1 && StatsSorted(u) && forall y :: y in u <==> y in t || y == x
  {
    if t == [] || StatBefore(t[|t| - 1], x) then
      assert forall i :: 0 <= i < |t| - 1 ==> StatBefore(t[i], t[|t| - 1]);
      t + [x]
    else
      var u := InsertStat(t[..|t| - 1], x);
      LastStays(t, u, x);
      u + [t[|t| - 1]]
  }

  ghost predicate HashesDiffer(s: seq<PatternStat>) {
    forall i, j :: 0 <= i < j < |s| ==> s[i].hash != s[j].hash
  }

  /** The host merge's sort by the output order. */
  function SortStats(s: seq<PatternStat>): (t: seq<PatternStat>)
    requires HashesDiffer(s)
    ensures StatsSorted(t) && |t| == |s| && forall x :: x in t <==> x in s
  {
    if s == [] then [] else
      var n := |s| - 1;
      assert s == s[..n] + [s[n]];
      var t := SortStats(s[..n]);
      assert forall i :: 0 <= i < |t| ==> t[i] in s[..n];
      InsertStat(t, s[n])
  }

  lemma OrderedIsSorted(stats: seq<PatternStat>, order: seq<nat>, sorted: seq<PatternStat>)
    requires HashesDiffer(stats) && |order| == |sorted| == |stats|
    requires forall x :: 0 <= x < |order| ==> order[x] < |stats| && sorted[x] == stats[order[x]]
    requires forall i :: 0 <= i < |stats| ==> i in order
    requires StatsSorted(sorted)
    ensures sorted == SortStats(stats)
  {
    hide StatsSorted, HashesDiffer;
    forall x ensures x in sorted <==> x in stats {
      if x in stats {
        var i :| 0 <= i < |stats| && stats[i] == x;
        assert i in order;
        var j :| 0 <= j < |order| && order[j] == i;
        assert sorted[j] == x;
      }
    }
    SortedUnique(sorted, SortStats(stats));
  }

  /** The shard's own best k: one stable sort of its slots, then the first k of them. */
  method ShardTop(stats: seq<PatternStat>, k: nat) returns (top: seq<PatternStat>)
    requires forall i :: 0 <= i < |stats| ==> stats[i].count <= U64_MAX
    requires forall i, j :: 0 <= i < j < |stats| ==> stats[i].hash < stats[j].hash
    ensures HashesDiffer(stats) && top == SortStats(stats)[..Min(k, |stats|)]
  {
    var keys := seq(|stats|, i requires 0 <= i < |stats| => InvertCount(stats[i].count));
    var zeros := seq(|stats|, _ => 0);
    var order := StableOrder(keys, zeros);
    InvertedOrderIsStatOrder(stats, keys, zeros, order);
    ghost var sorted := seq(|stats|, i requires 0 <= i < |stats| => stats[order[i]]);
    OrderedIsSorted(stats, order, sorted);
    top := [];
    for i := 0 to Min(k, |stats|)
      invariant |top| == i && forall j :: 0 <= j < i ==> top[j] == sorted[j]
    {
      top := top + [stats[order[i]]];
    }
  }
}
