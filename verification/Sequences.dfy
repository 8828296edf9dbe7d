/** Facts about sequences of numbers and about concatenating one sequence per rank. */
module Sequences {

  // ----- order -----------------------------------------------------------------

  ghost predicate StrictlyAscending(s: seq<nat>) {
    forall i, j :: 0 <= i < j < |s| ==> s[i] < s[j]
  }

  ghost predicate Ascending(s: seq<nat>) {
    forall i, j :: 0 <= i <= j < |s| ==> s[i] <= s[j]
  }

  ghost predicate Distinct<T>(s: seq<T>) {
    forall i, j :: 0 <= i < j < |s| ==> s[i] != s[j]
  }

  function ToSet<T>(s: seq<T>): set<T> {
    set x | x in s
  }

  lemma {:induction false} SameElements(s: seq<nat>, t: seq<nat>)
    requires StrictlyAscending(s) && StrictlyAscending(t)
    requires forall x :: x in s <==> x in t
    ensures s == t
  {
    if s == [] {
      var x := if t == [] then 0 else t[0];
      assert x in s <==> x in t;
    } else {
      var n, k := |s| - 1, |t| - 1;
      assert s[n] in t && t[k] in s;
      assert s[n] == t[k];
      InitElements(s);
      InitElements(t);
      var s', t' := s[..n], t[..k];
      forall x ensures x in s' <==> x in t' {
        assert x in s' <==> x in s && x != s[n];
        assert x in t' <==> x in t && x != t[k];
      }
      SameElements(s', t');
      assert s == s[..n] + [s[n]] && t == t[..k] + [t[k]];
    }
  }

  lemma InitElements(s: seq<nat>)
    requires StrictlyAscending(s) && s != []
    ensures StrictlyAscending(s[..|s| - 1])
    ensures forall x :: x in s[..|s| - 1] <==> x in s && x != s[|s| - 1]
  {
    assert s == s[..|s| - 1] + [s[|s| - 1]];
  }

  /** The number of distinct values in a list without repetitions is its length. */
  lemma {:induction false} DistinctSize<T>(s: seq<T>)
    requires Distinct(s)
    ensures |ToSet(s)| == |s|
  {
    if s != [] {
      var n := |s| - 1;
      DistinctSize(s[..n]);
      assert s == s[..n] + [s[n]];
      assert ToSet(s) == ToSet(s[..n]) + {s[n]};
    }
  }

  lemma {:induction false} SubsetSize<T>(a: set<T>, b: set<T>)
    requires a <= b
    ensures |a| <= |b|
  {
    assert b == a + (b - a);
  }

  lemma {:induction false} SubsetEqual<T>(a: set<T>, b: set<T>)
    requires a <= b && |a| >= |b|
    ensures a == b
  {
    assert b == a + (b - a);
  }

  /** The set {0, ..., n-1}. */
  function Range(n: nat): (s: set<nat>)
    ensures forall x :: x in s <==> 0 <= x < n
    ensures |s| == n
  {
    if n == 0 then {} else Range(n - 1) + {n - 1}
  }

  lemma DistinctBounded(s: seq<nat>, n: nat)
    requires Distinct(s) && forall x :: x in s ==> x < n
    ensures |s| <= n
  {
    DistinctSize(s);
    SubsetSize(ToSet(s), Range(n));
  }

  // ----- sums ------------------------------------------------------------------

  function Sum(s: seq<int>): int {
    if s == [] then 0 else Sum(s[..|s| - 1]) + s[|s| - 1]
  }

  lemma SumSnoc(s: seq<int>, x: int)
    ensures Sum(s + [x]) == Sum(s) + x
  {
    assert (s + [x])[..|s|] == s;
  }

  lemma SumPrefix(s: seq<int>, i: nat)
    requires i < |s|
    ensures Sum(s[..i + 1]) == Sum(s[..i]) + s[i]
  {
    assert s[..i + 1][..i] == s[..i];
  }

  lemma {:induction false} SumConcat(s: seq<int>, t: seq<int>)
    ensures Sum(s + t) == Sum(s) + Sum(t)
  {
    if t == [] {
      assert s + t == s;
    } else {
      var n := |t| - 1;
      SumConcat(s, t[..n]);
      assert s + t == (s + t[..n]) + [t[n]];
      SumSnoc(s + t[..n], t[n]);
    }
  }

  lemma {:induction false} SumMonotone(s: seq<nat>, i: nat, j: nat)
    requires i <= j <= |s|
    ensures 0 <= Sum(s[..i]) <= Sum(s[..j])
  {
    if j == 0 {
    } else if i < j {
      SumMonotone(s, i, j - 1);
      SumPrefix(s, j - 1);
    } else {
      SumMonotone(s, i - 1, j - 1);
      SumPrefix(s, i - 1);
    }
  }

  /** Sums are compared term by term. */
  lemma {:induction false} SumLe(s: seq<int>, t: seq<int>)
    requires |s| == |t|
    requires forall i :: 0 <= i < |s| ==> s[i] <= t[i]
    ensures Sum(s) <= Sum(t)
  {
    if s != [] { SumLe(s[..|s| - 1], t[..|t| - 1]); }
  }

  lemma {:induction false} SumPlus(s: seq<int>, t: seq<int>, u: seq<int>)
    requires |s| == |t| == |u|
    requires forall i :: 0 <= i < |s| ==> u[i] == s[i] + t[i]
    ensures Sum(u) == Sum(s) + Sum(t)
  {
    if s != [] { SumPlus(s[..|s| - 1], t[..|t| - 1], u[..|u| - 1]); }
  }

  lemma {:induction false} SumConstant(s: seq<int>, c: int)
    requires forall i :: 0 <= i < |s| ==> s[i] == c
    ensures Sum(s) == |s| * c
  {
    if s != [] { SumConstant(s[..|s| - 1], c); }
  }

  // ----- concatenation of one list per rank ------------------------------------

  function Flatten<T>(ss: seq<seq<T>>): seq<T> {
    if ss == [] then [] else Flatten(ss[..|ss| - 1]) + ss[|ss| - 1]
  }

  function Lengths<T>(ss: seq<seq<T>>): (l: seq<nat>)
    ensures |l| == |ss| && forall i :: 0 <= i < |ss| ==> l[i] == |ss[i]|
  {
    seq(|ss|, i requires 0 <= i < |ss| => |ss[i]|)
  }

  /** Where the list of rank r starts in the concatenation. */
  function Start<T>(ss: seq<seq<T>>, r: nat): nat
    requires r <= |ss|
  {
    |Flatten(ss[..r])|
  }

  lemma TakeDrop<T>(s: seq<T>, n: nat)
    requires n <= |s|
    ensures s[..n] + s[n..] == s
  {
  }

  lemma TakeNext<T>(s: seq<T>, n: nat)
    requires n < |s|
    ensures s[..n + 1] == s[..n] + [s[n]]
  {
  }

  lemma PrefixGrows<T>(s: seq<T>, a: nat, b: nat)
    requires a <= b <= |s|
    ensures s[..b] == s[..a] + s[a..b]
  {
  }

  lemma SplitThree<T>(s: seq<T>, i: nat, j: nat)
    requires i <= j <= |s|
    ensures s == s[..i] + s[i..j] + s[j..]
  {
  }

  lemma Associate<T>(a: seq<T>, b: seq<T>, c: seq<T>)
    ensures (a + b) + c == a + (b + c)
  {
  }

  lemma FlattenSnoc<T>(ss: seq<seq<T>>, x: seq<T>)
    ensures Flatten(ss + [x]) == Flatten(ss) + x
  {
    assert (ss + [x])[..|ss|] == ss;
  }

  lemma FlattenPrefix<T>(ss: seq<seq<T>>, r: nat)
    requires r < |ss|
    ensures Flatten(ss[..r + 1]) == Flatten(ss[..r]) + ss[r]
    ensures Start(ss, r + 1) == Start(ss, r) + |ss[r]|
  {
    assert ss[..r + 1][..r] == ss[..r];
  }

  lemma {:induction false} FlattenLength<T>(ss: seq<seq<T>>)
    ensures |Flatten(ss)| == Sum(Lengths(ss))
  {
    if ss != [] {
      var n := |ss| - 1;
      FlattenLength(ss[..n]);
      assert Lengths(ss)[..n] == Lengths(ss[..n]);
    }
  }

  lemma StartIsSum<T>(ss: seq<seq<T>>, r: nat)
    requires r <= |ss|
    ensures Start(ss, r) == Sum(Lengths(ss)[..r])
  {
    FlattenLength(ss[..r]);
    assert Lengths(ss[..r]) == Lengths(ss)[..r];
  }

  /** The list of rank r, found again inside the concatenation. */
  lemma {:induction false} FlattenSlice<T>(ss: seq<seq<T>>, r: nat)
    requires r < |ss|
    ensures Start(ss, r) + |ss[r]| == Start(ss, r + 1) <= |Flatten(ss)|
    ensures Flatten(ss)[Start(ss, r)..Start(ss, r + 1)] == ss[r]
  {
    var n := |ss| - 1;
    FlattenPrefix(ss, r);
    if r == n {
      assert ss[..r + 1] == ss;
    } else {
      FlattenSlice(ss[..n], r);
      assert ss[..n][..r] == ss[..r] && ss[..n][..r + 1] == ss[..r + 1];
    }
  }

  lemma SliceAt<T>(f: seq<T>, a: nat, b: nat, i: nat)
    requires a <= b <= |f| && i < b - a
    ensures f[a..b][i] == f[a + i]
  {
  }

  lemma SliceOfSlice<T>(f: seq<T>, a: nat, b: nat, x: nat, y: nat)
    requires a <= b <= |f| && x <= y <= b - a
    ensures f[a..b][x..y] == f[a + x..a + y]
  {
    forall i | 0 <= i < y - x ensures f[a..b][x..y][i] == f[a + x..a + y][i] { SliceAt(f, a, b, x + i); }
  }

  /** What is in a slice, by position of the whole list. */
  lemma SliceFind<T>(f: seq<T>, a: nat, b: nat, v: T) returns (i: nat)
    requires a <= b <= |f| && v in f[a..b]
    ensures a <= i < b && f[i] == v
  {
    var x :| 0 <= x < |f[a..b]| && f[a..b][x] == v;
    i := a + x;
  }

  lemma SliceHolds<T>(f: seq<T>, a: nat, b: nat, i: nat)
    requires a <= i < b <= |f|
    ensures f[i] in f[a..b]
  {
    assert f[a..b][i - a] == f[i];
  }

  lemma FlattenAt<T>(ss: seq<seq<T>>, r: nat, i: nat)
    requires r < |ss| && i < |ss[r]|
    ensures Start(ss, r) + i < Start(ss, r + 1) <= |Flatten(ss)|
    ensures Flatten(ss)[Start(ss, r) + i] == ss[r][i]
  {
    FlattenSlice(ss, r);
    var f, a, b := Flatten(ss), Start(ss, r), Start(ss, r + 1);
    SliceAt(f, a, b, i);
  }

  lemma {:induction false} StartMonotone<T>(ss: seq<seq<T>>, r: nat, t: nat)
    requires r <= t <= |ss|
    ensures Start(ss, r) <= Start(ss, t)
  {
    if r < t {
      StartMonotone(ss, r, t - 1);
      FlattenPrefix(ss, t - 1);
    }
  }

  lemma OnePlace<T>(ss: seq<seq<T>>, r: nat, p: nat, t: nat, q: nat)
    requires r < |ss| && p < |ss[r]| && t < |ss| && q < |ss[t]| && Start(ss, r) + p == Start(ss, t) + q
    ensures r == t && p == q
  {
    FlattenPrefix(ss, t);
    FlattenPrefix(ss, r);
    hide Start;
    if t < r { StartMonotone(ss, t + 1, r); }
    if r < t { StartMonotone(ss, r + 1, t); }
  }

  /** Every position of the concatenation belongs to one rank and one local position. */
  lemma {:induction false} FlattenLocate<T>(ss: seq<seq<T>>, k: nat) returns (r: nat, i: nat)
    requires k < |Flatten(ss)|
    ensures r < |ss| && i < |ss[r]| && k == Start(ss, r) + i && Flatten(ss)[k] == ss[r][i]
  {
    var n := |ss| - 1;
    if k < |Flatten(ss[..n])| {
      r, i := FlattenLocate(ss[..n], k);
      assert ss[..n][..r] == ss[..r];
    } else {
      r, i := n, k - |Flatten(ss[..n])|;
    }
  }

  lemma {:induction false} InFlatten<T>(ss: seq<seq<T>>, x: T)
    ensures x in Flatten(ss) <==> exists r :: 0 <= r < |ss| && x in ss[r]
  {
    if x in Flatten(ss) {
      var k :| 0 <= k < |Flatten(ss)| && Flatten(ss)[k] == x;
      var r, i := FlattenLocate(ss, k);
    }
    if exists r :: 0 <= r < |ss| && x in ss[r] {
      var r :| 0 <= r < |ss| && x in ss[r];
      var i :| 0 <= i < |ss[r]| && ss[r][i] == x;
      FlattenAt(ss, r, i);
    }
  }

  lemma {:induction false} FlattenDistinct<T>(ss: seq<seq<T>>)
    requires forall r :: 0 <= r < |ss| ==> Distinct(ss[r])
    requires forall q, r, x :: 0 <= q < r < |ss| && x in ss[q] ==> x !in ss[r]
    ensures Distinct(Flatten(ss))
  {
    if ss != [] {
      var n := |ss| - 1;
      var init := Flatten(ss[..n]);
      FlattenDistinct(ss[..n]);
      forall i | 0 <= i < |init| ensures init[i] !in ss[n] {
        var r, k := FlattenLocate(ss[..n], i);
        assert ss[r][k] in ss[r];
      }
    }
  }

  /** Two groupings with the same list lengths start their lists at the same places. */
  lemma SameStarts<T, U>(a: seq<seq<T>>, b: seq<seq<U>>, p: nat)
    requires |b| == |a| && p <= |a| && forall q :: 0 <= q < |a| ==> |b[q]| == |a[q]|
    ensures Start(a, p) == Start(b, p) && |Flatten(a)| == |Flatten(b)|
  {
    assert Lengths(a) == Lengths(b);
    StartIsSum(a, p);
    StartIsSum(b, p);
    FlattenLength(a);
    FlattenLength(b);
  }

  lemma {:induction false} FlattenConcat<T>(ss: seq<seq<T>>, tt: seq<seq<T>>)
    ensures Flatten(ss + tt) == Flatten(ss) + Flatten(tt)
  {
    if tt == [] {
      assert ss + tt == ss;
    } else {
      var init, last := tt[..|tt| - 1], tt[|tt| - 1];
      hide Flatten;
      FlattenConcat(ss, init);
      assert tt == init + [last];
      Associate(ss, init, [last]);
      FlattenSnoc(ss + init, last);
      FlattenSnoc(init, last);
      Associate(Flatten(ss), Flatten(init), last);
    }
  }

  // ----- sort and erase duplicates ---------------------------------------------

  lemma TailAbove(s: seq<nat>)
    requires StrictlyAscending(s) && s != []
    ensures StrictlyAscending(s[1..])
    ensures forall y :: y in s[1..] ==> s[0] < y
    ensures forall y :: y in s <==> y == s[0] || y in s[1..]
  {
    assert s == [s[0]] + s[1..];
  }

  lemma ConsAscending(x: nat, t: seq<nat>)
    requires StrictlyAscending(t) && forall y :: y in t ==> x < y
    ensures StrictlyAscending([x] + t)
  {
    forall i | 0 <= i < |t| ensures x < t[i] { assert t[i] in t; }
  }

  function InsertUnique(x: nat, s: seq<nat>): (r: seq<nat>)
    requires StrictlyAscending(s)
    ensures StrictlyAscending(r)
    ensures forall y :: y in r <==> y == x || y in s
  {
    if s == [] || x < s[0] then [x] + s
    else if x == s[0] then s
    else
      TailAbove(s);
      var t := InsertUnique(x, s[1..]);
      ConsAscending(s[0], t);
      [s[0]] + t
  }

  /** std::sort, then std::unique and erase. */
  function SortUnique(s: seq<nat>): (r: seq<nat>)
    ensures StrictlyAscending(r)
    ensures ToSet(r) == ToSet(s)
    ensures forall x :: x in r <==> x in s
  {
    if s == [] then [] else
      var t := SortUnique(s[1..]);
      assert forall y :: y in s <==> y == s[0] || y in s[1..];
      InsertUnique(s[0], t)
  }

  // ----- searching a sorted list -----------------------------------------------

  /** std::lower_bound: how many leading entries are below x. */
  function LowerBound(s: seq<nat>, x: nat): (k: nat)
    requires Ascending(s)
    ensures k <= |s|
    ensures forall i :: 0 <= i < k ==> s[i] < x
    ensures forall i :: k <= i < |s| ==> s[i] >= x
  {
    if s == [] || s[|s| - 1] < x then |s| else LowerBound(s[..|s| - 1], x)
  }

  /** std::upper_bound: how many leading entries are at most x. */
  function UpperBound(s: seq<nat>, x: nat): (k: nat)
    requires Ascending(s)
    ensures k <= |s|
    ensures forall i :: 0 <= i < k ==> s[i] <= x
    ensures forall i :: k <= i < |s| ==> s[i] > x
  {
    if s == [] || s[|s| - 1] <= x then |s| else UpperBound(s[..|s| - 1], x)
  }

  lemma LowerBoundIs(s: seq<nat>, x: nat, k: nat)
    requires Ascending(s) && k <= |s|
    requires forall i :: 0 <= i < k ==> s[i] < x
    requires forall i :: k <= i < |s| ==> s[i] >= x
    ensures LowerBound(s, x) == k
  {
    var l := LowerBound(s, x);
    assert k < |s| ==> s[k] >= x;
    assert l < |s| ==> s[l] >= x;
  }

  lemma UpperBoundIs(s: seq<nat>, x: nat, k: nat)
    requires Ascending(s) && k <= |s|
    requires forall i :: 0 <= i < k ==> s[i] <= x
    requires forall i :: k <= i < |s| ==> s[i] > x
    ensures UpperBound(s, x) == k
  {
    var l := UpperBound(s, x);
    assert k < |s| ==> s[k] > x;
    assert l < |s| ==> s[l] > x;
  }

  lemma LowerBoundFinds(s: seq<nat>, i: nat)
    requires StrictlyAscending(s) && i < |s|
    ensures Ascending(s) && LowerBound(s, s[i]) == i
  {
  }
}
