/** Sorting (key, value) pairs by key and reducing every run of equal keys. */
module Reduce {
  import opened Sequences
  import opened Sorting

  /** The values that carry key k, in input order. */
  ghost function Select<T>(keys: seq<nat>, vals: seq<T>, k: nat): seq<T>
    requires |keys| == |vals|
  {
    if keys == [] then []
    else
      var n := |keys| - 1;
      Select(keys[..n], vals[..n], k) + (if keys[n] == k then [vals[n]] else [])
  }

  /** The positions that carry key k, ascending. */
  ghost function PositionsOf(keys: seq<nat>, k: nat): seq<nat> {
    if keys == [] then []
    else PositionsOf(keys[..|keys| - 1], k) + (if keys[|keys| - 1] == k then [|keys| - 1] else [])
  }

  lemma {:induction false} PositionsExact(keys: seq<nat>, k: nat)
    ensures StrictlyAscending(PositionsOf(keys, k))
    ensures forall i :: i in PositionsOf(keys, k) <==> 0 <= i < |keys| && keys[i] == k
  {
    if keys != [] {
      var init := PositionsOf(keys[..|keys| - 1], k);
      PositionsExact(keys[..|keys| - 1], k);
      forall j | 0 <= j < |init| ensures init[j] < |keys| - 1 { assert init[j] in init; }
    }
  }

  ghost function At<T>(vals: seq<T>, positions: seq<nat>): (g: seq<T>)
    requires forall j :: 0 <= j < |positions| ==> positions[j] < |vals|
    ensures |g| == |positions| && forall j :: 0 <= j < |g| ==> g[j] == vals[positions[j]]
  {
    seq(|positions|, j requires 0 <= j < |positions| => vals[positions[j]])
  }

  lemma {:induction false} SelectIsAt<T>(keys: seq<nat>, vals: seq<T>, k: nat)
    requires |keys| == |vals|
    ensures forall j :: 0 <= j < |PositionsOf(keys, k)| ==> PositionsOf(keys, k)[j] < |vals|
    ensures Select(keys, vals, k) == At(vals, PositionsOf(keys, k))
  {
    var p := PositionsOf(keys, k);
    PositionsExact(keys, k);
    forall j | 0 <= j < |p| ensures p[j] < |vals| { assert p[j] in p; }
    if keys != [] {
      SelectIsAt(keys[..|keys| - 1], vals[..|keys| - 1], k);
    }
  }

  lemma {:induction false} SelectMember<T>(keys: seq<nat>, vals: seq<T>, k: nat, x: T)
    requires |keys| == |vals|
    ensures x in Select(keys, vals, k) <==> exists i :: 0 <= i < |keys| && keys[i] == k && vals[i] == x
  {
    if keys != [] {
      var n := |keys| - 1;
      SelectMember(keys[..n], vals[..n], k, x);
      assert forall i :: 0 <= i < n ==> keys[..n][i] == keys[i] && vals[..n][i] == vals[i];
    }
  }

  lemma SelectStep<T>(keys: seq<nat>, vals: seq<T>, i: nat, k: nat)
    requires |keys| == |vals| && i < |keys|
    ensures Select(keys[..i + 1], vals[..i + 1], k)
            == Select(keys[..i], vals[..i], k) + (if keys[i] == k then [vals[i]] else [])
  {
    assert keys[..i + 1][..i] == keys[..i] && vals[..i + 1][..i] == vals[..i];
  }

  /** A stable sort by key keeps, for every key, the values and their order. */
  lemma StableSelect<T>(keys: seq<nat>, vals: seq<T>, zeros: seq<nat>, order: seq<nat>, k: nat)
    requires |keys| == |vals| == |zeros| && IsStableOrder(keys, zeros, order)
    requires forall i :: 0 <= i < |zeros| ==> zeros[i] == 0
    ensures Select(At(keys, order), At(vals, order), k) == Select(keys, vals, k)
  {
    var gk, gv := At(keys, order), At(vals, order);
    var p, q := PositionsOf(gk, k), PositionsOf(keys, k);
    SelectIsAt(gk, gv, k);
    SelectIsAt(keys, vals, k);
    SamePositions(keys, zeros, order, k);
    assert At(order, p) == q;
    assert At(gv, p) == At(vals, q);
  }

  lemma SamePositions(keys: seq<nat>, zeros: seq<nat>, order: seq<nat>, k: nat)
    requires |keys| == |zeros| && IsStableOrder(keys, zeros, order)
    requires forall i :: 0 <= i < |zeros| ==> zeros[i] == 0
    ensures forall j :: 0 <= j < |PositionsOf(At(keys, order), k)| ==> PositionsOf(At(keys, order), k)[j] < |order|
    ensures At(order, PositionsOf(At(keys, order), k)) == PositionsOf(keys, k)
  {
    assert forall i :: 0 <= i < |order| ==> order[i] < |keys|;
    hide PositionsOf, IsStableOrder, StrictlyAscending;
    var p := PositionsOf(At(keys, order), k);
    PositionsExact(At(keys, order), k);
    PositionsExact(keys, k);
    InRange(p, |order|);
    MappedAscend(keys, zeros, order, k, p);
    MappedMembers(keys, zeros, order, k, p);
    SameElements(At(order, p), PositionsOf(keys, k));
  }

  lemma InRange(p: seq<nat>, n: nat)
    requires forall i :: i in p ==> i < n
    ensures forall j :: 0 <= j < |p| ==> p[j] < n
  {
    forall j | 0 <= j < |p| ensures p[j] < n { assert p[j] in p; }
  }

  lemma MappedAscend(keys: seq<nat>, zeros: seq<nat>, order: seq<nat>, k: nat, p: seq<nat>)
    requires |keys| == |zeros| && IsStableOrder(keys, zeros, order)
    requires forall i :: 0 <= i < |zeros| ==> zeros[i] == 0
    requires StrictlyAscending(p) && forall j :: 0 <= j < |p| ==> p[j] < |order|
    requires forall i :: i in p ==> 0 <= i < |order| && keys[order[i]] == k
    ensures StrictlyAscending(At(order, p))
  {
    var o := At(order, p);
    forall x, y | 0 <= x < y < |o| ensures o[x] < o[y] {
      assert p[x] in p && p[y] in p;
      assert Before(keys, zeros, order[p[x]], order[p[y]]);
    }
  }

  lemma MappedMembers(keys: seq<nat>, zeros: seq<nat>, order: seq<nat>, k: nat, p: seq<nat>)
    requires |keys| == |zeros| && IsStableOrder(keys, zeros, order)
    requires forall j :: 0 <= j < |p| ==> p[j] < |order|
    requires forall i :: i in p <==> 0 <= i < |order| && keys[order[i]] == k
    ensures forall i :: i in At(order, p) <==> 0 <= i < |keys| && keys[i] == k
  {
    var o := At(order, p);
    forall i: nat | i < |keys| && keys[i] == k ensures i in o {
      assert i in order;
      var j :| 0 <= j < |order| && order[j] == i;
      assert j in p;
      var x :| 0 <= x < |p| && p[x] == j;
      assert o[x] == i;
    }
    forall i | i in o ensures 0 <= i < |keys| && keys[i] == k {
      var x :| 0 <= x < |o| && o[x] == i;
      assert p[x] in p;
    }
  }

  function Fold<T>(op: (T, T) -> T, s: seq<T>): T
    requires s != []
  {
    if |s| == 1 then s[0] else op(Fold(op, s[..|s| - 1]), s[|s| - 1])
  }

  lemma FoldSnoc<T>(op: (T, T) -> T, s: seq<T>, x: T)
    requires s != []
    ensures Fold(op, s + [x]) == op(Fold(op, s), x)
  {
    assert (s + [x])[..|s|] == s;
  }

  /** v folds all values that carry key k, first to last. */
  ghost predicate IsRun<T(!new)>(keys: seq<nat>, vals: seq<T>, op: (T, T) -> T, k: nat, v: T)
    requires |keys| == |vals|
  {
    Select(keys, vals, k) != [] && v == Fold(op, Select(keys, vals, k))
  }

  ghost predicate IsReduced<T(!new)>(keys: seq<nat>, vals: seq<T>, op: (T, T) -> T, uniq: seq<nat>, red: seq<T>)
    requires |keys| == |vals|
  {
    && StrictlyAscending(uniq) && |red| == |uniq|
    && (forall k :: k in uniq <==> k in keys)
    && forall i :: 0 <= i < |uniq| ==> IsRun(keys, vals, op, uniq[i], red[i])
  }

  /** Reduce every run of equal keys in a key-sorted list. */
  method ReduceByKey<T(!new)>(keys: seq<nat>, vals: seq<T>, op: (T, T) -> T) returns (uniq: seq<nat>, red: seq<T>)
    requires |keys| == |vals| && Ascending(keys)
    ensures IsReduced(keys, vals, op, uniq, red)
  {
    hide Select, Fold, IsRun;
    uniq, red := [], [];
    for i := 0 to |keys|
      invariant IsReduced(keys[..i], vals[..i], op, uniq, red)
      invariant i > 0 ==> uniq != [] && uniq[|uniq| - 1] == keys[i - 1]
    {
      if i > 0 && keys[i] == keys[i - 1] {
        ExtendRun(keys, vals, op, uniq, red, i);
        red := red[|red| - 1 := op(red[|red| - 1], vals[i])];
      } else {
        NewRun(keys, vals, op, uniq, red, i);
        uniq, red := uniq + [keys[i]], red + [vals[i]];
      }
    }
    assert keys[..|keys|] == keys && vals[..|vals|] == vals;
  }

  /** A later entry joins its own run and leaves every other run alone. */
  lemma RunStep<T(!new)>(keys: seq<nat>, vals: seq<T>, op: (T, T) -> T, i: nat, k: nat, v: T)
    requires |keys| == |vals| && i < |keys| && IsRun(keys[..i], vals[..i], op, k, v)
    ensures IsRun(keys[..i + 1], vals[..i + 1], op, k, if keys[i] == k then op(v, vals[i]) else v)
  {
    SelectStep(keys, vals, i, k);
    var before := Select(keys[..i], vals[..i], k);
    FoldSnoc(op, before, vals[i]);
    assert before + [] == before;
  }

  lemma FirstOfRun<T(!new)>(keys: seq<nat>, vals: seq<T>, op: (T, T) -> T, i: nat)
    requires |keys| == |vals| && i < |keys| && keys[i] !in keys[..i]
    ensures IsRun(keys[..i + 1], vals[..i + 1], op, keys[i], vals[i])
  {
    SelectStep(keys, vals, i, keys[i]);
    NotSelected(keys[..i], vals[..i], keys[i]);
    assert Select(keys[..i + 1], vals[..i + 1], keys[i]) == [vals[i]];
  }

  lemma ExtendRun<T(!new)>(keys: seq<nat>, vals: seq<T>, op: (T, T) -> T, uniq: seq<nat>, red: seq<T>, i: nat)
    requires |keys| == |vals| && 0 < i < |keys|
    requires IsReduced(keys[..i], vals[..i], op, uniq, red) && uniq != [] && uniq[|uniq| - 1] == keys[i]
    ensures IsReduced(keys[..i + 1], vals[..i + 1], op, uniq, red[|red| - 1 := op(red[|red| - 1], vals[i])])
  {
    hide Select, Fold, IsRun;
    assert keys[..i + 1] == keys[..i] + [keys[i]];
    forall j | 0 <= j < |uniq|
      ensures IsRun(keys[..i + 1], vals[..i + 1], op, uniq[j], red[|red| - 1 := op(red[|red| - 1], vals[i])][j])
    {
      RunStep(keys, vals, op, i, uniq[j], red[j]);
    }
    assert uniq[|uniq| - 1] in uniq;
  }

  lemma NewRun<T(!new)>(keys: seq<nat>, vals: seq<T>, op: (T, T) -> T, uniq: seq<nat>, red: seq<T>, i: nat)
    requires |keys| == |vals| && Ascending(keys) && i < |keys| && (i > 0 ==> keys[i] != keys[i - 1])
    requires IsReduced(keys[..i], vals[..i], op, uniq, red)
    ensures IsReduced(keys[..i + 1], vals[..i + 1], op, uniq + [keys[i]], red + [vals[i]])
  {
    hide Select, Fold, IsRun;
    assert keys[..i + 1] == keys[..i] + [keys[i]];
    forall q | 0 <= q < i ensures keys[q] < keys[i] { assert keys[q] <= keys[i - 1] <= keys[i]; }
    forall j | 0 <= j < |uniq|
      ensures uniq[j] < keys[i] && IsRun(keys[..i + 1], vals[..i + 1], op, uniq[j], red[j])
    {
      assert uniq[j] in uniq;
      var q :| 0 <= q < i && keys[..i][q] == uniq[j];
      RunStep(keys, vals, op, i, uniq[j], red[j]);
    }
    FirstOfRun(keys, vals, op, i);
  }

  lemma {:induction false} NotSelected<T>(keys: seq<nat>, vals: seq<T>, k: nat)
    requires |keys| == |vals|
    ensures k !in keys ==> Select(keys, vals, k) == []
    ensures k in keys ==> Select(keys, vals, k) != []
  {
    if keys != [] {
      NotSelected(keys[..|keys| - 1], vals[..|keys| - 1], k);
      assert keys == keys[..|keys| - 1] + [keys[|keys| - 1]];
    }
  }

  /** The radix sort and gather in front of a reduction: same runs as the unsorted input. */
  method SortAndReduce<T(!new)>(keys: seq<nat>, vals: seq<T>, op: (T, T) -> T) returns (uniq: seq<nat>, red: seq<T>)
    requires |keys| == |vals|
    ensures IsReduced(keys, vals, op, uniq, red)
  {
    var zeros := seq(|keys|, _ => 0);
    var order := StableOrder(keys, zeros);
    var sortedKeys := seq(|keys|, i requires 0 <= i < |keys| => keys[order[i]]);
    var sortedVals := seq(|keys|, i requires 0 <= i < |keys| => vals[order[i]]);
    SortedKeys(keys, zeros, order);
    assert sortedKeys == At(keys, order) && sortedVals == At(vals, order);
    uniq, red := ReduceByKey(sortedKeys, sortedVals, op);
    UnsortedRuns(keys, vals, op, zeros, order, uniq, red);
  }

  lemma SortedKeys(keys: seq<nat>, zeros: seq<nat>, order: seq<nat>)
    requires |keys| == |zeros| && IsStableOrder(keys, zeros, order)
    requires forall i :: 0 <= i < |zeros| ==> zeros[i] == 0
    ensures Ascending(At(keys, order))
    ensures forall k :: k in At(keys, order) <==> k in keys
  {
    var g := At(keys, order);
    forall i, j | 0 <= i <= j < |g| ensures g[i] <= g[j] {
      if i < j { assert Before(keys, zeros, order[i], order[j]); }
    }
    forall k ensures k in g <==> k in keys {
      if k in keys {
        var i :| 0 <= i < |keys| && keys[i] == k;
        assert i in order;
        var j :| 0 <= j < |order| && order[j] == i;
        assert g[j] == k;
      }
    }
  }

  lemma UnsortedRuns<T(!new)>(keys: seq<nat>, vals: seq<T>, op: (T, T) -> T, zeros: seq<nat>, order: seq<nat>, uniq: seq<nat>, red: seq<T>)
    requires |keys| == |vals| == |zeros| && IsStableOrder(keys, zeros, order)
    requires forall i :: 0 <= i < |zeros| ==> zeros[i] == 0
    requires IsReduced(At(keys, order), At(vals, order), op, uniq, red)
    ensures IsReduced(keys, vals, op, uniq, red)
  {
    SortedKeys(keys, zeros, order);
    forall i | 0 <= i < |uniq| ensures IsRun(keys, vals, op, uniq[i], red[i]) {
      StableSelect(keys, vals, zeros, order, uniq[i]);
    }
  }
}
