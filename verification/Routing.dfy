/** Packing one send buffer with a segment per target rank. */
module Routing {
  import opened Sequences
  import opened Collectives

  /** The items bound for rank t, in input order. */
  ghost function Bucket<T>(items: seq<T>, targets: seq<nat>, t: nat): seq<T>
    requires |items| == |targets|
  {
    if items == [] then []
    else
      var n := |items| - 1;
      Bucket(items[..n], targets[..n], t) + (if targets[n] == t then [items[n]] else [])
  }

  ghost function Buckets<T>(items: seq<T>, targets: seq<nat>, size: nat): (b: seq<seq<T>>)
    requires |items| == |targets|
    ensures |b| == size && forall t :: 0 <= t < size ==> b[t] == Bucket(items, targets, t)
  {
    seq(size, t requires 0 <= t < size => Bucket(items, targets, t))
  }

  lemma BucketStep<T>(items: seq<T>, targets: seq<nat>, i: nat, t: nat)
    requires |items| == |targets| && i < |items|
    ensures Bucket(items[..i + 1], targets[..i + 1], t)
            == Bucket(items[..i], targets[..i], t) + (if targets[i] == t then [items[i]] else [])
  {
    assert items[..i + 1][..i] == items[..i] && targets[..i + 1][..i] == targets[..i];
  }

  lemma {:induction false} BucketMember<T>(items: seq<T>, targets: seq<nat>, t: nat, x: T)
    requires |items| == |targets|
    ensures x in Bucket(items, targets, t) <==> exists i :: 0 <= i < |items| && items[i] == x && targets[i] == t
  {
    if items != [] {
      var n := |items| - 1;
      BucketMember(items[..n], targets[..n], t, x);
      assert forall i :: 0 <= i < n ==> items[..n][i] == items[i] && targets[..n][i] == targets[i];
    }
  }

  lemma {:induction false} BucketDistinct<T>(items: seq<T>, targets: seq<nat>, t: nat)
    requires |items| == |targets| && Distinct(items)
    ensures Distinct(Bucket(items, targets, t))
  {
    if items != [] {
      var n := |items| - 1;
      BucketDistinct(items[..n], targets[..n], t);
      var init := Bucket(items[..n], targets[..n], t);
      forall i | 0 <= i < |init| ensures init[i] != items[n] {
        assert init[i] in init;
        BucketMember(items[..n], targets[..n], t, init[i]);
      }
    }
  }

  lemma {:induction false} BucketsTotal<T>(items: seq<T>, targets: seq<nat>, size: nat)
    requires |items| == |targets| && forall i :: 0 <= i < |targets| ==> targets[i] < size
    ensures |Flatten(Buckets(items, targets, size))| == |items|
  {
    hide Bucket;
    var b := Buckets(items, targets, size);
    FlattenLength(b);
    if items == [] {
      NothingBound(items, targets, size);
      SumConstant(Lengths(b), 0);
    } else {
      var n := |items| - 1;
      var b' := Buckets(items[..n], targets[..n], size);
      BucketsTotal(items[..n], targets[..n], size);
      FlattenLength(b');
      forall t | 0 <= t < size ensures |b[t]| == |b'[t]| + (if t == targets[n] then 1 else 0) {
        BucketStep(items, targets, n, t);
        assert items[..n + 1] == items && targets[..n + 1] == targets;
      }
      OneMore(Lengths(b'), Lengths(b), targets[n]);
    }
  }

  lemma NothingBound<T>(items: seq<T>, targets: seq<nat>, size: nat)
    requires |items| == |targets| == 0
    ensures forall t :: 0 <= t < size ==> Buckets(items, targets, size)[t] == []
  {
  }

  lemma {:induction false} OneMore(a: seq<int>, b: seq<int>, t: nat)
    requires |a| == |b| && t < |a|
    requires forall i :: 0 <= i < |a| ==> b[i] == a[i] + (if i == t then 1 else 0)
    ensures Sum(b) == Sum(a) + 1
  {
    var n := |a| - 1;
    if t < n {
      OneMore(a[..n], b[..n], t);
    } else {
      assert a[..n] == b[..n];
    }
  }

  /** A buffer whose slices are the buckets is the concatenation of the buckets. */
  lemma {:induction false} SlicesMakeFlatten<T>(buf: seq<T>, b: seq<seq<T>>, k: nat)
    requires |buf| == |Flatten(b)| && k <= |b| && Start(b, k) <= |buf|
    requires forall t :: 0 <= t < |b| ==> Start(b, t) + |b[t]| <= |buf| && buf[Start(b, t)..Start(b, t) + |b[t]|] == b[t]
    ensures buf[..Start(b, k)] == Flatten(b[..k])
  {
    if k > 0 {
      hide Flatten, Start;
      FlattenPrefix(b, k - 1);
      SlicesMakeFlatten(buf, b, k - 1);
      PrefixGrows(buf, Start(b, k - 1), Start(b, k));
    }
  }

  ghost predicate Packed<T>(buf: seq<T>, b: seq<seq<T>>, starts: seq<nat>, cursor: seq<nat>)
  {
    && |starts| == |cursor| == |b|
    && forall t :: 0 <= t < |b| ==>
         cursor[t] == starts[t] + |b[t]| && cursor[t] <= |buf| && buf[starts[t]..cursor[t]] == b[t]
  }

  /** Count, prefix-sum, then write every item at its target's cursor. */
  method RouteByTarget<T>(items: seq<T>, targets: seq<nat>, size: nat) returns (counts: seq<nat>, buf: seq<T>)
    requires size > 0 && |items| == |targets| && forall i :: 0 <= i < |targets| ==> targets[i] < size
    ensures counts == Lengths(Buckets(items, targets, size))
    ensures buf == Flatten(Buckets(items, targets, size))
  {
    hide Bucket, Flatten, Packed;
    counts := CountTargets(items, targets, size);
    ghost var b := Buckets(items, targets, size);
    var offsets := SendOffsets(counts, b);
    BucketsTotal(items, targets, size);
    var cursor;
    buf, cursor := WriteItems(items, targets, size, offsets);
    PackedIsFlatten(buf, b, offsets, cursor);
  }

  /** Every item goes to its target's write head. */
  method WriteItems<T>(items: seq<T>, targets: seq<nat>, size: nat, offsets: seq<nat>) returns (buf: seq<T>, cursor: seq<nat>)
    requires |items| == |targets| && forall i :: 0 <= i < |targets| ==> targets[i] < size
    requires |offsets| == size && forall t :: 0 <= t < size ==> offsets[t] == Start(Buckets(items, targets, size), t)
    requires |Flatten(Buckets(items, targets, size))| == |items|
    ensures |buf| == |items| && Packed(buf, Buckets(items, targets, size), offsets, cursor)
  {
    hide Bucket, Flatten, Packed;
    buf, cursor := items, offsets;
    NothingPacked(items, targets, size, offsets);
    for i := 0 to |items|
      invariant |buf| == |items| && |cursor| == size
      invariant Packed(buf, Buckets(items[..i], targets[..i], size), offsets, cursor)
    {
      PackRoom(buf, items, targets, size, i, offsets, cursor);
      PackStep(buf, items, targets, size, i, offsets, cursor);
      var target := targets[i];
      buf := buf[cursor[target] := items[i]];
      cursor := cursor[target := cursor[target] + 1];
    }
    assert items[..|items|] == items && targets[..|items|] == targets;
  }

  lemma NothingPacked<T>(items: seq<T>, targets: seq<nat>, size: nat, offsets: seq<nat>)
    requires |items| == |targets|
    requires |offsets| == size && forall t :: 0 <= t < size ==> offsets[t] == Start(Buckets(items, targets, size), t)
    requires |Flatten(Buckets(items, targets, size))| == |items|
    ensures Packed(items, Buckets(items[..0], targets[..0], size), offsets, offsets)
  {
    hide Bucket, Flatten;
    NothingBound(items[..0], targets[..0], size);
    forall t | 0 <= t < size ensures offsets[t] <= |items| { FlattenSlice(Buckets(items, targets, size), t); }
  }

  lemma PackedIsFlatten<T>(buf: seq<T>, b: seq<seq<T>>, offsets: seq<nat>, cursor: seq<nat>)
    requires Packed(buf, b, offsets, cursor) && |buf| == |Flatten(b)|
    requires forall t :: 0 <= t < |b| ==> offsets[t] == Start(b, t)
    ensures buf == Flatten(b)
  {
    hide Flatten;
    forall t | 0 <= t < |b| ensures Start(b, t) + |b[t]| <= |buf| && buf[Start(b, t)..Start(b, t) + |b[t]|] == b[t] {
      assert offsets[t] == Start(b, t);
    }
    assert b[..|b|] == b && buf[..|buf|] == buf;
    SlicesMakeFlatten(buf, b, |b|);
  }

  method CountTargets<T>(items: seq<T>, targets: seq<nat>, size: nat) returns (counts: seq<nat>)
    requires |items| == |targets| && forall i :: 0 <= i < |targets| ==> targets[i] < size
    ensures counts == Lengths(Buckets(items, targets, size))
  {
    counts := seq(size, _ => 0);
    for i := 0 to |targets|
      invariant |counts| == size
      invariant forall t :: 0 <= t < size ==> counts[t] == |Bucket(items[..i], targets[..i], t)|
    {
      forall t | 0 <= t < size ensures |Bucket(items[..i + 1], targets[..i + 1], t)|
        == |Bucket(items[..i], targets[..i], t)| + (if targets[i] == t then 1 else 0) { BucketStep(items, targets, i, t); }
      counts := counts[targets[i] := counts[targets[i]] + 1];
    }
    assert items[..|items|] == items && targets[..|targets|] == targets;
  }

  method SendOffsets<T>(counts: seq<nat>, ghost b: seq<seq<T>>) returns (offsets: seq<nat>)
    requires counts == Lengths(b) && counts != []
    ensures |offsets| == |counts| && forall t :: 0 <= t < |offsets| ==> offsets[t] == Start(b, t)
  {
    offsets := seq(|counts|, _ => 0);
    assert b[..0] == [];
    for r := 1 to |counts|
      invariant |offsets| == |counts|
      invariant forall t :: 0 <= t < r && t < |counts| ==> offsets[t] == Start(b, t)
    {
      FlattenPrefix(b, r - 1);
      offsets := offsets[r := offsets[r - 1] + counts[r - 1]];
    }
  }

  /** A prefix of the input fills at most as much of each segment as the whole input. */
  lemma {:induction false} BucketGrows<T>(items: seq<T>, targets: seq<nat>, i: nat, t: nat)
    requires |items| == |targets| && i <= |items|
    ensures |Bucket(items[..i], targets[..i], t)| <= |Bucket(items, targets, t)|
    decreases |items| - i
  {
    if i == |items| {
      assert items[..i] == items && targets[..i] == targets;
    } else {
      BucketStep(items, targets, i, t);
      BucketGrows(items, targets, i + 1, t);
    }
  }

  lemma PackRoom<T>(buf: seq<T>, items: seq<T>, targets: seq<nat>, size: nat, i: nat, offsets: seq<nat>, cursor: seq<nat>)
    requires |items| == |targets| == |buf| && i < |items| && forall j :: 0 <= j < |targets| ==> targets[j] < size
    requires |offsets| == size && forall t :: 0 <= t < size ==> offsets[t] == Start(Buckets(items, targets, size), t)
    requires |Flatten(Buckets(items, targets, size))| == |items|
    requires Packed(buf, Buckets(items[..i], targets[..i], size), offsets, cursor)
    ensures cursor[targets[i]] < |buf|
    ensures forall t :: 0 <= t < size && t != targets[i] ==> cursor[t] <= offsets[targets[i]] || cursor[targets[i]] < offsets[t]
  {
    hide Bucket, Flatten, Start;
    var b, target := Buckets(items, targets, size), targets[i];
    BucketStep(items, targets, i, target);
    BucketGrows(items, targets, i + 1, target);
    FlattenPrefix(b, target);
    FlattenSlice(b, target);
    forall t | 0 <= t < size && t != target ensures cursor[t] <= offsets[target] || cursor[target] < offsets[t] {
      BucketGrows(items, targets, i, t);
      FlattenPrefix(b, t);
      if t < target { StartMonotone(b, t + 1, target); } else { StartMonotone(b, target + 1, t); }
    }
  }

  lemma PackStep<T>(buf: seq<T>, items: seq<T>, targets: seq<nat>, size: nat, i: nat, offsets: seq<nat>, cursor: seq<nat>)
    requires |items| == |targets| == |buf| && i < |items| && targets[i] < size
    requires |offsets| == size && Packed(buf, Buckets(items[..i], targets[..i], size), offsets, cursor)
    requires cursor[targets[i]] < |buf|
    requires forall t :: 0 <= t < size && t != targets[i] ==> cursor[t] <= offsets[targets[i]] || cursor[targets[i]] < offsets[t]
    ensures Packed(buf[cursor[targets[i]] := items[i]], Buckets(items[..i + 1], targets[..i + 1], size), offsets,
                   cursor[targets[i] := cursor[targets[i]] + 1])
  {
    var target := targets[i];
    var b, b' := Buckets(items[..i], targets[..i], size), Buckets(items[..i + 1], targets[..i + 1], size);
    var buf', cursor' := buf[cursor[target] := items[i]], cursor[target := cursor[target] + 1];
    forall t | 0 <= t < size
      ensures cursor'[t] == offsets[t] + |b'[t]| && cursor'[t] <= |buf'| && buf'[offsets[t]..cursor'[t]] == b'[t]
    {
      BucketStep(items, targets, i, t);
      if t == target {
        assert buf'[offsets[t]..cursor'[t]] == buf[offsets[t]..cursor[t]] + [items[i]];
      } else {
        assert buf'[offsets[t]..cursor'[t]] == buf[offsets[t]..cursor[t]];
      }
    }
  }

  // ----- routing on every rank, then exchanging --------------------------------

  /** After every rank routes its items and the segments are exchanged, rank t holds the
      items bound for t, sender by sender. */
  lemma RoutedExchange<T>(items: seq<seq<T>>, targets: seq<seq<nat>>, bufs: seq<seq<T>>, counts: seq<seq<nat>>)
    requires |items| == |targets| == |bufs| == |counts|
    requires forall r :: 0 <= r < |items| ==> |items[r]| == |targets[r]|
    requires forall r :: 0 <= r < |items| ==> counts[r] == Lengths(Buckets(items[r], targets[r], |items|))
    requires forall r :: 0 <= r < |items| ==> bufs[r] == Flatten(Buckets(items[r], targets[r], |items|))
    ensures Exchangeable(bufs, counts)
    ensures forall t, r :: 0 <= t < |items| && 0 <= r < |items| ==>
      Column(bufs, counts, t)[r] == Bucket(items[r], targets[r], t)
  {
    forall r | 0 <= r < |items|
      ensures Sum(counts[r]) == |bufs[r]| && Cut(bufs[r], counts[r]) == Buckets(items[r], targets[r], |items|)
    {
      CutUnique(Buckets(items[r], targets[r], |items|));
    }
    assert Exchangeable(bufs, counts);
    forall t, r | 0 <= t < |items| && 0 <= r < |items|
      ensures Column(bufs, counts, t)[r] == Bucket(items[r], targets[r], t)
    {
      assert Segment(bufs, counts, r, t) == Buckets(items[r], targets[r], |items|)[t];
    }
  }

  lemma ReceivedMember<T>(items: seq<seq<T>>, targets: seq<seq<nat>>, bufs: seq<seq<T>>, counts: seq<seq<nat>>, t: nat, x: T)
    requires |items| == |targets| == |bufs| == |counts| && t < |items|
    requires forall r :: 0 <= r < |items| ==> |items[r]| == |targets[r]|
    requires Exchangeable(bufs, counts)
    requires forall r :: 0 <= r < |items| ==> Column(bufs, counts, t)[r] == Bucket(items[r], targets[r], t)
    ensures x in Alltoallv(bufs, counts)[t] <==>
            exists r, i :: 0 <= r < |items| && 0 <= i < |items[r]| && items[r][i] == x && targets[r][i] == t
  {
    var col := Column(bufs, counts, t);
    InFlatten(col, x);
    forall r | 0 <= r < |items|
      ensures x in col[r] <==> exists i :: 0 <= i < |items[r]| && items[r][i] == x && targets[r][i] == t
    {
      BucketMember(items[r], targets[r], t, x);
    }
  }
}
