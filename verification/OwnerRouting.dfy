/** Sending every (ID, degree, location) triple to the rank whose hash shard holds the ID. */
module OwnerRouting {
  import opened Sequences
  import opened Collectives
  import opened Routing
  import opened PatchSet
  import opened LocalEntries
  import opened TopK

  // ----- which rank owns an ID -------------------------------------------------

  /** The gathered shard starts without the first: what the owner search looks through. */
  ghost function InnerStarts(shards: seq<seq<nat>>): (s: seq<nat>)
    requires |shards| > 0
    ensures |s| + 1 == |shards| && forall i :: 0 <= i < |s| ==> s[i] == Start(shards, i + 1)
  {
    seq(|shards| - 1, i requires 0 <= i < |shards| - 1 => Start(shards, i + 1))
  }

  lemma InnerStartsAscend(shards: seq<seq<nat>>)
    requires |shards| > 0
    ensures Ascending(InnerStarts(shards))
  {
    var s := InnerStarts(shards);
    forall i, j | 0 <= i <= j < |s| ensures s[i] <= s[j] { StartMonotone(shards, i + 1, j + 1); }
  }

  /** The search finds the one shard whose range holds the ID, empty shards included. */
  lemma OwnerIsShard(shards: seq<seq<nat>>, id: nat, t: nat)
    requires t < |shards| && Start(shards, t) <= id < Start(shards, t + 1)
    ensures Ascending(InnerStarts(shards)) && TargetRank(id, InnerStarts(shards)) == t
  {
    var s := InnerStarts(shards);
    InnerStartsAscend(shards);
    forall i | 0 <= i < t ensures s[i] <= id { StartMonotone(shards, i + 1, t); }
    forall i | t <= i < |s| ensures s[i] > id { StartMonotone(shards, t + 1, i + 1); }
    UpperBoundIs(s, id, t);
  }

  lemma OwnerHoldsId(shards: seq<seq<nat>>, id: nat)
    requires id < |Flatten(shards)| && |shards| > 0 && Ascending(InnerStarts(shards))
    ensures var t := TargetRank(id, InnerStarts(shards));
            t < |shards| && Start(shards, t) <= id < Start(shards, t + 1)
  {
    hide TargetRank;
    var t, i := FlattenLocate(shards, id);
    FlattenPrefix(shards, t);
    OwnerIsShard(shards, id, t);
  }

  // ----- sorted keys are already packed ----------------------------------------

  lemma {:induction false} NoneBound<T>(items: seq<T>, targets: seq<nat>, t: nat)
    requires |items| == |targets| && forall i :: 0 <= i < |targets| ==> targets[i] != t
    ensures Bucket(items, targets, t) == []
  {
    if items != [] { NoneBound(items[..|items| - 1], targets[..|items| - 1], t); }
  }

  lemma {:induction false} TailEmpty<T>(b: seq<seq<T>>, m: nat)
    requires m <= |b| && forall u :: m <= u < |b| ==> b[u] == []
    ensures Flatten(b) == Flatten(b[..m])
  {
    if m == |b| {
      assert b[..m] == b;
    } else {
      TailEmpty(b[..|b| - 1], m);
      assert b[..|b| - 1][..m] == b[..m];
    }
  }

  /** When targets never decrease, the items themselves are the packed send buffer. */
  lemma {:induction false} SortedIsPacked<T>(items: seq<T>, targets: seq<nat>, size: nat)
    requires |items| == |targets| && Ascending(targets) && forall i :: 0 <= i < |targets| ==> targets[i] < size
    ensures Flatten(Buckets(items, targets, size)) == items
  {
    hide Bucket, Flatten;
    var b := Buckets(items, targets, size);
    if items == [] {
      NothingBound(items, targets, size);
      TailEmpty(b, 0);
      FlattenLength(b[..0]);
    } else {
      var n := |items| - 1;
      var b', t := Buckets(items[..n], targets[..n], size), targets[n];
      SortedIsPacked(items[..n], targets[..n], size);
      assert items[..n + 1] == items && targets[..n + 1] == targets;
      forall u | 0 <= u < size ensures b[u] == b'[u] + (if u == t then [items[n]] else []) {
        BucketStep(items, targets, n, u);
      }
      forall u | t < u < size ensures b'[u] == [] { NoneBound(items[..n], targets[..n], u); }
      LastItem(b', b, t, items[n]);
      assert items == items[..n] + [items[n]];
    }
  }

  lemma LastItem<T>(b': seq<seq<T>>, b: seq<seq<T>>, t: nat, x: T)
    requires |b| == |b'| && t < |b|
    requires forall u :: 0 <= u < |b| ==> b[u] == b'[u] + (if u == t then [x] else [])
    requires forall u :: t < u < |b| ==> b'[u] == []
    ensures Flatten(b) == Flatten(b') + [x]
  {
    hide Flatten;
    assert b[..t] == b'[..t] by {
      forall u | 0 <= u < t ensures b[u] == b'[u] {}
    }
    var front := Flatten(b[..t]);
    assert Flatten(b) == front + b[t] by {
      TailEmpty(b, t + 1);
      FlattenPrefix(b, t);
    }
    assert Flatten(b') == front + b'[t] by {
      TailEmpty(b', t + 1);
      FlattenPrefix(b', t);
    }
    assert front + (b'[t] + [x]) == (front + b'[t]) + [x];
  }

  lemma {:induction false} BucketEach<T, U>(f: T -> U, items: seq<T>, targets: seq<nat>, t: nat)
    requires |items| == |targets|
    ensures Bucket(Each(f, items), targets, t) == Each(f, Bucket(items, targets, t))
  {
    if items != [] {
      var n := |items| - 1;
      BucketEach(f, items[..n], targets[..n], t);
      assert Each(f, items)[..n] == Each(f, items[..n]);
    }
  }

  // ----- the three exchanges ---------------------------------------------------

  datatype Entry = Entry(id: nat, degree: nat, rep: Point)

  ghost predicate Paired(l: Local) {
    |l.degrees| == |l.reps| == |l.keys|
  }

  ghost function Zip(l: Local): (z: seq<Entry>)
    requires Paired(l)
    ensures |z| == |l.keys|
    ensures Each((e: Entry) => e.id, z) == l.keys
    ensures Each((e: Entry) => e.degree, z) == l.degrees
    ensures Each((e: Entry) => e.rep, z) == l.reps
  {
    seq(|l.keys|, i requires 0 <= i < |l.keys| => Entry(l.keys[i], l.degrees[i], l.reps[i]))
  }

  ghost function Zips(locals: seq<Local>): (z: seq<seq<Entry>>)
    requires forall r :: 0 <= r < |locals| ==> Paired(locals[r])
    ensures |z| == |locals| && forall r :: 0 <= r < |locals| ==> z[r] == Zip(locals[r])
  {
    seq(|locals|, r requires 0 <= r < |locals| => Zip(locals[r]))
  }

  ghost predicate Sendable(locals: seq<Local>, inner: seq<nat>) {
    && |locals| == |inner| + 1 && Ascending(inner)
    && forall r :: 0 <= r < |locals| ==> Paired(locals[r]) && StrictlyAscending(locals[r].keys)
  }

  /** What each rank counts for each owner. */
  ghost predicate CountsExact(locals: seq<Local>, inner: seq<nat>, counts: seq<seq<nat>>)
    requires Sendable(locals, inner)
  {
    && |counts| == |locals|
    && forall r :: 0 <= r < |locals| ==>
         counts[r] == Lengths(Buckets(locals[r].keys, Targets(locals[r].keys, inner), |locals|))
  }

  /** The triples rank t receives: from every rank, in rank order, its triples owned by t. */
  ghost predicate Delivered(locals: seq<Local>, inner: seq<nat>, arrivals: seq<seq<Entry>>)
    requires Sendable(locals, inner)
  {
    && |arrivals| == |locals|
    && forall t :: 0 <= t < |locals| ==> arrivals[t] == Flatten(OwnedBy(locals, inner, t))
  }

  ghost function OwnedBy(locals: seq<Local>, inner: seq<nat>, t: nat): (c: seq<seq<Entry>>)
    requires Sendable(locals, inner)
    ensures |c| == |locals|
    ensures forall r :: 0 <= r < |locals| ==> c[r] == Bucket(Zip(locals[r]), Targets(locals[r].keys, inner), t)
  {
    seq(|locals|, r requires 0 <= r < |locals| => Bucket(Zip(locals[r]), Targets(locals[r].keys, inner), t))
  }

  /** What every rank receives. */
  ghost function Arriving(locals: seq<Local>, inner: seq<nat>): (a: seq<seq<Entry>>)
    requires Sendable(locals, inner)
    ensures Delivered(locals, inner, a)
  {
    seq(|locals|, t requires 0 <= t < |locals| => Flatten(OwnedBy(locals, inner, t)))
  }

  lemma RankIsPacked(locals: seq<Local>, inner: seq<nat>, counts: seq<seq<nat>>, r: nat)
    requires Sendable(locals, inner) && CountsExact(locals, inner, counts) && r < |locals|
    ensures var b := Buckets(Zip(locals[r]), Targets(locals[r].keys, inner), |locals|);
            Flatten(b) == Zip(locals[r]) && counts[r] == Lengths(b)
  {
    var l, size := locals[r], |locals|;
    var targets := Targets(l.keys, inner);
    forall i, j | 0 <= i <= j < |targets| ensures targets[i] <= targets[j] {
      var a, b := l.keys[i], l.keys[j];
      TargetMonotone(if a <= b then a else b, b, inner);
    }
    SortedIsPacked(Zip(l), targets, size);
    forall t | 0 <= t < size ensures |Bucket(l.keys, targets, t)| == |Bucket(Zip(l), targets, t)| {
      BucketEach((e: Entry) => e.id, Zip(l), targets, t);
    }
    assert Lengths(Buckets(l.keys, targets, size)) == Lengths(Buckets(Zip(l), targets, size));
  }

  /** One exchange of triples explains the three exchanges of arrays. */
  lemma TriplesTravel(locals: seq<Local>, inner: seq<nat>, counts: seq<seq<nat>>)
    requires Sendable(locals, inner) && CountsExact(locals, inner, counts)
    ensures Exchangeable(Zips(locals), counts) && Delivered(locals, inner, Alltoallv(Zips(locals), counts))
  {
    var z := Zips(locals);
    var targets := seq(|locals|, r requires 0 <= r < |locals| => Targets(locals[r].keys, inner));
    hide Flatten, Bucket, Alltoallv, TargetRank, Exchangeable, Zip, Lengths;
    forall r | 0 <= r < |locals|
      ensures |z[r]| == |targets[r]| && counts[r] == Lengths(Buckets(z[r], targets[r], |z|))
      ensures z[r] == Flatten(Buckets(z[r], targets[r], |z|))
    {
      RankIsPacked(locals, inner, counts, r);
    }
    RoutedExchange(z, targets, z, counts);
    CountsSize(z, counts);
    forall t | 0 <= t < |locals| ensures Alltoallv(z, counts)[t] == Flatten(OwnedBy(locals, inner, t)) {
      assert Column(z, counts, t) == OwnedBy(locals, inner, t);
    }
  }

  lemma CountsSize<T>(bufs: seq<seq<T>>, counts: seq<seq<nat>>)
    requires Exchangeable(bufs, counts)
    ensures |bufs| == |counts|
  {
  }

  method CountOwners(keys: seq<nat>, inner: seq<nat>) returns (counts: seq<nat>)
    requires Ascending(inner)
    ensures counts == Lengths(Buckets(keys, Targets(keys, inner), |inner| + 1))
  {
    counts := CountTargets(keys, Targets(keys, inner), |inner| + 1);
  }

  method CountAll(locals: seq<Local>, inner: seq<nat>) returns (counts: seq<seq<nat>>)
    requires Sendable(locals, inner)
    ensures CountsExact(locals, inner, counts)
  {
    counts := [];
    for r := 0 to |locals|
      invariant |counts| == r
      invariant forall q :: 0 <= q < r ==> counts[q] == Lengths(Buckets(locals[q].keys, Targets(locals[q].keys, inner), |locals|))
    {
      var mine := CountOwners(locals[r].keys, inner);
      counts := counts + [mine];
    }
  }

  function AllKeys(locals: seq<Local>): (k: seq<seq<nat>>)
    ensures |k| == |locals| && forall r :: 0 <= r < |k| ==> k[r] == locals[r].keys
  {
    seq(|locals|, r requires 0 <= r < |locals| => locals[r].keys)
  }

  function AllDegrees(locals: seq<Local>): (d: seq<seq<nat>>)
    ensures |d| == |locals| && forall r :: 0 <= r < |d| ==> d[r] == locals[r].degrees
  {
    seq(|locals|, r requires 0 <= r < |locals| => locals[r].degrees)
  }

  function AllReps(locals: seq<Local>): (p: seq<seq<Point>>)
    ensures |p| == |locals| && forall r :: 0 <= r < |p| ==> p[r] == locals[r].reps
  {
    seq(|locals|, r requires 0 <= r < |locals| => locals[r].reps)
  }

  /** A location as the two doubles it is packed from. */
  function Coordinates(p: Point): (c: seq<real>)
    ensures |c| == 2
  {
    [p.x, p.y]
  }

  /** The received doubles, read as packed locations again. */
  function Repack(c: seq<real>): (p: seq<Point>)
    requires |c| % 2 == 0
    ensures |p| == |c| / 2
  {
    if c == [] then [] else
      var n := |c| - 2;
      Repack(c[..n]) + [Point(c[n], c[n + 1])]
  }

  lemma {:induction false} RepackExpand(p: seq<Point>)
    ensures |Expand(Coordinates, p)| == 2 * |p| && Repack(Expand(Coordinates, p)) == p
  {
    ExpandLength(Coordinates, p, 2);
    if p != [] {
      var n := |p| - 1;
      RepackExpand(p[..n]);
      assert Each(Coordinates, p)[..n] == Each(Coordinates, p[..n]);
      assert Expand(Coordinates, p) == Expand(Coordinates, p[..n]) + [p[n].x, p[n].y];
      assert p == p[..n] + [p[n]];
    }
  }

  method RepackAll(doubles: seq<seq<real>>, ghost reps: seq<seq<Point>>) returns (pts: seq<seq<Point>>)
    requires doubles == ExpandRanks(Coordinates, reps)
    ensures pts == reps
  {
    hide Expand;
    pts := [];
    for t := 0 to |doubles|
      invariant |pts| == t && forall q :: 0 <= q < t ==> pts[q] == reps[q]
    {
      RepackExpand(reps[t]);
      pts := pts + [Repack(doubles[t])];
    }
  }

  /** Keys, degrees and locations travel separately with the same counts and arrive aligned. */
  method ExchangeEntries(locals: seq<Local>, inner: seq<nat>)
    returns (ids: seq<seq<nat>>, degrees: seq<seq<nat>>, reps: seq<seq<Point>>)
    requires Sendable(locals, inner)
    ensures ids == EachRank((e: Entry) => e.id, Arriving(locals, inner))
    ensures degrees == EachRank((e: Entry) => e.degree, Arriving(locals, inner))
    ensures reps == EachRank((e: Entry) => e.rep, Arriving(locals, inner))
  {
    hide Alltoallv, Delivered, CountsExact, Arriving;
    var counts := CountAll(locals, inner);
    TriplesTravel(locals, inner, counts);
    ghost var z := Zips(locals);
    DeliveredOnce(locals, inner, Alltoallv(z, counts));
    assert AllKeys(locals) == EachRank((e: Entry) => e.id, z);
    assert AllDegrees(locals) == EachRank((e: Entry) => e.degree, z);
    assert AllReps(locals) == EachRank((e: Entry) => e.rep, z);
    AlltoallvEach((e: Entry) => e.id, z, counts);
    AlltoallvEach((e: Entry) => e.degree, z, counts);
    AlltoallvEach((e: Entry) => e.rep, z, counts);
    ids := Alltoallv(AllKeys(locals), counts);
    degrees := Alltoallv(AllDegrees(locals), counts);
    AlltoallvExpand(Coordinates, AllReps(locals), counts, 2);
    var doubles := Alltoallv(ExpandRanks(Coordinates, AllReps(locals)), ScaleRanks(counts, 2));
    reps := RepackAll(doubles, Alltoallv(AllReps(locals), counts));
  }

  lemma DeliveredOnce(locals: seq<Local>, inner: seq<nat>, arrivals: seq<seq<Entry>>)
    requires Sendable(locals, inner) && Delivered(locals, inner, arrivals)
    ensures arrivals == Arriving(locals, inner)
  {
  }
}
