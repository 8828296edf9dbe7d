/** The distributed pattern statistics against their one-process definition. */
module PatternStats {
  import opened Sequences
  import opened Collectives
  import opened Routing
  import opened PatchSet
  import opened PatternReference
  import opened LocalEntries
  import opened OwnerRouting
  import opened OwnerReduce
  import opened Reduce
  import opened TopK
  import SampleSort
  import Kernels

  // ----- what the arrivals of one ID add up to ---------------------------------

  /** The degrees an entry list carries for ID k. */
  ghost function Weight(es: seq<Entry>, k: nat): nat {
    if es == [] then 0
    else Weight(es[..|es| - 1], k) + (if es[|es| - 1].id == k then es[|es| - 1].degree else 0)
  }

  lemma {:induction false} WeightConcat(a: seq<Entry>, b: seq<Entry>, k: nat)
    ensures Weight(a + b, k) == Weight(a, k) + Weight(b, k)
  {
    if b == [] {
      assert a + b == a;
    } else {
      WeightConcat(a, b[..|b| - 1], k);
      assert (a + b)[..|a + b| - 1] == a + b[..|b| - 1];
    }
  }

  lemma {:induction false} WeightFlatten(ess: seq<seq<Entry>>, k: nat, w: seq<int>)
    requires |w| == |ess| && forall r :: 0 <= r < |ess| ==> w[r] == Weight(ess[r], k)
    ensures Weight(Flatten(ess), k) == Sum(w)
  {
    if ess != [] {
      var n := |ess| - 1;
      WeightFlatten(ess[..n], k, w[..n]);
      WeightConcat(Flatten(ess[..n]), ess[n], k);
    }
  }

  /** Routing keeps all of an ID's degrees together when its target is fixed. */
  lemma {:induction false} WeightBucket(es: seq<Entry>, targets: seq<nat>, t: nat, k: nat)
    requires |es| == |targets| && forall i :: 0 <= i < |es| && es[i].id == k ==> targets[i] == t
    ensures Weight(Bucket(es, targets, t), k) == Weight(es, k)
  {
    if es != [] {
      var n := |es| - 1;
      WeightBucket(es[..n], targets[..n], t, k);
      WeightConcat(Bucket(es[..n], targets[..n], t), if targets[n] == t then [es[n]] else [], k);
    }
  }

  lemma {:induction false} WeightIsSelected(es: seq<Entry>, k: nat)
    ensures Sum(Select(Each((e: Entry) => e.id, es), Each((e: Entry) => e.degree, es), k)) == Weight(es, k)
  {
    if es != [] {
      var n := |es| - 1;
      var ids, degrees := Each((e: Entry) => e.id, es), Each((e: Entry) => e.degree, es);
      WeightIsSelected(es[..n], k);
      assert ids[..n] == Each((e: Entry) => e.id, es[..n]) && degrees[..n] == Each((e: Entry) => e.degree, es[..n]);
      SumConcat(Select(ids[..n], degrees[..n], k), if ids[n] == k then [degrees[n]] else []);
    }
  }

  lemma {:induction false} WeightAbsent(es: seq<Entry>, k: nat)
    requires forall i :: 0 <= i < |es| ==> es[i].id != k
    ensures Weight(es, k) == 0
  {
    if es != [] { WeightAbsent(es[..|es| - 1], k); }
  }

  lemma {:induction false} WeightOnce(es: seq<Entry>, i: nat)
    requires i < |es| && forall j :: 0 <= j < |es| && j != i ==> es[j].id != es[i].id
    ensures Weight(es, es[i].id) == es[i].degree
  {
    var n := |es| - 1;
    if i == n {
      WeightAbsent(es[..n], es[i].id);
    } else {
      WeightOnce(es[..n], i);
    }
  }

  /** A rank's whole contribution to ID k is the number of its patches holding that hash. */
  lemma LocalWeight(global: seq<nat>, patches: seq<seq<nat>>, coords: seq<seq<Point>>, l: Local, k: nat)
    requires SameShape(patches, coords) && IsLocal(global, patches, coords, l) && k < |global|
    ensures Weight(Zip(l), k) == CountWith(patches, global[k])
  {
    var z := Zip(l);
    if k in l.keys {
      var i :| 0 <= i < |l.keys| && l.keys[i] == k;
      assert EntryExact(global, patches, coords, l.keys[i], l.degrees[i], l.reps[i]);
      WeightOnce(z, i);
    } else {
      WeightAbsent(z, k);
      CountBounded(patches, global[k]);
      InFlatten(patches, global[k]);
    }
  }

  // ----- an owner sees the whole program's occurrences of its IDs --------------

  ghost predicate LocalsExact(global: seq<nat>, raw: seq<seq<seq<nat>>>, coords: seq<seq<seq<Point>>>, locals: seq<Local>)
    requires RanksShaped(raw, coords)
  {
    && |locals| == |raw|
    && forall r :: 0 <= r < |raw| ==> IsLocal(global, raw[r], coords[r], locals[r])
  }

  /** Degrees that meet at an owner add up to the count over all patches of all ranks. */
  lemma ArrivalWeight(global: seq<nat>, raw: seq<seq<seq<nat>>>, coords: seq<seq<seq<Point>>>, locals: seq<Local>,
                      inner: seq<nat>, arrivals: seq<seq<Entry>>, t: nat, k: nat)
    requires RanksShaped(raw, coords) && LocalsExact(global, raw, coords, locals)
    requires Sendable(locals, inner) && Delivered(locals, inner, arrivals)
    requires t < |locals| && k < |global| && TargetRank(k, inner) == t
    ensures Weight(arrivals[t], k) == CountWith(Flatten(raw), global[k])
  {
    hide Weight, CountWith, TargetRank, Bucket, Flatten, IsLocal, Zip;
    var w: seq<int> := seq(|raw|, r requires 0 <= r < |raw| => CountWith(raw[r], global[k]));
    var owned := OwnedBy(locals, inner, t);
    forall r | 0 <= r < |raw| ensures Weight(owned[r], k) == w[r] {
      RankWeight(global, raw[r], coords[r], locals[r], inner, t, k);
    }
    WeightFlatten(owned, k, w);
    CountRanks(raw, global[k], w);
  }

  lemma RankWeight(global: seq<nat>, patches: seq<seq<nat>>, coords: seq<seq<Point>>, l: Local, inner: seq<nat>, t: nat, k: nat)
    requires SameShape(patches, coords) && IsLocal(global, patches, coords, l) && Ascending(inner)
    requires k < |global| && TargetRank(k, inner) == t
    ensures Weight(Bucket(Zip(l), Targets(l.keys, inner), t), k) == CountWith(patches, global[k])
  {
    hide Weight, CountWith, TargetRank, Bucket, EntryExact;
    var z := Zip(l);
    forall i | 0 <= i < |z| ensures z[i].id == l.keys[i] {
      assert Each((e: Entry) => e.id, z)[i] == l.keys[i];
    }
    WeightBucket(z, Targets(l.keys, inner), t, k);
    LocalWeight(global, patches, coords, l, k);
  }

  lemma ZipAt(l: Local, i: nat)
    requires Paired(l) && i < |l.keys|
    ensures Zip(l)[i] == Entry(l.keys[i], l.degrees[i], l.reps[i])
  {
  }

  /** Rank t receives exactly the triples, from any rank, whose ID it owns. */
  lemma ArrivalMember(locals: seq<Local>, inner: seq<nat>, arrivals: seq<seq<Entry>>, t: nat, e: Entry)
    requires Sendable(locals, inner) && Delivered(locals, inner, arrivals) && t < |locals|
    ensures e in arrivals[t] <==> TargetRank(e.id, inner) == t && exists r :: 0 <= r < |locals| && e in Zip(locals[r])
  {
    hide TargetRank, Bucket, Flatten;
    var owned := OwnedBy(locals, inner, t);
    InFlatten(owned, e);
    forall r | 0 <= r < |locals| ensures e in owned[r] <==> e in Zip(locals[r]) && TargetRank(e.id, inner) == t {
      OwnedMember(locals[r], inner, t, e);
    }
  }

  lemma OwnedMember(l: Local, inner: seq<nat>, t: nat, e: Entry)
    requires Paired(l) && Ascending(inner)
    ensures e in Bucket(Zip(l), Targets(l.keys, inner), t) <==> e in Zip(l) && TargetRank(e.id, inner) == t
  {
    hide TargetRank, Bucket;
    var z, targets := Zip(l), Targets(l.keys, inner);
    BucketMember(z, targets, t, e);
    forall i | 0 <= i < |z| ensures targets[i] == TargetRank(z[i].id, inner) { ZipAt(l, i); }
  }

  /** Some rank sends ID k, and the owner gets it. */
  lemma ArrivalFrom(global: seq<nat>, raw: seq<seq<seq<nat>>>, coords: seq<seq<seq<Point>>>, locals: seq<Local>,
                    inner: seq<nat>, arrivals: seq<seq<Entry>>, t: nat, k: nat, r: nat) returns (e: Entry)
    requires RanksShaped(raw, coords) && LocalsExact(global, raw, coords, locals)
    requires Sendable(locals, inner) && Delivered(locals, inner, arrivals)
    requires t < |locals| && k < |global| && TargetRank(k, inner) == t
    requires r < |raw| && global[k] in Flatten(raw[r])
    ensures e in arrivals[t] && e.id == k && IsRep(raw[r], coords[r], global[k], e.rep)
  {
    hide TargetRank, Flatten, IsRep, Delivered, CountWith, Zip;
    var l := locals[r];
    assert IsLocal(global, raw[r], coords[r], l);
    var i :| 0 <= i < |l.keys| && l.keys[i] == k;
    assert EntryExact(global, raw[r], coords[r], l.keys[i], l.degrees[i], l.reps[i]);
    ZipAt(l, i);
    e := Zip(l)[i];
    ArrivalMember(locals, inner, arrivals, t, e);
  }

  /** Every arrival is a rank's own representative for that ID. */
  lemma ArrivalIs(global: seq<nat>, raw: seq<seq<seq<nat>>>, coords: seq<seq<seq<Point>>>, locals: seq<Local>,
                  inner: seq<nat>, arrivals: seq<seq<Entry>>, t: nat, e: Entry) returns (r: nat)
    requires RanksShaped(raw, coords) && LocalsExact(global, raw, coords, locals)
    requires Sendable(locals, inner) && Delivered(locals, inner, arrivals)
    requires t < |locals| && e in arrivals[t]
    ensures TargetRank(e.id, inner) == t && e.id < |global|
    ensures r < |raw| && IsRep(raw[r], coords[r], global[e.id], e.rep)
  {
    hide TargetRank, Flatten, IsRep, Delivered, CountWith, Zip;
    ArrivalMember(locals, inner, arrivals, t, e);
    r :| 0 <= r < |locals| && e in Zip(locals[r]);
    var l := locals[r];
    assert IsLocal(global, raw[r], coords[r], l);
    var i :| 0 <= i < |Zip(l)| && Zip(l)[i] == e;
    ZipAt(l, i);
    assert EntryExact(global, raw[r], coords[r], l.keys[i], l.degrees[i], l.reps[i]);
  }

  lemma SelectedRep(es: seq<Entry>, k: nat, m: Point)
    ensures m in Select(Each((e: Entry) => e.id, es), Each((e: Entry) => e.rep, es), k) <==>
            exists e :: e in es && e.id == k && e.rep == m
  {
    hide Select;
    var ids, reps := Each((e: Entry) => e.id, es), Each((e: Entry) => e.rep, es);
    SelectMember(ids, reps, k, m);
    if i :| 0 <= i < |ids| && ids[i] == k && reps[i] == m {
      assert es[i] in es;
    }
    if e :| e in es && e.id == k && e.rep == m {
      var i :| 0 <= i < |es| && es[i] == e;
      assert ids[i] == k && reps[i] == m;
    }
  }

  /** The least arriving location is the least location of the whole program. */
  lemma ArrivalRep(global: seq<nat>, raw: seq<seq<seq<nat>>>, coords: seq<seq<seq<Point>>>, locals: seq<Local>,
                   inner: seq<nat>, arrivals: seq<seq<Entry>>, t: nat, k: nat, m: Point)
    requires RanksShaped(raw, coords) && SameShape(Flatten(raw), Flatten(coords)) && LocalsExact(global, raw, coords, locals)
    requires Sendable(locals, inner) && Delivered(locals, inner, arrivals)
    requires t < |locals| && k < |global| && TargetRank(k, inner) == t
    requires IsLexMin(Select(Each((e: Entry) => e.id, arrivals[t]), Each((e: Entry) => e.rep, arrivals[t]), k), m)
    ensures IsRep(Flatten(raw), Flatten(coords), global[k], m)
  {
    assert |arrivals| == |locals|;
    hide Occurs, TargetRank, Select, Flatten, Delivered, LocalsExact, Sendable, RanksShaped, SameShape;
    var all, pts, h := Flatten(raw), Flatten(coords), global[k];
    SelectedRep(arrivals[t], k, m);
    var e :| e in arrivals[t] && e.id == k && e.rep == m;
    var r := ArrivalIs(global, raw, coords, locals, inner, arrivals, t, e);
    RankShaped(raw, coords, r);
    OccursEverywhere(raw, coords, h, m, r);
    forall q | Occurs(all, pts, h, q) ensures PointLe(m, q) {
      ArrivalBelow(global, raw, coords, locals, inner, arrivals, t, k, m, q);
    }
  }

  lemma RankShaped(raw: seq<seq<seq<nat>>>, coords: seq<seq<seq<Point>>>, r: nat)
    requires RanksShaped(raw, coords) && r < |raw|
    ensures |coords| == |raw| && SameShape(raw[r], coords[r])
  {
  }

  lemma ArrivalBelow(global: seq<nat>, raw: seq<seq<seq<nat>>>, coords: seq<seq<seq<Point>>>, locals: seq<Local>,
                     inner: seq<nat>, arrivals: seq<seq<Entry>>, t: nat, k: nat, m: Point, q: Point)
    requires RanksShaped(raw, coords) && SameShape(Flatten(raw), Flatten(coords)) && LocalsExact(global, raw, coords, locals)
    requires Sendable(locals, inner) && Delivered(locals, inner, arrivals)
    requires t < |locals| && k < |global| && TargetRank(k, inner) == t
    requires IsLexMin(Select(Each((e: Entry) => e.id, arrivals[t]), Each((e: Entry) => e.rep, arrivals[t]), k), m)
    requires Occurs(Flatten(raw), Flatten(coords), global[k], q)
    ensures PointLe(m, q)
  {
    assert |arrivals| == |locals|;
    hide Occurs, TargetRank, Select, Flatten, Delivered, LocalsExact, Sendable, RanksShaped, SameShape, PointLe;
    var r := OccursSomewhere(raw, coords, global[k], q);
    RankShaped(raw, coords, r);
    OccursInFlat(raw[r], coords[r], global[k], q);
    var e := ArrivalFrom(global, raw, coords, locals, inner, arrivals, t, k, r);
    SelectedRep(arrivals[t], k, e.rep);
    PointLeTransitive(m, e.rep, q);
  }

  // ----- the owner's shard -----------------------------------------------------

  /** Everything an owner may rely on once the exchange is over. */
  ghost predicate Routed(raw: seq<seq<seq<nat>>>, coords: seq<seq<seq<Point>>>, locals: seq<Local>,
                         shards: seq<seq<nat>>, arrivals: seq<seq<Entry>>)
  {
    && |raw| > 0 && |shards| == |locals| == |arrivals| == |raw| && |Flatten(raw)| <= U64_MAX
    && RanksShaped(raw, coords) && SameShape(Flatten(raw), Flatten(coords))
    && Flatten(shards) == GlobalHashes(Flatten(raw))
    && LocalsExact(GlobalHashes(Flatten(raw)), raw, coords, locals)
    && Ascending(InnerStarts(shards)) && Sendable(locals, InnerStarts(shards))
    && Delivered(locals, InnerStarts(shards), arrivals)
  }

  ghost function Ids(es: seq<Entry>): (s: seq<nat>)
    ensures |s| == |es|
  {
    Each((e: Entry) => e.id, es)
  }

  ghost function Degs(es: seq<Entry>): (s: seq<nat>)
    ensures |s| == |es|
  {
    Each((e: Entry) => e.degree, es)
  }

  ghost function Reps(es: seq<Entry>): (s: seq<Point>)
    ensures |s| == |es|
  {
    Each((e: Entry) => e.rep, es)
  }

  /** Only IDs of the owner's own shard arrive. */
  lemma ArrivalsInShard(raw: seq<seq<seq<nat>>>, coords: seq<seq<seq<Point>>>, locals: seq<Local>,
                        shards: seq<seq<nat>>, arrivals: seq<seq<Entry>>, t: nat, k: nat)
    requires Routed(raw, coords, locals, shards, arrivals) && t < |shards| && k in Ids(arrivals[t])
    ensures Start(shards, t) <= k < Start(shards, t) + |shards[t]|
    ensures k < |Flatten(shards)| && TargetRank(k, InnerStarts(shards)) == t
  {
    hide TargetRank, LocalsExact, Sendable, Delivered, RanksShaped, SameShape, GlobalHashes;
    var i :| 0 <= i < |arrivals[t]| && arrivals[t][i].id == k;
    assert arrivals[t][i] in arrivals[t];
    var r := ArrivalIs(GlobalHashes(Flatten(raw)), raw, coords, locals, InnerStarts(shards), arrivals, t, arrivals[t][i]);
    OwnerHoldsId(shards, k);
    FlattenPrefix(shards, t);
  }

  lemma DegreesAddUp(raw: seq<seq<seq<nat>>>, coords: seq<seq<seq<Point>>>, locals: seq<Local>,
                     shards: seq<seq<nat>>, arrivals: seq<seq<Entry>>, t: nat, k: nat)
    requires Routed(raw, coords, locals, shards, arrivals) && t < |shards|
    ensures Sum(Select(Ids(arrivals[t]), Degs(arrivals[t]), k)) <= U64_MAX
    ensures k < |Flatten(shards)| && TargetRank(k, InnerStarts(shards)) == t ==>
      Sum(Select(Ids(arrivals[t]), Degs(arrivals[t]), k)) == CountWith(Flatten(raw), Flatten(shards)[k])
  {
    hide TargetRank, LocalsExact, Sendable, Delivered, RanksShaped, SameShape, GlobalHashes, Flatten, Weight, CountWith, Select, Sum;
    WeightIsSelected(arrivals[t], k);
    if k < |Flatten(shards)| && TargetRank(k, InnerStarts(shards)) == t {
      ArrivalWeight(GlobalHashes(Flatten(raw)), raw, coords, locals, InnerStarts(shards), arrivals, t, k);
      CountBounded(Flatten(raw), Flatten(shards)[k]);
    } else {
      forall i | 0 <= i < |arrivals[t]| ensures arrivals[t][i].id != k {
        var id := arrivals[t][i].id;
        assert id == Ids(arrivals[t])[i];
        ArrivalsInShard(raw, coords, locals, shards, arrivals, t, id);
      }
      WeightAbsent(arrivals[t], k);
    }
  }

  /** A shard slot filled from the arrivals is the statistic of the slot's hash. */
  lemma SlotIsStat(raw: seq<seq<seq<nat>>>, coords: seq<seq<seq<Point>>>, locals: seq<Local>,
                   shards: seq<seq<nat>>, arrivals: seq<seq<Entry>>, t: nat, s: nat, count: nat, rep: Point)
    requires Routed(raw, coords, locals, shards, arrivals) && t < |shards| && s < |shards[t]|
    requires SlotExact(Ids(arrivals[t]), Degs(arrivals[t]), Reps(arrivals[t]), Start(shards, t) + s, count, rep)
    ensures IsStat(Flatten(raw), Flatten(coords), PatternStat(shards[t][s], count, rep))
  {
    hide TargetRank, LocalsExact, Sendable, Delivered, RanksShaped, SameShape, Flatten, CountWith, Select, Sum, IsRep, IsLexMin;
    var global, inner, k := GlobalHashes(Flatten(raw)), InnerStarts(shards), Start(shards, t) + s;
    FlattenAt(shards, t, s);
    OwnerIsShard(shards, k, t);
    DegreesAddUp(raw, coords, locals, shards, arrivals, t, k);
    assert global[k] in global;
    var r, p := HashSource(raw, global[k]);
    InFlatten(raw[r], global[k]);
    var e := ArrivalFrom(global, raw, coords, locals, inner, arrivals, t, k, r);
    var i :| 0 <= i < |arrivals[t]| && arrivals[t][i] == e;
    assert Ids(arrivals[t])[i] == k;
    ArrivalRep(global, raw, coords, locals, inner, arrivals, t, k, rep);
  }

  ghost predicate ShardExact(all: seq<seq<nat>>, pts: seq<seq<Point>>, shard: seq<nat>, stats: seq<PatternStat>)
    requires SameShape(all, pts)
  {
    && |stats| == |shard|
    && forall s :: 0 <= s < |shard| ==> stats[s].hash == shard[s] && IsStat(all, pts, stats[s])
  }

  /** Owner reduction: the dense shard arrays, read back as statistics in hash order. */
  method ShardStats(ids: seq<nat>, degrees: seq<nat>, reps: seq<Point>, shard: seq<nat>, start: nat,
                    ghost raw: seq<seq<seq<nat>>>, ghost coords: seq<seq<seq<Point>>>, ghost locals: seq<Local>,
                    ghost shards: seq<seq<nat>>, ghost arrivals: seq<seq<Entry>>, ghost t: nat)
    returns (stats: seq<PatternStat>)
    requires Routed(raw, coords, locals, shards, arrivals) && t < |shards|
    requires shard == shards[t] && start == Start(shards, t)
    requires ids == Ids(arrivals[t]) && degrees == Degs(arrivals[t]) && reps == Reps(arrivals[t])
    ensures ShardExact(Flatten(raw), Flatten(coords), shard, stats)
  {
    hide Routed, Ids, Degs, Reps, SlotExact, Select, IsStat;
    RoutedShapes(raw, coords, locals, shards, arrivals);
    forall k | k in ids ensures start <= k < start + |shard| {
      ArrivalsInShard(raw, coords, locals, shards, arrivals, t, k);
    }
    forall k: nat ensures Sum(Select(ids, degrees, k)) <= U64_MAX {
      DegreesAddUp(raw, coords, locals, shards, arrivals, t, k);
    }
    var counts, mins := ReduceArrivals(ids, degrees, reps, start, |shard|);
    stats := seq(|shard|, s requires 0 <= s < |shard| => PatternStat(shard[s], counts[s], mins[s]));
    forall s | 0 <= s < |shard| ensures IsStat(Flatten(raw), Flatten(coords), stats[s]) {
      SlotIsStat(raw, coords, locals, shards, arrivals, t, s, counts[s], mins[s]);
    }
  }

  lemma RoutedShapes(raw: seq<seq<seq<nat>>>, coords: seq<seq<seq<Point>>>, locals: seq<Local>,
                     shards: seq<seq<nat>>, arrivals: seq<seq<Entry>>)
    requires Routed(raw, coords, locals, shards, arrivals)
    ensures |shards| == |arrivals| == |raw| && SameShape(Flatten(raw), Flatten(coords))
    ensures Flatten(shards) == GlobalHashes(Flatten(raw))
  {
  }

  ghost predicate AllExact(all: seq<seq<nat>>, pts: seq<seq<Point>>, shards: seq<seq<nat>>, stats: seq<seq<PatternStat>>)
    requires SameShape(all, pts)
  {
    |stats| == |shards| && forall t :: 0 <= t < |shards| ==> ShardExact(all, pts, shards[t], stats[t])
  }

  method AllShardStats(ids: seq<seq<nat>>, degrees: seq<seq<nat>>, reps: seq<seq<Point>>, shards: seq<seq<nat>>,
                       ghost raw: seq<seq<seq<nat>>>, ghost coords: seq<seq<seq<Point>>>, ghost locals: seq<Local>,
                       ghost arrivals: seq<seq<Entry>>)
    returns (stats: seq<seq<PatternStat>>)
    requires Routed(raw, coords, locals, shards, arrivals)
    requires ids == EachRank((e: Entry) => e.id, arrivals)
    requires degrees == EachRank((e: Entry) => e.degree, arrivals)
    requires reps == EachRank((e: Entry) => e.rep, arrivals)
    ensures SameShape(Flatten(raw), Flatten(coords)) && AllExact(Flatten(raw), Flatten(coords), shards, stats)
  {
    hide Routed, ShardExact, SameShape, Flatten, Start, Sum, Lengths;
    RoutedShapes(raw, coords, locals, shards, arrivals);
    stats := [];
    for t := 0 to |shards|
      invariant |stats| == t
      invariant forall q :: 0 <= q < t ==> ShardExact(Flatten(raw), Flatten(coords), shards[q], stats[q])
    {
      StartIsSum(shards, t);
      var mine := ShardStats(ids[t], degrees[t], reps[t], shards[t], Exscan(Lengths(shards), t),
                             raw, coords, locals, shards, arrivals, t);
      stats := stats + [mine];
    }
  }

  // ----- all shards together ---------------------------------------------------

  /** The shards' statistics, taken together, are all statistics there are. */
  lemma ShardsTogether(all: seq<seq<nat>>, pts: seq<seq<Point>>, shards: seq<seq<nat>>, stats: seq<seq<PatternStat>>, st: PatternStat)
    requires SameShape(all, pts) && AllExact(all, pts, shards, stats) && Flatten(shards) == GlobalHashes(all)
    ensures st in Flatten(stats) <==> IsStat(all, pts, st)
  {
    hide IsStat, Flatten;
    InFlatten(stats, st);
    if t :| 0 <= t < |stats| && st in stats[t] {
      assert ShardExact(all, pts, shards[t], stats[t]);
    }
    if IsStat(all, pts, st) {
      StatOccurs(all, pts, st);
      InFlatten(shards, st.hash);
      var t :| 0 <= t < |shards| && st.hash in shards[t];
      var s :| 0 <= s < |shards[t]| && shards[t][s] == st.hash;
      assert ShardExact(all, pts, shards[t], stats[t]);
      StatDetermined(all, pts, st, stats[t][s]);
    }
  }

  lemma ShardAscends(shards: seq<seq<nat>>, t: nat)
    requires t < |shards| && StrictlyAscending(Flatten(shards))
    ensures StrictlyAscending(shards[t])
  {
    FlattenSlice(shards, t);
    forall i, j | 0 <= i < j < |shards[t]| ensures shards[t][i] < shards[t][j] {
      FlattenAt(shards, t, i);
      FlattenAt(shards, t, j);
    }
  }

  /** No two statistics of the shards share a hash. */
  lemma ShardHashesDiffer(all: seq<seq<nat>>, pts: seq<seq<Point>>, shards: seq<seq<nat>>, stats: seq<seq<PatternStat>>)
    requires SameShape(all, pts) && AllExact(all, pts, shards, stats) && StrictlyAscending(Flatten(shards))
    ensures forall r, q, x, y :: 0 <= r < q < |stats| && x in stats[r] && y in stats[q] ==> x.hash != y.hash
  {
    hide IsStat, Flatten, SameShape;
    forall r, q, x, y | 0 <= r < q < |stats| && x in stats[r] && y in stats[q] ensures x.hash != y.hash {
      assert ShardExact(all, pts, shards[r], stats[r]) && ShardExact(all, pts, shards[q], stats[q]);
      var i :| 0 <= i < |stats[r]| && stats[r][i] == x;
      var j :| 0 <= j < |stats[q]| && stats[q][j] == y;
      FlattenAt(shards, r, i);
      FlattenAt(shards, q, j);
      FlattenPrefix(shards, r);
      StartMonotone(shards, r + 1, q);
    }
  }

  lemma TopsDiffer(all: seq<seq<nat>>, pts: seq<seq<Point>>, shards: seq<seq<nat>>, stats: seq<seq<PatternStat>>,
                   sorted: seq<seq<PatternStat>>, tops: seq<seq<PatternStat>>, k: nat)
    requires SameShape(all, pts) && AllExact(all, pts, shards, stats) && StrictlyAscending(Flatten(shards))
    requires AreTops(stats, sorted, tops, k)
    ensures HashesDiffer(Flatten(tops))
  {
    hide IsStat, Flatten, SameShape, AllExact;
    ShardHashesDiffer(all, pts, shards, stats);
    var f := Flatten(tops);
    forall i, j | 0 <= i < j < |f| ensures f[i].hash != f[j].hash {
      var r, a := FlattenLocate(tops, i);
      var q, b := FlattenLocate(tops, j);
      TopIsStat(stats, sorted, tops, k, r, a);
      TopIsStat(stats, sorted, tops, k, q, b);
      if r == q {
        Positions(sorted[r], a, b);
        ShardDiffer(all, pts, shards, stats, r, f[i], f[j]);
      } else {
        assert r < q by { TopOrder(tops, r, a, q, b); }
      }
    }
  }

  lemma TopOrder<T>(tops: seq<seq<T>>, r: nat, a: nat, q: nat, b: nat)
    requires r < |tops| && q < |tops| && a < |tops[r]| && b < |tops[q]| && r != q
    requires Start(tops, r) + a < Start(tops, q) + b
    ensures r < q
  {
    if q < r {
      FlattenPrefix(tops, q);
      StartMonotone(tops, q + 1, r);
    }
  }

  lemma TopIsStat(stats: seq<seq<PatternStat>>, sorted: seq<seq<PatternStat>>, tops: seq<seq<PatternStat>>, k: nat, r: nat, a: nat)
    requires AreTops(stats, sorted, tops, k) && r < |tops| && a < |tops[r]|
    ensures a < |sorted[r]| && tops[r][a] == sorted[r][a] && tops[r][a] in stats[r] && StatsSorted(sorted[r])
  {
    assert sorted[r][a] in sorted[r];
  }

  lemma ShardDiffer(all: seq<seq<nat>>, pts: seq<seq<Point>>, shards: seq<seq<nat>>, stats: seq<seq<PatternStat>>, r: nat,
                    x: PatternStat, y: PatternStat)
    requires SameShape(all, pts) && AllExact(all, pts, shards, stats) && r < |stats| && x in stats[r] && y in stats[r] && x != y
    ensures x.hash != y.hash
  {
    hide IsStat;
    assert ShardExact(all, pts, shards[r], stats[r]);
    if x.hash == y.hash { StatDetermined(all, pts, x, y); }
  }

  // ----- the program -----------------------------------------------------------

  const MAX_CANDIDATES: nat := Kernels.INT32_MAX / 8

  datatype Outcome = Stats(top: seq<PatternStat>) | ShapeMismatch(rank: nat) | TooManyCandidates(total: nat)

  /** The k best statistics of the whole program, in output order. */
  ghost predicate IsTop(all: seq<seq<nat>>, pts: seq<seq<Point>>, k: nat, top: seq<PatternStat>)
    requires SameShape(all, pts)
  {
    exists list :: IsReference(all, pts, list) && top == list[..Min(k, |list|)]
  }

  /** The best k in plain words: counts fall and equal counts are ordered by hash, every entry
      is a statistic, and every statistic left out comes after every entry. */
  lemma TopInWords(all: seq<seq<nat>>, pts: seq<seq<Point>>, k: nat, top: seq<PatternStat>)
    requires SameShape(all, pts) && IsTop(all, pts, k, top)
    ensures |top| == if k < |GlobalHashes(all)| then k else |GlobalHashes(all)|
    ensures forall i, j :: 0 <= i < j < |top| ==>
      top[i].count > top[j].count || (top[i].count == top[j].count && top[i].hash < top[j].hash)
    ensures forall i :: 0 <= i < |top| ==> IsStat(all, pts, top[i])
    ensures forall st, i :: IsStat(all, pts, st) && st !in top && 0 <= i < |top| ==>
      top[i].count > st.count || (top[i].count == st.count && top[i].hash < st.hash)
  {
    hide IsStat, GlobalHashes;
    TopUnique(all, pts, k, top, top);
    var list :| IsReference(all, pts, list) && top == list[..Min(k, |list|)];
    forall i, j | 0 <= i < j < |list| ensures StatBefore(list[i], list[j]) {}
    forall i | 0 <= i < |top| ensures IsStat(all, pts, top[i]) { assert list[i] in list; }
    forall st, i | IsStat(all, pts, st) && st !in top && 0 <= i < |top| ensures StatBefore(top[i], st) {
      var j :| 0 <= j < |list| && list[j] == st;
      assert forall q :: 0 <= q < |top| ==> top[q] == list[q];
      assert j >= |top|;
    }
  }

  method ShardTops(shards: seq<seq<nat>>, stats: seq<seq<PatternStat>>, k: nat, ghost all: seq<seq<nat>>, ghost pts: seq<seq<Point>>)
    returns (tops: seq<seq<PatternStat>>, ghost sorted: seq<seq<PatternStat>>)
    requires SameShape(all, pts) && AllExact(all, pts, shards, stats) && StrictlyAscending(Flatten(shards)) && |all| <= U64_MAX
    ensures AreTops(stats, sorted, tops, k)
    ensures |tops| == |shards| && forall t :: 0 <= t < |shards| ==> |tops[t]| == Min(k, |shards[t]|)
  {
    hide Flatten, SameShape, IsRep, StrictlyAscending, StatsSorted;
    tops, sorted := [], [];
    for t := 0 to |stats|
      invariant |tops| == |sorted| == t && AreTops(stats[..t], sorted, tops, k)
      invariant forall q :: 0 <= q < t ==> |tops[q]| == Min(k, |shards[q]|)
    {
      TopReady(all, pts, shards, stats, t);
      var top := ShardTop(stats[t], k);
      assert ShardExact(all, pts, shards[t], stats[t]);
      tops, sorted := tops + [top], sorted + [SortStats(stats[t])];
    }
    assert stats[..|stats|] == stats;
  }

  lemma TopReady(all: seq<seq<nat>>, pts: seq<seq<Point>>, shards: seq<seq<nat>>, stats: seq<seq<PatternStat>>, t: nat)
    requires SameShape(all, pts) && AllExact(all, pts, shards, stats) && StrictlyAscending(Flatten(shards)) && |all| <= U64_MAX
    requires t < |stats|
    ensures forall i :: 0 <= i < |stats[t]| ==> stats[t][i].count <= U64_MAX
    ensures forall i, j :: 0 <= i < j < |stats[t]| ==> stats[t][i].hash < stats[t][j].hash
  {
    hide Flatten, SameShape, IsRep;
    ShardAscends(shards, t);
    assert ShardExact(all, pts, shards[t], stats[t]);
    forall i | 0 <= i < |stats[t]| ensures stats[t][i].count <= U64_MAX {
      CountBounded(all, stats[t][i].hash);
    }
  }

  /** Every rank merges the same candidates into the same best k. */
  method MergeTops(shards: seq<seq<nat>>, stats: seq<seq<PatternStat>>, k: nat, ghost all: seq<seq<nat>>, ghost pts: seq<seq<Point>>)
    returns (outcome: Outcome)
    requires SameShape(all, pts) && AllExact(all, pts, shards, stats) && Flatten(shards) == GlobalHashes(all) && |all| <= U64_MAX
    ensures MergeOutcome(all, pts, shards, k, outcome)
  {
    hide AllExact, IsStat, GlobalHashes, AreTops, IsTop, SameShape;
    var tops, sorted := ShardTops(shards, stats, k, all, pts);
    var candidates := Flatten(tops);
    CandidateCount(shards, tops, k);
    if |candidates| > MAX_CANDIDATES {
      return TooManyCandidates(|candidates|);
    }
    TopsDiffer(all, pts, shards, stats, sorted, tops, k);
    var merged := SortStats(candidates);
    MergedIsTop(all, pts, shards, stats, sorted, tops, k, merged);
    outcome := Stats(merged[..Min(k, |merged|)]);
  }

  /** How many candidates the shards offer. */
  ghost function Offered(shards: seq<seq<nat>>, k: nat): nat {
    if shards == [] then 0 else Offered(shards[..|shards| - 1], k) + Min(k, |shards[|shards| - 1]|)
  }

  /** The shards offer at most k entries per rank, and at most all hashes. */
  lemma {:induction false} OfferedBound(shards: seq<seq<nat>>, k: nat)
    ensures Offered(shards, k) <= k * |shards| && Offered(shards, k) <= |Flatten(shards)|
  {
    if shards != [] {
      var n := |shards| - 1;
      OfferedBound(shards[..n], k);
      assert k * (n + 1) == k * n + k;
    }
  }

  /** What each shard offers. */
  ghost function Offers(shards: seq<seq<nat>>, k: nat): (o: seq<int>)
    ensures |o| == |shards| && forall t :: 0 <= t < |o| ==> o[t] == if k < |shards[t]| then k else |shards[t]|
  {
    seq(|shards|, t requires 0 <= t < |shards| => Min(k, |shards[t]|))
  }

  lemma {:induction false} OfferedIsSum(shards: seq<seq<nat>>, k: nat)
    ensures Offered(shards, k) == Sum(Offers(shards, k))
  {
    if shards != [] {
      var n := |shards| - 1;
      OfferedIsSum(shards[..n], k);
      assert Offers(shards, k)[..n] == Offers(shards[..n], k);
    }
  }

  /** Success and refusal, decided by the number of candidates alone. */
  ghost predicate MergeOutcome(all: seq<seq<nat>>, pts: seq<seq<Point>>, shards: seq<seq<nat>>, k: nat, outcome: Outcome)
    requires SameShape(all, pts)
  {
    if Offered(shards, k) > MAX_CANDIDATES then outcome == TooManyCandidates(Offered(shards, k))
    else outcome.Stats? && IsTop(all, pts, k, outcome.top)
  }

  lemma {:induction false} CandidateCount(shards: seq<seq<nat>>, tops: seq<seq<PatternStat>>, k: nat)
    requires |shards| == |tops| && forall t :: 0 <= t < |shards| ==> |tops[t]| == Min(k, |shards[t]|)
    ensures |Flatten(tops)| == Offered(shards, k)
  {
    if shards != [] { CandidateCount(shards[..|shards| - 1], tops[..|shards| - 1], k); }
  }

  lemma MergedIsTop(all: seq<seq<nat>>, pts: seq<seq<Point>>, shards: seq<seq<nat>>, stats: seq<seq<PatternStat>>,
                    sorted: seq<seq<PatternStat>>, tops: seq<seq<PatternStat>>, k: nat, merged: seq<PatternStat>)
    requires SameShape(all, pts) && AllExact(all, pts, shards, stats) && Flatten(shards) == GlobalHashes(all)
    requires AreTops(stats, sorted, tops, k) && StatsSorted(merged) && forall x :: x in merged <==> x in Flatten(tops)
    ensures IsTop(all, pts, k, merged[..Min(k, |merged|)])
  {
    hide AllExact, IsStat, GlobalHashes, AreTops, SameShape, StatsSorted, HashesDiffer, Flatten;
    var n := WholeTops(stats, sorted, tops, k);
    TopsDiffer(all, pts, shards, stats, sorted, sorted, n);
    var list := SortStats(Flatten(sorted));
    forall st ensures st in list <==> IsStat(all, pts, st) {
      ShardsTogether(all, pts, shards, stats, st);
      SameEntries(stats, sorted, tops, k, st);
    }
    forall x ensures x in list <==> x in Flatten(stats) { SameEntries(stats, sorted, tops, k, x); }
    MergeIsExact(stats, sorted, tops, k, list, merged);
    assert IsReference(all, pts, list);
  }

  /** Keeping everything is keeping the best n for a large enough n. */
  lemma WholeTops(stats: seq<seq<PatternStat>>, sorted: seq<seq<PatternStat>>, tops: seq<seq<PatternStat>>, k: nat) returns (n: nat)
    requires AreTops(stats, sorted, tops, k)
    ensures AreTops(stats, sorted, sorted, n)
  {
    hide Flatten;
    n := |Flatten(sorted)|;
    forall r | 0 <= r < |sorted| ensures sorted[r] == sorted[r][..Min(n, |sorted[r]|)] { FlattenSlice(sorted, r); }
  }

  lemma SameEntries(stats: seq<seq<PatternStat>>, sorted: seq<seq<PatternStat>>, tops: seq<seq<PatternStat>>, k: nat, x: PatternStat)
    requires AreTops(stats, sorted, tops, k)
    ensures x in Flatten(sorted) <==> x in Flatten(stats)
  {
    hide Flatten, StatsSorted;
    InFlatten(sorted, x);
    InFlatten(stats, x);
  }

  /** There is only one best-k list, so all ranks report the same. */
  lemma TopUnique(all: seq<seq<nat>>, pts: seq<seq<Point>>, k: nat, a: seq<PatternStat>, b: seq<PatternStat>)
    requires SameShape(all, pts) && IsTop(all, pts, k, a) && IsTop(all, pts, k, b)
    ensures a == b && |a| == Min(k, |GlobalHashes(all)|)
  {
    hide IsReference, GlobalHashes;
    var l :| IsReference(all, pts, l) && a == l[..Min(k, |l|)];
    var m :| IsReference(all, pts, m) && b == m[..Min(k, |m|)];
    ReferenceUnique(all, pts, l, m);
    ReferenceSize(all, pts, l);
  }

  /** The facade's shape check, on one rank. */
  method CheckShape(patches: seq<seq<nat>>, coords: seq<seq<Point>>) returns (ok: bool)
    ensures ok <==> SameShape(patches, coords)
  {
    if |coords| != |patches| { return false; }
    for p := 0 to |patches|
      invariant forall q :: 0 <= q < p ==> |coords[q]| == |patches[q]|
    {
      if |coords[p]| != |patches[p]| { return false; }
    }
    ok := true;
  }

  lemma HashesKnown(raw: seq<seq<seq<nat>>>, r: nat)
    requires r < |raw|
    ensures Known(GlobalHashes(Flatten(raw)), raw[r])
  {
    hide GlobalHashes, Flatten;
    forall h | h in Flatten(raw[r]) ensures h in GlobalHashes(Flatten(raw)) {
      InFlatten(raw[r], h);
      var p :| 0 <= p < |raw[r]| && h in raw[r][p];
      HashKnown(raw, r, p, h);
    }
  }

  method SummariseAll(raw: seq<seq<seq<nat>>>, coords: seq<seq<seq<Point>>>, outs: seq<IdMappedPatches>) returns (locals: seq<Local>)
    requires RanksShaped(raw, coords) && IsMapped(raw, outs)
    ensures LocalsExact(GlobalHashes(Flatten(raw)), raw, coords, locals)
  {
    hide GlobalHashes, Flatten, IsLocal, Translate;
    locals := [];
    for r := 0 to |raw|
      invariant |locals| == r
      invariant forall q :: 0 <= q < r ==> IsLocal(GlobalHashes(Flatten(raw)), raw[q], coords[q], locals[q])
    {
      HashesKnown(raw, r);
      var l := Summarise(raw[r], coords[r], outs[r].idPatches, GlobalHashes(Flatten(raw)));
      locals := locals + [l];
    }
  }

  lemma LocalsSendable(global: seq<nat>, raw: seq<seq<seq<nat>>>, coords: seq<seq<seq<Point>>>, locals: seq<Local>, inner: seq<nat>)
    requires RanksShaped(raw, coords) && LocalsExact(global, raw, coords, locals)
    requires Ascending(inner) && |inner| + 1 == |raw|
    ensures Sendable(locals, inner)
  {
    hide EntryExact;
    forall r | 0 <= r < |locals| ensures Paired(locals[r]) && StrictlyAscending(locals[r].keys) {
      assert IsLocal(global, raw[r], coords[r], locals[r]);
    }
  }

  /** The gathered shard starts, from the second rank on. */
  method GatherStarts(raw: seq<seq<seq<nat>>>, outs: seq<IdMappedPatches>) returns (inner: seq<nat>)
    requires IsMapped(raw, outs) && |outs| > 0
    ensures inner == InnerStarts(Shards(outs)) && Ascending(inner)
  {
    inner := seq(|outs| - 1, i requires 0 <= i < |outs| - 1 => outs[i + 1].shardStart);
    InnerStartsAscend(Shards(outs));
  }

  lemma MappedShards(raw: seq<seq<seq<nat>>>, outs: seq<IdMappedPatches>)
    requires IsMapped(raw, outs)
    ensures |Shards(outs)| == |raw| && Flatten(Shards(outs)) == GlobalHashes(Flatten(raw))
  {
  }

  /** The whole program, for any number of ranks and any k: it refuses ill-shaped input or too
      many candidates, and otherwise reports the k best of the one-process statistics. */
  method PatternStatistics(raw: seq<seq<seq<nat>>>, coords: seq<seq<seq<Point>>>, k: nat)
    returns (outcome: Outcome, ghost shards: seq<seq<nat>>)
    requires |raw| > 0 && |coords| == |raw| && |Flatten(raw)| < 0x1_0000_0000_0000_0000
    ensures outcome.ShapeMismatch? <==> !RanksShaped(raw, coords)
    ensures outcome.ShapeMismatch? ==>
      && outcome.rank < |raw| && !SameShape(raw[outcome.rank], coords[outcome.rank])
      && forall q :: 0 <= q < outcome.rank ==> SameShape(raw[q], coords[q])
    ensures RanksShaped(raw, coords) ==>
      && SameShape(Flatten(raw), Flatten(coords))
      && |shards| == |raw| && Flatten(shards) == GlobalHashes(Flatten(raw))
      && MergeOutcome(Flatten(raw), Flatten(coords), shards, k, outcome)
    ensures RanksShaped(raw, coords) && (k * |raw| <= 268435455 || |GlobalHashes(Flatten(raw))| <= 268435455) ==> outcome.Stats?
    ensures outcome.TooManyCandidates? <==> RanksShaped(raw, coords) && Sum(Offers(shards, k)) > 268435455
    ensures outcome.TooManyCandidates? ==> outcome.total == Sum(Offers(shards, k))
    ensures outcome.TooManyCandidates? ==>
      268435455 < outcome.total <= k * |raw| && outcome.total <= |GlobalHashes(Flatten(raw))|
    ensures outcome.Stats? ==>
      |outcome.top| == if k < |GlobalHashes(Flatten(raw))| then k else |GlobalHashes(Flatten(raw))|
    ensures outcome.Stats? ==> forall i, j :: 0 <= i < j < |outcome.top| ==>
      || outcome.top[i].count > outcome.top[j].count
      || (outcome.top[i].count == outcome.top[j].count && outcome.top[i].hash < outcome.top[j].hash)
    ensures outcome.Stats? ==> forall i :: 0 <= i < |outcome.top| ==> IsStat(Flatten(raw), Flatten(coords), outcome.top[i])
    ensures outcome.Stats? ==> forall st, i :: IsStat(Flatten(raw), Flatten(coords), st) && st !in outcome.top && 0 <= i < |outcome.top| ==>
      || outcome.top[i].count > st.count
      || (outcome.top[i].count == st.count && outcome.top[i].hash < st.hash)
  {
    hide GlobalHashes, Flatten, IsMapped, SameShape, LocalsExact, Sendable, Delivered, AllExact;
    shards := [];
    for r := 0 to |raw|
      invariant forall q :: 0 <= q < r ==> SameShape(raw[q], coords[q])
    {
      var ok := CheckShape(raw[r], coords[r]);
      if !ok { return ShapeMismatch(r), shards; }
    }
    FlatShaped(raw, coords);
    var outs := SampleSort.MapHashesToElementIds(raw);
    MappedShards(raw, outs);
    shards := Shards(outs);
    var locals := SummariseAll(raw, coords, outs);
    var inner := GatherStarts(raw, outs);
    LocalsSendable(GlobalHashes(Flatten(raw)), raw, coords, locals, inner);
    var ids, degrees, reps := ExchangeEntries(locals, inner);
    ghost var arrivals := Arriving(locals, inner);
    ExchangeDone(raw, coords, locals, shards, arrivals);
    var stats := AllShardStats(ids, degrees, reps, Shards(outs), raw, coords, locals, arrivals);
    outcome := MergeTops(Shards(outs), stats, k, Flatten(raw), Flatten(coords));
    OfferedBound(shards, k);
    OfferedIsSum(shards, k);
    if outcome.Stats? { TopInWords(Flatten(raw), Flatten(coords), k, outcome.top); }
  }

  lemma ExchangeDone(raw: seq<seq<seq<nat>>>, coords: seq<seq<seq<Point>>>, locals: seq<Local>,
                     shards: seq<seq<nat>>, arrivals: seq<seq<Entry>>)
    requires |raw| > 0 && |shards| == |raw| && |Flatten(raw)| <= U64_MAX
    requires RanksShaped(raw, coords) && SameShape(Flatten(raw), Flatten(coords))
    requires Flatten(shards) == GlobalHashes(Flatten(raw)) && LocalsExact(GlobalHashes(Flatten(raw)), raw, coords, locals)
    requires Sendable(locals, InnerStarts(shards)) && Delivered(locals, InnerStarts(shards), arrivals)
    ensures Routed(raw, coords, locals, shards, arrivals)
  {
  }
}
