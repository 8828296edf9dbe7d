/** The distributed translation of hashes into dense element IDs. */
module PatchSet {
  import opened Sequences
  import opened Collectives
  import opened Routing

  datatype IdMappedPatches = IdMappedPatches(idPatches: seq<seq<nat>>, n: nat, shardHashes: seq<nat>, shardStart: nat)

  // ----- the reference: one process sees everything ----------------------------

  /** All distinct hashes of all patches, ascending. */
  function GlobalHashes(patches: seq<seq<nat>>): (g: seq<nat>)
    ensures StrictlyAscending(g)
  {
    SortUnique(Flatten(patches))
  }

  /** A hash's ID is its index in the sorted list of distinct hashes. */
  function IdOf(global: seq<nat>, h: nat): nat
    requires StrictlyAscending(global)
  {
    LowerBound(global, h)
  }

  function TranslatePatch(global: seq<nat>, patch: seq<nat>): (ids: seq<nat>)
    requires StrictlyAscending(global)
    ensures StrictlyAscending(ids)
  {
    SortUnique(Each(h => IdOf(global, h), patch))
  }

  function Translate(global: seq<nat>, patches: seq<seq<nat>>): (ids: seq<seq<nat>>)
    requires StrictlyAscending(global)
    ensures |ids| == |patches| && forall p :: 0 <= p < |patches| ==> ids[p] == TranslatePatch(global, patches[p])
  {
    seq(|patches|, p requires 0 <= p < |patches| => TranslatePatch(global, patches[p]))
  }

  /** Distinct hashes get distinct IDs below the number of hashes, in hash order. */
  lemma IdIsIndex(global: seq<nat>, h: nat)
    requires StrictlyAscending(global) && h in global
    ensures IdOf(global, h) < |global| && global[IdOf(global, h)] == h
  {
    var i :| 0 <= i < |global| && global[i] == h;
    LowerBoundFinds(global, i);
  }

  lemma TranslateMember(global: seq<nat>, patch: seq<nat>, e: nat)
    requires StrictlyAscending(global) && forall h :: h in patch ==> h in global
    ensures e in TranslatePatch(global, patch) <==> e < |global| && global[e] in patch
  {
    var ids := Each(h => IdOf(global, h), patch);
    assert e in TranslatePatch(global, patch) <==> e in ids;
    if e in ids {
      var i :| 0 <= i < |ids| && ids[i] == e;
      assert patch[i] in patch;
      IdIsIndex(global, patch[i]);
    }
    if e < |global| && global[e] in patch {
      var i :| 0 <= i < |patch| && patch[i] == global[e];
      LowerBoundFinds(global, e);
      assert ids[i] == e;
    }
  }

  // ----- routing by splitters --------------------------------------------------

  /** The rank a hash is sent to: how many splitters are not above it. */
  function TargetRank(h: nat, splitters: seq<nat>): (t: nat)
    requires Ascending(splitters)
    ensures t <= |splitters|
  {
    UpperBound(splitters, h)
  }

  /** Larger hashes never go to smaller ranks. */
  lemma TargetMonotone(a: nat, b: nat, splitters: seq<nat>)
    requires Ascending(splitters) && a <= b
    ensures TargetRank(a, splitters) <= TargetRank(b, splitters)
  {
    var t := TargetRank(b, splitters);
    assert t < |splitters| ==> splitters[t] > b;
  }

  lemma {:induction false} FlattenAscends(ss: seq<seq<nat>>)
    requires forall r :: 0 <= r < |ss| ==> StrictlyAscending(ss[r])
    requires forall q, r, x, y :: 0 <= q < r < |ss| && x in ss[q] && y in ss[r] ==> x < y
    ensures StrictlyAscending(Flatten(ss))
  {
    if ss != [] {
      var n := |ss| - 1;
      var init := Flatten(ss[..n]);
      FlattenAscends(ss[..n]);
      forall i, j | 0 <= i < |init| && 0 <= j < |ss[n]| ensures init[i] < ss[n][j] {
        var r, k := FlattenLocate(ss[..n], i);
        assert ss[r][k] in ss[r] && ss[n][j] in ss[n];
      }
    }
  }

  // ----- what every rank ends up with ------------------------------------------

  function Shards(outs: seq<IdMappedPatches>): (ss: seq<seq<nat>>)
    ensures |ss| == |outs| && forall r :: 0 <= r < |outs| ==> ss[r] == outs[r].shardHashes
  {
    seq(|outs|, r requires 0 <= r < |outs| => outs[r].shardHashes)
  }

  /** The distributed result is the one-process result: shards in rank order are the global
      list, each starts where the previous ones end, and every patch is translated by it. */
  ghost predicate IsMapped(raw: seq<seq<seq<nat>>>, outs: seq<IdMappedPatches>) {
    var global := GlobalHashes(Flatten(raw));
    && |outs| == |raw|
    && Flatten(Shards(outs)) == global
    && forall r :: 0 <= r < |outs| ==>
         && outs[r].n == |global|
         && outs[r].shardStart == Start(Shards(outs), r)
         && outs[r].idPatches == Translate(global, raw[r])
  }

  lemma HashKnown(raw: seq<seq<seq<nat>>>, r: nat, p: nat, h: nat)
    requires r < |raw| && p < |raw[r]| && h in raw[r][p]
    ensures h in GlobalHashes(Flatten(raw))
  {
    FlattenAt(raw, r, p);
    var s := Start(raw, r) + p;
    assert Flatten(raw)[s] == raw[r][p];
    InFlatten(Flatten(raw), h);
  }

  lemma HashSource(raw: seq<seq<seq<nat>>>, h: nat) returns (r: nat, p: nat)
    requires h in GlobalHashes(Flatten(raw))
    ensures r < |raw| && p < |raw[r]| && h in raw[r][p]
  {
    InFlatten(Flatten(raw), h);
    var s :| 0 <= s < |Flatten(raw)| && h in Flatten(raw)[s];
    r, p := FlattenLocate(raw, s);
  }

  /** Step 1: this rank's distinct hashes, ascending. */
  method LocalUnique(patches: seq<seq<nat>>) returns (uniq: seq<nat>)
    ensures uniq == GlobalHashes(patches)
  {
    var flat := [];
    assert patches[..0] == [];
    for p := 0 to |patches|
      invariant flat == Flatten(patches[..p])
    {
      FlattenPrefix(patches, p);
      flat := flat + patches[p];
    }
    assert patches[..|patches|] == patches;
    uniq := SortUnique(flat);
  }

  /** Step 2: one segment of hashes per target rank. */
  method RouteHashes(uniq: seq<nat>, splitters: seq<nat>, size: nat) returns (counts: seq<nat>, buf: seq<nat>)
    requires Ascending(splitters) && |splitters| + 1 == size
    ensures counts == Lengths(Buckets(uniq, Targets(uniq, splitters), size))
    ensures buf == Flatten(Buckets(uniq, Targets(uniq, splitters), size))
  {
    counts, buf := RouteByTarget(uniq, Targets(uniq, splitters), size);
  }

  function Targets(uniq: seq<nat>, splitters: seq<nat>): (t: seq<nat>)
    requires Ascending(splitters)
    ensures |t| == |uniq| && forall i :: 0 <= i < |uniq| ==> t[i] == TargetRank(uniq[i], splitters) <= |splitters|
  {
    seq(|uniq|, i requires 0 <= i < |uniq| => TargetRank(uniq[i], splitters))
  }

  /** Step 8: an ID for every arrival slot, in arrival order. */
  method AnswerSlots(recv: seq<nat>, bucket: seq<nat>, start: nat) returns (response: seq<nat>)
    requires StrictlyAscending(bucket)
    ensures |response| == |recv| && forall i :: 0 <= i < |recv| ==> response[i] == start + LowerBound(bucket, recv[i])
  {
    response := [];
    for i := 0 to |recv|
      invariant |response| == i
      invariant forall j :: 0 <= j < i ==> response[j] == start + LowerBound(bucket, recv[j])
    {
      response := response + [start + LowerBound(bucket, recv[i])];
    }
  }

  /** Steps 10 and 11: the hash-to-ID map from the paired buffers, and the translation
      through it; the lookup never misses. */
  method TranslateThrough(patches: seq<seq<nat>>, buf: seq<nat>, back: seq<nat>, ghost global: seq<nat>) returns (ids: seq<seq<nat>>)
    requires StrictlyAscending(global)
    requires back == Each(h => IdOf(global, h), buf)
    requires forall p, h :: 0 <= p < |patches| && h in patches[p] ==> h in buf
    ensures ids == Translate(global, patches)
  {
    var hashToId: map<nat, nat> := map[];
    for i := 0 to |buf|
      invariant forall h :: h in hashToId ==> hashToId[h] == IdOf(global, h)
      invariant forall j :: 0 <= j < i ==> buf[j] in hashToId
    {
      if buf[i] !in hashToId { hashToId := hashToId[buf[i] := back[i]]; }
    }
    forall h | h in buf ensures h in hashToId {
      var j :| 0 <= j < |buf| && buf[j] == h;
    }
    ids := [];
    for p := 0 to |patches|
      invariant |ids| == p && forall q :: 0 <= q < p ==> ids[q] == TranslatePatch(global, patches[q])
    {
      var dst := [];
      for i := 0 to |patches[p]|
        invariant |dst| == i && forall j :: 0 <= j < i ==> dst[j] == IdOf(global, patches[p][j])
      {
        assert patches[p][i] in patches[p];
        dst := dst + [hashToId[patches[p][i]]];
      }
      assert dst == Each(h => IdOf(global, h), patches[p]);
      ids := ids + [SortUnique(dst)];
    }
  }

  // ----- the exchange ----------------------------------------------------------

  /** What is known once every rank has packed its send buffer. */
  ghost predicate AllPacked(raw: seq<seq<seq<nat>>>, splitters: seq<nat>, bufs: seq<seq<nat>>, counts: seq<seq<nat>>)
    requires Ascending(splitters)
  {
    && |bufs| == |counts| == |raw| == |splitters| + 1
    && forall r :: 0 <= r < |raw| ==>
         var uniq := GlobalHashes(raw[r]);
         && counts[r] == Lengths(Buckets(uniq, Targets(uniq, splitters), |raw|))
         && bufs[r] == Flatten(Buckets(uniq, Targets(uniq, splitters), |raw|))
  }

  ghost function Uniqs(raw: seq<seq<seq<nat>>>): (u: seq<seq<nat>>)
    ensures |u| == |raw| && forall r :: 0 <= r < |raw| ==> u[r] == GlobalHashes(raw[r])
  {
    seq(|raw|, r requires 0 <= r < |raw| => GlobalHashes(raw[r]))
  }

  ghost function AllTargets(raw: seq<seq<seq<nat>>>, splitters: seq<nat>): (t: seq<seq<nat>>)
    requires Ascending(splitters)
    ensures |t| == |raw| && forall r :: 0 <= r < |raw| ==> t[r] == Targets(GlobalHashes(raw[r]), splitters)
  {
    seq(|raw|, r requires 0 <= r < |raw| => Targets(GlobalHashes(raw[r]), splitters))
  }

  /** The one way to pack: what AllPacked leaves no choice about. */
  ghost function PackedCounts(raw: seq<seq<seq<nat>>>, splitters: seq<nat>): (c: seq<seq<nat>>)
    requires Ascending(splitters)
    ensures |c| == |raw|
    ensures forall r :: 0 <= r < |raw| ==> c[r] == Lengths(Buckets(Uniqs(raw)[r], AllTargets(raw, splitters)[r], |raw|))
  {
    seq(|raw|, r requires 0 <= r < |raw| => Lengths(Buckets(Uniqs(raw)[r], AllTargets(raw, splitters)[r], |raw|)))
  }

  ghost function PackedBufs(raw: seq<seq<seq<nat>>>, splitters: seq<nat>): (b: seq<seq<nat>>)
    requires Ascending(splitters)
    ensures |b| == |raw|
    ensures forall r :: 0 <= r < |raw| ==> b[r] == Flatten(Buckets(Uniqs(raw)[r], AllTargets(raw, splitters)[r], |raw|))
  {
    seq(|raw|, r requires 0 <= r < |raw| => Flatten(Buckets(Uniqs(raw)[r], AllTargets(raw, splitters)[r], |raw|)))
  }

  lemma PackedExchange(raw: seq<seq<seq<nat>>>, splitters: seq<nat>, bufs: seq<seq<nat>>, counts: seq<seq<nat>>)
    requires Ascending(splitters) && AllPacked(raw, splitters, bufs, counts)
    ensures Exchangeable(bufs, counts)
    ensures forall t, r :: 0 <= t < |raw| && 0 <= r < |raw| ==>
      Column(bufs, counts, t)[r] == Bucket(Uniqs(raw)[r], AllTargets(raw, splitters)[r], t)
  {
    RoutedExchange(Uniqs(raw), AllTargets(raw, splitters), bufs, counts);
  }

  /** What reaches rank t was some rank's hash, and is bound for t. */
  lemma ReceivedFrom(raw: seq<seq<seq<nat>>>, splitters: seq<nat>, r: nat, i: nat)
    requires Ascending(splitters) && r < |raw| && i < |Uniqs(raw)[r]|
    ensures Uniqs(raw)[r][i] in GlobalHashes(Flatten(raw))
    ensures AllTargets(raw, splitters)[r][i] == TargetRank(Uniqs(raw)[r][i], splitters)
  {
    hide TargetRank;
    var h := Uniqs(raw)[r][i];
    assert h in GlobalHashes(raw[r]);
    InFlatten(raw[r], h);
    var p :| 0 <= p < |raw[r]| && h in raw[r][p];
    HashKnown(raw, r, p, h);
  }

  lemma SentBy(raw: seq<seq<seq<nat>>>, h: nat) returns (r: nat, i: nat)
    requires h in GlobalHashes(Flatten(raw))
    ensures r < |raw| && i < |Uniqs(raw)[r]| && Uniqs(raw)[r][i] == h
  {
    var p;
    r, p := HashSource(raw, h);
    InFlatten(raw[r], h);
    assert h in Uniqs(raw)[r];
    i :| 0 <= i < |Uniqs(raw)[r]| && Uniqs(raw)[r][i] == h;
  }

  /** Rank t receives exactly the hashes, from any rank, whose target is t. */
  lemma ReceivedHashes(raw: seq<seq<seq<nat>>>, splitters: seq<nat>, bufs: seq<seq<nat>>, counts: seq<seq<nat>>, t: nat, h: nat)
    requires Ascending(splitters) && AllPacked(raw, splitters, bufs, counts) && t < |raw| && Exchangeable(bufs, counts)
    ensures h in Alltoallv(bufs, counts)[t] <==> h in GlobalHashes(Flatten(raw)) && TargetRank(h, splitters) == t
  {
    var uniqs, targets := Uniqs(raw), AllTargets(raw, splitters);
    PackedExchange(raw, splitters, bufs, counts);
    hide GlobalHashes, TargetRank, Alltoallv, Flatten;
    ReceivedMember(uniqs, targets, bufs, counts, t, h);
    if h in Alltoallv(bufs, counts)[t] {
      var r, i :| 0 <= r < |uniqs| && 0 <= i < |uniqs[r]| && uniqs[r][i] == h && targets[r][i] == t;
      ReceivedFrom(raw, splitters, r, i);
    }
    if h in GlobalHashes(Flatten(raw)) && TargetRank(h, splitters) == t {
      var r, i := SentBy(raw, h);
      ReceivedFrom(raw, splitters, r, i);
    }
  }

  ghost predicate AreBuckets(buckets: seq<seq<nat>>, recv: seq<seq<nat>>) {
    && |buckets| == |recv|
    && forall t :: 0 <= t < |recv| ==> buckets[t] == SortUnique(recv[t])
  }

  /** Shards concatenated in rank order are the globally sorted list of distinct hashes. */
  lemma BucketsAreGlobal(raw: seq<seq<seq<nat>>>, splitters: seq<nat>, bufs: seq<seq<nat>>, counts: seq<seq<nat>>,
                         buckets: seq<seq<nat>>)
    requires Ascending(splitters) && AllPacked(raw, splitters, bufs, counts) && Exchangeable(bufs, counts)
    requires AreBuckets(buckets, Alltoallv(bufs, counts))
    ensures Flatten(buckets) == GlobalHashes(Flatten(raw))
  {
    hide AllPacked, GlobalHashes, TargetRank, Alltoallv, AreBuckets, Exchangeable, StrictlyAscending, Ascending, Flatten;
    PackedRanks(raw, splitters, bufs, counts);
    var global := GlobalHashes(Flatten(raw));
    BucketsSorted(buckets, Alltoallv(bufs, counts));
    forall t, h: nat | 0 <= t < |buckets| ensures h in buckets[t] <==> h in global && TargetRank(h, splitters) == t {
      BucketHolds(raw, splitters, bufs, counts, buckets, t, h);
    }
    SplitIsGlobal(buckets, global, splitters);
  }

  lemma BucketsSorted(buckets: seq<seq<nat>>, recv: seq<seq<nat>>)
    requires AreBuckets(buckets, recv)
    ensures |buckets| == |recv| && forall t :: 0 <= t < |buckets| ==> StrictlyAscending(buckets[t])
  {
  }

  lemma BucketHolds(raw: seq<seq<seq<nat>>>, splitters: seq<nat>, bufs: seq<seq<nat>>, counts: seq<seq<nat>>,
                    buckets: seq<seq<nat>>, t: nat, h: nat)
    requires Ascending(splitters) && AllPacked(raw, splitters, bufs, counts) && Exchangeable(bufs, counts)
    requires AreBuckets(buckets, Alltoallv(bufs, counts)) && t < |buckets|
    ensures h in buckets[t] <==> h in GlobalHashes(Flatten(raw)) && TargetRank(h, splitters) == t
  {
    hide GlobalHashes, TargetRank, Alltoallv;
    ReceivedHashes(raw, splitters, bufs, counts, t, h);
  }

  lemma PackedRanks(raw: seq<seq<seq<nat>>>, splitters: seq<nat>, bufs: seq<seq<nat>>, counts: seq<seq<nat>>)
    requires Ascending(splitters) && AllPacked(raw, splitters, bufs, counts)
    ensures |raw| == |splitters| + 1 && |bufs| == |counts| == |raw|
    ensures forall h: nat :: TargetRank(h, splitters) < |raw|
  {
  }

  /** Buckets cut out of a sorted list by target rank concatenate back to the list. */
  lemma SplitIsGlobal(buckets: seq<seq<nat>>, global: seq<nat>, splitters: seq<nat>)
    requires Ascending(splitters) && StrictlyAscending(global)
    requires forall h: nat :: TargetRank(h, splitters) < |buckets|
    requires forall t :: 0 <= t < |buckets| ==> StrictlyAscending(buckets[t])
    requires forall t, h: nat :: 0 <= t < |buckets| ==> (h in buckets[t] <==> h in global && TargetRank(h, splitters) == t)
    ensures Flatten(buckets) == global
  {
    hide TargetRank, StrictlyAscending;
    forall q, r, x: nat, y: nat | 0 <= q < r < |buckets| && x in buckets[q] && y in buckets[r] ensures x < y {
      assert TargetRank(x, splitters) == q && TargetRank(y, splitters) == r;
      if y <= x { TargetMonotone(y, x, splitters); }
    }
    FlattenAscends(buckets);
    forall h: nat ensures h in Flatten(buckets) <==> h in global {
      SplitMember(buckets, global, splitters, h);
    }
    SameElements(Flatten(buckets), global);
  }

  lemma SplitMember(buckets: seq<seq<nat>>, global: seq<nat>, splitters: seq<nat>, h: nat)
    requires Ascending(splitters) && TargetRank(h, splitters) < |buckets|
    requires forall t :: 0 <= t < |buckets| ==> (h in buckets[t] <==> h in global && TargetRank(h, splitters) == t)
    ensures h in Flatten(buckets) <==> h in global
  {
    hide TargetRank;
    InFlatten(buckets, h);
    if h in global { assert h in buckets[TargetRank(h, splitters)]; }
  }

  /** The owner's answer, start of its shard plus the index inside it, is the global index. */
  lemma AnswerIsGlobal(buckets: seq<seq<nat>>, global: seq<nat>, t: nat, h: nat)
    requires StrictlyAscending(global) && Flatten(buckets) == global && t < |buckets|
    requires StrictlyAscending(buckets[t]) && h in buckets[t]
    ensures Start(buckets, t) + LowerBound(buckets[t], h) == IdOf(global, h)
  {
    var j :| 0 <= j < |buckets[t]| && buckets[t][j] == h;
    LowerBoundFinds(buckets[t], j);
    FlattenAt(buckets, t, j);
    LowerBoundFinds(global, Start(buckets, t) + j);
  }

  // ----- all ranks -------------------------------------------------------------

  method PackAll(raw: seq<seq<seq<nat>>>, uniqs: seq<seq<nat>>, splitters: seq<nat>)
    returns (bufs: seq<seq<nat>>, counts: seq<seq<nat>>)
    requires Ascending(splitters) && |raw| == |splitters| + 1 && uniqs == Uniqs(raw)
    ensures AllPacked(raw, splitters, bufs, counts)
  {
    bufs, counts := [], [];
    for r := 0 to |raw|
      invariant |bufs| == |counts| == r
      invariant forall q :: 0 <= q < r ==>
        counts[q] == Lengths(Buckets(uniqs[q], Targets(uniqs[q], splitters), |raw|))
        && bufs[q] == Flatten(Buckets(uniqs[q], Targets(uniqs[q], splitters), |raw|))
    {
      var rankCounts, buf := RouteHashes(uniqs[r], splitters, |raw|);
      bufs, counts := bufs + [buf], counts + [rankCounts];
    }
  }

  method FormBuckets(recv: seq<seq<nat>>) returns (buckets: seq<seq<nat>>)
    ensures AreBuckets(buckets, recv)
  {
    buckets := [];
    for t := 0 to |recv|
      invariant |buckets| == t && forall q :: 0 <= q < t ==> buckets[q] == SortUnique(recv[q])
    {
      buckets := buckets + [SortUnique(recv[t])];
    }
  }

  /** Every rank reads its own column of the gathered send counts. */
  method GatherRecvCounts(counts: seq<seq<nat>>) returns (recvcounts: seq<seq<nat>>)
    requires forall r :: 0 <= r < |counts| ==> |counts[r]| == |counts|
    ensures recvcounts == Transpose(counts)
  {
    recvcounts := [];
    for r := 0 to |counts|
      invariant |recvcounts| == r && forall q :: 0 <= q < r ==> recvcounts[q] == Transpose(counts)[q]
    {
      var mine := RecvCounts(counts, r);
      recvcounts := recvcounts + [mine];
    }
  }

  /** The shards hold what the splitters send them. */
  ghost predicate SplitBy(splitters: seq<nat>, raw: seq<seq<seq<nat>>>, outs: seq<IdMappedPatches>)
    requires Ascending(splitters)
  {
    forall t :: 0 <= t < |outs| ==>
      && StrictlyAscending(outs[t].shardHashes)
      && forall h :: h in outs[t].shardHashes <==> h in GlobalHashes(Flatten(raw)) && TargetRank(h, splitters) == t
  }

  lemma BucketsSplit(raw: seq<seq<seq<nat>>>, splitters: seq<nat>, bufs: seq<seq<nat>>, counts: seq<seq<nat>>,
                     buckets: seq<seq<nat>>, outs: seq<IdMappedPatches>)
    requires Ascending(splitters) && AllPacked(raw, splitters, bufs, counts) && Exchangeable(bufs, counts)
    requires AreBuckets(buckets, Alltoallv(bufs, counts)) && |outs| == |buckets|
    requires forall t :: 0 <= t < |outs| ==> outs[t].shardHashes == buckets[t]
    ensures SplitBy(splitters, raw, outs)
  {
    hide AllPacked, GlobalHashes, TargetRank, Alltoallv, AreBuckets, Exchangeable, StrictlyAscending, Flatten;
    BucketsSorted(buckets, Alltoallv(bufs, counts));
    forall t, h: nat | 0 <= t < |outs|
      ensures h in outs[t].shardHashes <==> h in GlobalHashes(Flatten(raw)) && TargetRank(h, splitters) == t
    {
      BucketHolds(raw, splitters, bufs, counts, buckets, t, h);
    }
  }

  method AnswerRank(recv: seq<nat>, buckets: seq<seq<nat>>, t: nat, ghost global: seq<nat>) returns (response: seq<nat>)
    requires t < |buckets| && buckets[t] == SortUnique(recv) && StrictlyAscending(global) && Flatten(buckets) == global
    ensures response == Each(h => IdOf(global, h), recv)
  {
    hide IdOf, SortUnique, Flatten;
    StartIsSum(buckets, t);
    response := AnswerSlots(recv, buckets[t], Exscan(Lengths(buckets), t));
    forall i | 0 <= i < |recv| ensures response[i] == IdOf(global, recv[i]) {
      assert recv[i] in recv;
      AnswerIsGlobal(buckets, global, t, recv[i]);
    }
  }

  /** Every owner answers every arrival slot; the answers are global indices. */
  method AnswerAll(recv: seq<seq<nat>>, buckets: seq<seq<nat>>, ghost global: seq<nat>) returns (responses: seq<seq<nat>>)
    requires AreBuckets(buckets, recv) && StrictlyAscending(global) && Flatten(buckets) == global
    ensures responses == EachRank(h => IdOf(global, h), recv)
  {
    hide IdOf, Flatten, SortUnique, StrictlyAscending;
    responses := [];
    for t := 0 to |recv|
      invariant |responses| == t && forall q :: 0 <= q < t ==> responses[q] == Each(h => IdOf(global, h), recv[q])
    {
      var response := AnswerRank(recv[t], buckets, t, global);
      responses := responses + [response];
    }
  }

  lemma SentHere(raw: seq<seq<seq<nat>>>, splitters: seq<nat>, bufs: seq<seq<nat>>, counts: seq<seq<nat>>, r: nat, p: nat, h: nat)
    requires Ascending(splitters) && AllPacked(raw, splitters, bufs, counts) && r < |raw| && p < |raw[r]| && h in raw[r][p]
    ensures h in bufs[r]
  {
    var uniq := GlobalHashes(raw[r]);
    var targets := Targets(uniq, splitters);
    InFlatten(raw[r], h);
    assert h in uniq;
    var i :| 0 <= i < |uniq| && uniq[i] == h;
    BucketMember(uniq, targets, targets[i], h);
    InFlatten(Buckets(uniq, targets, |raw|), h);
    assert h in Buckets(uniq, targets, |raw|)[targets[i]];
  }

  /** Every hash of a rank's patches is in what the rank sends. */
  lemma AllSent(raw: seq<seq<seq<nat>>>, splitters: seq<nat>, bufs: seq<seq<nat>>, counts: seq<seq<nat>>, r: nat)
    requires Ascending(splitters) && AllPacked(raw, splitters, bufs, counts) && r < |raw|
    ensures forall p, h :: 0 <= p < |raw[r]| && h in raw[r][p] ==> h in bufs[r]
  {
    assert |bufs| == |raw|;
    hide AllPacked, Ascending;
    forall p, h | 0 <= p < |raw[r]| && h in raw[r][p] ensures h in bufs[r] {
      SentHere(raw, splitters, bufs, counts, r, p, h);
    }
  }

  method TranslateAll(raw: seq<seq<seq<nat>>>, splitters: seq<nat>, bufs: seq<seq<nat>>, counts: seq<seq<nat>>,
                      backs: seq<seq<nat>>, ghost global: seq<nat>) returns (ids: seq<seq<seq<nat>>>)
    requires Ascending(splitters) && AllPacked(raw, splitters, bufs, counts) && StrictlyAscending(global)
    requires backs == EachRank(h => IdOf(global, h), bufs)
    ensures |ids| == |raw| && forall r :: 0 <= r < |raw| ==> ids[r] == Translate(global, raw[r])
  {
    PackedRanks(raw, splitters, bufs, counts);
    hide AllPacked, Translate, TargetRank, Ascending, StrictlyAscending;
    ids := [];
    ghost var all := seq(|raw|, r requires 0 <= r < |raw| => Translate(global, raw[r]));
    for r := 0 to |raw|
      invariant ids == all[..r]
    {
      TakeNext(all, r);
      AllSent(raw, splitters, bufs, counts, r);
      var rankIds := TranslateThrough(raw[r], bufs[r], backs[r], global);
      ids := ids + [rankIds];
    }
  }

  /** The whole mapping, for any sorted splitters that all ranks share. */
  method MapWithSplitters(raw: seq<seq<seq<nat>>>, uniqs: seq<seq<nat>>, splitters: seq<nat>) returns (outs: seq<IdMappedPatches>)
    requires Ascending(splitters) && |raw| == |splitters| + 1 && uniqs == Uniqs(raw)
    ensures IsMapped(raw, outs) && SplitBy(splitters, raw, outs)
  {
    hide AllPacked, GlobalHashes, Translate, Alltoallv, AreBuckets, Uniqs, SplitBy;
    var bufs, counts := PackAll(raw, uniqs, splitters);
    PackedExchange(raw, splitters, bufs, counts);
    PackedRanks(raw, splitters, bufs, counts);
    ghost var global := GlobalHashes(Flatten(raw));
    var recv := Alltoallv(bufs, counts);
    var buckets := FormBuckets(recv);
    BucketsSorted(buckets, recv);
    BucketsAreGlobal(raw, splitters, bufs, counts, buckets);
    var responses := AnswerAll(recv, buckets, global);
    AnswersPairUp(h => IdOf(global, h), bufs, counts);
    var recvcounts := GatherRecvCounts(counts);
    var backs := Alltoallv(responses, recvcounts);
    var ids := TranslateAll(raw, splitters, bufs, counts, backs, global);
    outs := Collect(ids, buckets);
    FinishMapping(raw, buckets, ids, outs);
    BucketsSplit(raw, splitters, bufs, counts, buckets, outs);
  }

  /** Steps 6 and 7: shard starts by exclusive scan, the total from the last rank. */
  method Collect(ids: seq<seq<seq<nat>>>, buckets: seq<seq<nat>>) returns (outs: seq<IdMappedPatches>)
    requires |ids| == |buckets| > 0
    ensures |outs| == |ids|
    ensures forall r :: 0 <= r < |outs| ==> outs[r] == IdMappedPatches(ids[r], |Flatten(buckets)|, buckets[r], Start(buckets, r))
  {
    hide Flatten;
    var sizes := Lengths(buckets);
    var last := |buckets| - 1;
    var total := Exscan(sizes, last) + sizes[last];
    LastTotal(buckets);
    hide Start, Sum;
    outs := [];
    for r := 0 to |ids|
      invariant |outs| == r
      invariant forall q :: 0 <= q < r ==> outs[q] == IdMappedPatches(ids[q], |Flatten(buckets)|, buckets[q], Start(buckets, q))
    {
      StartIsSum(buckets, r);
      outs := outs + [IdMappedPatches(ids[r], total, buckets[r], Exscan(sizes, r))];
    }
  }

  /** The last rank's scan value plus its own size is the total. */
  lemma LastTotal(buckets: seq<seq<nat>>)
    requires |buckets| > 0
    ensures Exscan(Lengths(buckets), |buckets| - 1) + Lengths(buckets)[|buckets| - 1] == |Flatten(buckets)|
  {
    StartIsSum(buckets, |buckets| - 1);
  }

  lemma FinishMapping(raw: seq<seq<seq<nat>>>, buckets: seq<seq<nat>>, ids: seq<seq<seq<nat>>>, outs: seq<IdMappedPatches>)
    requires |outs| == |ids| == |buckets| == |raw|
    requires Flatten(buckets) == GlobalHashes(Flatten(raw))
    requires forall r :: 0 <= r < |raw| ==> ids[r] == Translate(GlobalHashes(Flatten(raw)), raw[r])
    requires forall r :: 0 <= r < |outs| ==> outs[r] == IdMappedPatches(ids[r], |Flatten(buckets)|, buckets[r], Start(buckets, r))
    ensures IsMapped(raw, outs)
  {
    assert Shards(outs) == buckets;
  }

  // ----- consequences ----------------------------------------------------------

  /** Shard entry i of rank r is the hash whose ID is shardStart + i. */
  lemma ShardIsReverseMap(raw: seq<seq<seq<nat>>>, outs: seq<IdMappedPatches>, r: nat, i: nat)
    requires IsMapped(raw, outs) && r < |outs| && i < |outs[r].shardHashes|
    ensures outs[r].shardStart + i < outs[r].n
    ensures IdOf(GlobalHashes(Flatten(raw)), outs[r].shardHashes[i]) == outs[r].shardStart + i
  {
    var ss := Shards(outs);
    FlattenAt(ss, r, i);
    LowerBoundFinds(GlobalHashes(Flatten(raw)), Start(ss, r) + i);
  }

  /** The ranks' translated patches, in slot order, are the one-process translation. */
  lemma MappedIsLocal(raw: seq<seq<seq<nat>>>, outs: seq<IdMappedPatches>, lists: seq<seq<seq<nat>>>)
    requires IsMapped(raw, outs) && |lists| == |outs| && forall r :: 0 <= r < |outs| ==> lists[r] == outs[r].idPatches
    ensures Flatten(lists) == Translate(GlobalHashes(Flatten(raw)), Flatten(raw))
  {
    FlattenTranslate(GlobalHashes(Flatten(raw)), raw, lists);
  }

  lemma {:induction false} FlattenTranslate(global: seq<nat>, raw: seq<seq<seq<nat>>>, lists: seq<seq<seq<nat>>>)
    requires StrictlyAscending(global) && |lists| == |raw|
    requires forall r :: 0 <= r < |raw| ==> lists[r] == Translate(global, raw[r])
    ensures Flatten(lists) == Translate(global, Flatten(raw))
  {
    if raw != [] {
      var n := |raw| - 1;
      FlattenTranslate(global, raw[..n], lists[..n]);
      assert Translate(global, Flatten(raw)) == Translate(global, Flatten(raw[..n])) + Translate(global, raw[n]);
    }
  }

  /** Translated patches only hold IDs below N. */
  lemma IdsBelow(patches: seq<seq<nat>>, p: nat, e: nat)
    requires p < |patches| && e in TranslatePatch(GlobalHashes(patches), patches[p])
    ensures e < |GlobalHashes(patches)|
  {
    PatchHashesKnown(patches, p);
    TranslateMember(GlobalHashes(patches), patches[p], e);
  }

  /** Every ID below N occurs in some translated patch. */
  lemma IdsOccur(patches: seq<seq<nat>>, e: nat) returns (p: nat)
    requires e < |GlobalHashes(patches)|
    ensures p < |patches| && e in TranslatePatch(GlobalHashes(patches), patches[p])
  {
    var h := GlobalHashes(patches)[e];
    assert h in GlobalHashes(patches);
    InFlatten(patches, h);
    p :| 0 <= p < |patches| && h in patches[p];
    PatchHashesKnown(patches, p);
    TranslateMember(GlobalHashes(patches), patches[p], e);
  }

  lemma PatchHashesKnown(patches: seq<seq<nat>>, p: nat)
    requires p < |patches|
    ensures forall h :: h in patches[p] ==> h in GlobalHashes(patches)
  {
    forall h | h in patches[p] ensures h in GlobalHashes(patches) { InFlatten(patches, h); }
  }
}
