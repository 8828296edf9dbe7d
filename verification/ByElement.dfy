/** The element-partitioned solver: every rank keeps partial scores of all patches over its
    own element shard; a round sums them, and everything else happens on the device. */
module ByElement {
  import opened Sequences
  import opened Bitset
  import opened Csr
  import opened InvertedIndexes
  import opened Kernels
  import opened Collectives
  import opened GreedyCover
  import opened Slots
  import opened ElementShards
  import ByPatch

  const DISABLED_WIRE_SCORE: WireScore := -1
  const BATCH: nat := 128

  // ----- what partial scores stand for -----------------------------------------

  /** What selected patch s newly covered when it won. */
  ghost function WonBy(all: seq<set<nat>>, sel: seq<nat>, s: nat): set<nat>
    requires InRange(all, sel)
  {
    if sel == [] then {}
    else
      var init, last := sel[..|sel| - 1], sel[|sel| - 1];
      if s == last then all[s] - Covered(all, init) else WonBy(all, init, s)
  }

  /** Unselected: the shard's missing elements. Selected: -1, minus what the shard newly
      covered when the patch won, because the winner is disabled before the decrements. */
  ghost function PartialScore(all: seq<set<nat>>, sel: seq<nat>, base: nat, extent: nat, s: nat): int
    requires InRange(all, sel) && s < |all|
  {
    if s in sel then -1 - |Local(WonBy(all, sel, s), base, extent)|
    else |Local(all[s] - Covered(all, sel), base, extent)|
  }

  ghost predicate PartialsTrack(all: seq<set<nat>>, sel: seq<nat>, base: nat, extent: nat, partials: seq<WireScore>)
    requires InRange(all, sel)
  {
    && |partials| == |all|
    && forall s :: 0 <= s < |all| ==> partials[s] as int == PartialScore(all, sel, base, extent, s)
  }

  lemma LocalSplits(a: set<nat>, b: set<nat>, base: nat, extent: nat)
    ensures Local(a + b, base, extent) == Local(a, base, extent) + Local(b, base, extent)
    ensures Local(a - b, base, extent) == Local(a, base, extent) - Local(b, base, extent)
    ensures Local(a * b, base, extent) == Local(a, base, extent) * Local(b, base, extent)
  {
  }

  lemma {:induction false} WonWithin(all: seq<set<nat>>, sel: seq<nat>, s: nat)
    requires InRange(all, sel) && s < |all|
    ensures WonBy(all, sel, s) <= all[s]
  {
    if sel != [] { WonWithin(all, sel[..|sel| - 1], s); }
  }

  lemma WonSnoc(all: seq<set<nat>>, sel: seq<nat>, w: nat, s: nat)
    requires InRange(all, sel) && w < |all|
    ensures InRange(all, sel + [w])
    ensures WonBy(all, sel + [w], s) == if s == w then all[w] - Covered(all, sel) else WonBy(all, sel, s)
  {
    assert (sel + [w])[..|sel|] == sel;
  }

  /** How one partial score moves in the round that selects w. */
  lemma PartialMoves(all: seq<set<nat>>, sel: seq<nat>, w: nat, base: nat, extent: nat, s: nat)
    requires InRange(all, sel) && w < |all| && w !in sel && s < |all|
    ensures InRange(all, sel + [w])
    ensures var lost := |Local(all[w] - Covered(all, sel), base, extent) * Local(all[s], base, extent)|;
            PartialScore(all, sel + [w], base, extent, s)
            == (if s == w then -1 else PartialScore(all, sel, base, extent, s)) - lost
  {
    var c, newly := Covered(all, sel), all[w] - Covered(all, sel);
    CoveredSnoc(all, sel, w);
    WonSnoc(all, sel, w, s);
    LocalSplits(newly, all[s], base, extent);
    if s == w {
      assert newly * all[s] == newly;
    } else if s in sel {
      ByPatch.SelectedSharesNothing(all, sel, w, s);
      assert Local({}, base, extent) == {};
    } else {
      var left := all[s] - (c + all[w]);
      assert all[s] - c == left + newly * all[s];
      LocalSplits(left, newly * all[s], base, extent);
      assert Local(left, base, extent) !! Local(newly * all[s], base, extent);
    }
  }

  // ----- the sum over all ranks ------------------------------------------------

  ghost function PartialScores(all: seq<set<nat>>, sel: seq<nat>, n: nat, size: nat, s: nat): (p: seq<int>)
    requires InRange(all, sel) && s < |all| && size > 0
    ensures |p| == size
    ensures forall r :: 0 <= r < size ==>
      p[r] == PartialScore(all, sel, ShardBase(n, size, r), ShardExtent(n, size, r), s)
  {
    seq(size, r requires 0 <= r < size => PartialScore(all, sel, ShardBase(n, size, r), ShardExtent(n, size, r), s))
  }

  /** The summed score of an unselected patch is its gain; of a selected one, minus the
      number of ranks and minus the score it won with. */
  lemma PartialsSum(all: seq<set<nat>>, sel: seq<nat>, n: nat, size: nat, s: nat)
    requires InRange(all, sel) && s < |all| && size > 0 && all[s] <= Range(n)
    ensures Sum(PartialScores(all, sel, n, size, s))
            == if s in sel then -(size as int) - |WonBy(all, sel, s)| else Gain(all, sel, s)
  {
    hide ShardBase, ShardExtent, WonBy, Covered;
    var p := PartialScores(all, sel, n, size, s);
    if s in sel {
      WonWithin(all, sel, s);
      var won := LocalSizes(WonBy(all, sel, s), n, size);
      LocalSizesSum(WonBy(all, sel, s), n, size);
      NegatedSum(won, p);
    } else {
      LocalSizesSum(all[s] - Covered(all, sel), n, size);
      assert p == LocalSizes(all[s] - Covered(all, sel), n, size);
    }
  }

  lemma {:induction false} NegatedSum(s: seq<int>, t: seq<int>)
    requires |s| == |t| && forall i :: 0 <= i < |s| ==> t[i] == -1 - s[i]
    ensures Sum(t) == -(|s| as int) - Sum(s)
  {
    if s != [] { NegatedSum(s[..|s| - 1], t[..|t| - 1]); }
  }

  // ----- int32 on the wire -----------------------------------------------------

  /** The sum over the ranks below k that belong to the group. */
  ghost function GroupSum(parts: seq<int>, group: set<nat>, k: nat): int
    requires k <= |parts|
  {
    if k == 0 then 0 else GroupSum(parts, group, k - 1) + (if k - 1 in group then parts[k - 1] else 0)
  }

  lemma {:induction false} GroupSumJoins(parts: seq<int>, a: set<nat>, b: set<nat>, k: nat)
    requires k <= |parts| && a !! b
    ensures GroupSum(parts, a + b, k) == GroupSum(parts, a, k) + GroupSum(parts, b, k)
  {
    if k > 0 { GroupSumJoins(parts, a, b, k - 1); }
  }

  lemma {:induction false} GroupSumOne(parts: seq<int>, r: nat, k: nat)
    requires k <= |parts|
    ensures GroupSum(parts, {r}, k) == if r < k then parts[r] else 0
  {
    if k > 0 { GroupSumOne(parts, r, k - 1); }
  }

  lemma {:induction false} GroupSumAll(parts: seq<int>, k: nat)
    requires k <= |parts|
    ensures GroupSum(parts, Range(|parts|), k) == Sum(parts[..k])
  {
    if k > 0 { GroupSumAll(parts, k - 1); SumPrefix(parts, k - 1); }
  }

  /** Every partial lies between -1 - len and len, so every group sum is bounded. */
  lemma {:induction false} GroupSumBounds(parts: seq<int>, lens: seq<nat>, group: set<nat>, k: nat)
    requires k <= |parts| == |lens|
    requires forall r :: 0 <= r < |parts| ==> -1 - lens[r] <= parts[r] <= lens[r]
    ensures -(k as int) - Sum(lens[..k]) <= GroupSum(parts, group, k) <= Sum(lens[..k])
  {
    if k > 0 {
      GroupSumBounds(parts, lens, group, k - 1);
      SumPrefix(lens, k - 1);
      SumMonotone(lens, 0, k - 1);
    }
  }

  predicate Fits(x: int) {
    INT32_MIN <= x <= INT32_MAX
  }

  /** The largest initial score the setup check lets through on `size` ranks. */
  function WireMax(size: nat): int {
    INT32_MAX - size - 1
  }

  /** If a patch passes the setup check, then in every state of every run each partial score
      and each intermediate sum, over any group of ranks, fits int32. */
  lemma EverySumFits(all: seq<set<nat>>, sel: seq<nat>, n: nat, size: nat, s: nat, group: set<nat>)
    requires InRange(all, sel) && s < |all| && size > 0 && all[s] <= Range(n)
    requires |all[s]| <= WireMax(size)
    ensures Fits(GroupSum(PartialScores(all, sel, n, size, s), group, size))
    ensures -2147483648 <= GroupSum(PartialScores(all, sel, n, size, s), group, size) <= 2147483647
    ensures forall r :: 0 <= r < size ==> Fits(PartialScores(all, sel, n, size, s)[r])
  {
    hide ShardBase, ShardExtent, WonBy, Covered;
    var parts, lens := PartialScores(all, sel, n, size, s), LocalSizes(all[s], n, size);
    LocalSizesSum(all[s], n, size);
    assert lens[..size] == lens;
    forall r | 0 <= r < size ensures -1 - lens[r] <= parts[r] <= lens[r] {
      PartialBounds(all, sel, ShardBase(n, size, r), ShardExtent(n, size, r), s);
    }
    var sizes: seq<nat> := seq(size, r requires 0 <= r < size => assert lens[r] >= 0; lens[r]);
    assert sizes == lens;
    GroupSumBounds(parts, sizes, group, size);
    forall r | 0 <= r < size ensures Fits(parts[r]) {
      GroupSumOne(parts, r, size);
      GroupSumBounds(parts, sizes, {r}, size);
    }
  }

  lemma PartialBounds(all: seq<set<nat>>, sel: seq<nat>, base: nat, extent: nat, s: nat)
    requires InRange(all, sel) && s < |all|
    ensures -1 - |Local(all[s], base, extent)| <= PartialScore(all, sel, base, extent, s) <= |Local(all[s], base, extent)|
  {
    WonWithin(all, sel, s);
    SubsetSize(Local(WonBy(all, sel, s), base, extent), Local(all[s], base, extent));
    SubsetSize(Local(all[s] - Covered(all, sel), base, extent), Local(all[s], base, extent));
  }

  ghost function Widen(s: seq<WireScore>): (w: seq<int>)
    ensures |w| == |s| && forall i :: 0 <= i < |s| ==> w[i] == s[i] as int
  {
    seq(|s|, i requires 0 <= i < |s| => s[i] as int)
  }

  /** Summing a group of ranks along an arbitrary reduction tree: the group is split
      anyhow, and every intermediate value is an int32. */
  method ReduceGroup(parts: seq<WireScore>, group: set<nat>) returns (sum: WireScore)
    requires group != {} && group <= Range(|parts|)
    requires forall g :: Fits(GroupSum(Widen(parts), g, |parts|))
    ensures sum as int == GroupSum(Widen(parts), group, |parts|)
    decreases |group|
  {
    var first :| first in group;
    if group == {first} {
      GroupSumOne(Widen(parts), first, |parts|);
      return parts[first];
    }
    assert {first} < group;
    var left: set<nat> :| {} < left < group;
    var right := group - left;
    assert group == left + right;
    var a := ReduceGroup(parts, left);
    var b := ReduceGroup(parts, right);
    GroupSumJoins(Widen(parts), left, right, |parts|);
    assert Fits(GroupSum(Widen(parts), group, |parts|));
    sum := a + b;
  }

  /** Slot s of every rank's partial scores. */
  function SlotParts(partials: seq<seq<WireScore>>, s: nat): (p: seq<WireScore>)
    requires forall r :: 0 <= r < |partials| ==> s < |partials[r]|
    ensures |p| == |partials| && forall r :: 0 <= r < |p| ==> p[r] == partials[r][s]
  {
    seq(|partials|, r requires 0 <= r < |partials| => partials[r][s])
  }

  /** The per-round collective: all ranks receive the same sums over all ranks. */
  method AllReduceSum(partials: seq<seq<WireScore>>, m: nat) returns (sums: seq<WireScore>)
    requires partials != [] && forall r :: 0 <= r < |partials| ==> |partials[r]| == m
    requires forall s, g :: 0 <= s < m ==> Fits(GroupSum(Widen(SlotParts(partials, s)), g, |partials|))
    ensures |sums| == m && forall s :: 0 <= s < m ==> sums[s] as int == Sum(Widen(SlotParts(partials, s)))
  {
    sums := [];
    for s := 0 to m
      invariant |sums| == s
      invariant forall q :: 0 <= q < s ==> sums[q] as int == Sum(Widen(SlotParts(partials, q)))
    {
      var parts := SlotParts(partials, s);
      assert forall g :: Fits(GroupSum(Widen(parts), g, |parts|));
      assert 0 in Range(|parts|);
      var sum := ReduceGroup(parts, Range(|parts|));
      GroupSumAll(Widen(parts), |parts|);
      assert Widen(parts)[..|parts|] == Widen(parts);
      sums := sums + [sum];
    }
  }

  // ----- one rank --------------------------------------------------------------

  /** What a rank's buffers hold that the result of a solve depends on. */
  datatype Snapshot = Snapshot(partials: seq<WireScore>, covered: seq<bool>, slots: seq<nat>, count: nat, picked: nat, done: bool)

  class ElemRank {
    const sub: PatchCsr
    const inv: InvertedIndex
    const extent: nat
    const universe: nat

    var partials: seq<WireScore>
    var covered: seq<bool>
    var newly: seq<nat>
    var selectedSlots: seq<nat>
    var coveredCount: nat
    var numSelected: nat
    var done: bool
    var start: nat
    var end: nat
    var newlyCount: nat
    ghost var decrements: nat

    ghost predicate Built() {
      && sub.Clean(extent)
      && IsTranspose(inv, sub)
    }

    /** Partial scores and shard bits after selecting sel. */
    ghost predicate Tracks(all: seq<set<nat>>, base: nat, sel: seq<nat>)
      reads this`partials, this`covered, this`decrements
    {
      && Built() && InRange(all, sel) && IsShardOf(sub, all, base, extent)
      && PartialsTrack(all, sel, base, extent, partials)
      && |covered| == extent && Bits(covered) == Local(Covered(all, sel), base, extent)
      && decrements == |Touched(Bits(covered), inv)|
    }

    /** The loop state and the selected list after selecting sel. */
    ghost predicate Logged(all: seq<set<nat>>, sel: seq<nat>, fin: bool)
      requires InRange(all, sel)
      reads this`selectedSlots, this`coveredCount, this`numSelected, this`done
    {
      && |selectedSlots| == |all| && numSelected == |sel| <= |all|
      && selectedSlots[..numSelected] == sel
      && coveredCount == |Covered(all, sel)|
      && done == fin
    }

    function Snap(): Snapshot
      reads this
    {
      Snapshot(partials, covered, selectedSlots, coveredCount, numSelected, done)
    }

    /** Everything a rank holds between two rounds. */
    ghost predicate At(all: seq<set<nat>>, base: nat, sel: seq<nat>, fin: bool)
      reads this
    {
      Tracks(all, base, sel) && Logged(all, sel, fin) && Roomy()
    }

    constructor (shard: PatchCsr, shardExtent: nat, n: nat)
      requires shard.Clean(shardExtent)
      requires forall s :: 0 <= s < shard.M() ==> shard.PatchSize(s) <= INT32_MAX
      ensures sub == shard && extent == shardExtent && universe == n && Built()
      ensures forall all, base :: IsShardOf(shard, all, base, shardExtent) ==> At(all, base, [], false)
    {
      var index := BuildInvertedIndex(shard);
      var m := shard.M();
      var widest := MaxRow(shard);
      var initial := InitialPartials(shard);
      sub, inv, extent, universe := shard, index, shardExtent, n;
      partials := initial;
      covered := seq(shardExtent, _ => false);
      newly, selectedSlots := seq(if widest > 1 then widest else 1, _ => 0), seq(m, _ => 0);
      coveredCount, numSelected, done := 0, 0, false;
      start, end, newlyCount, decrements := 0, 0, 0, 0;
      new;
      hide IsTranspose, IsShardOf, At;
      assert Started();
      forall all, base | IsShardOf(shard, all, base, shardExtent) ensures At(all, base, [], false) {
        StartsAt(this, all, base);
      }
    }

    /** As the constructor leaves the rank. */
    ghost predicate Started()
      reads this
    {
      && Built() && Roomy()
      && |partials| == sub.M() && (forall s :: 0 <= s < sub.M() ==> partials[s] as int == sub.PatchSize(s))
      && |covered| == extent && (forall e :: 0 <= e < extent ==> !covered[e])
      && |selectedSlots| == sub.M() && coveredCount == 0 && numSelected == 0 && !done && decrements == 0
    }

    /** Commit: log the winner, advance the count, raise done, resolve the winner's range,
        and disable it before its decrements; nothing at all once done. */
    method Commit(key: nat, value: WireScore)
      requires Built() && |partials| == sub.M() && key < sub.M()
      requires !done && value > 0 ==> numSelected < |selectedSlots|
      modifies this`partials, this`selectedSlots, this`coveredCount, this`numSelected, this`done,
               this`start, this`end, this`newlyCount
      ensures newlyCount == 0
      ensures old(done) || value <= 0 ==>
        && start == 0 && end == 0 && done
        && partials == old(partials) && selectedSlots == old(selectedSlots)
        && coveredCount == old(coveredCount) && numSelected == old(numSelected)
      ensures !old(done) && value > 0 ==>
        && start == sub.offsets[key] && end == sub.offsets[key + 1]
        && partials == old(partials)[key := -1]
        && selectedSlots == old(selectedSlots)[old(numSelected) := key] && numSelected == old(numSelected) + 1
        && coveredCount == old(coveredCount) + value as int && done == (coveredCount >= universe)
    {
      newlyCount, start, end := 0, 0, 0;
      if done { return; }
      if value <= 0 { done := true; return; }
      selectedSlots := selectedSlots[numSelected := key];
      numSelected := numSelected + 1;
      coveredCount := coveredCount + value as int;
      if coveredCount >= universe { done := true; }
      start, end := sub.offsets[key], sub.offsets[key + 1];
      partials := partials[key := DISABLED_WIRE_SCORE];
    }

    /** The three update kernels, driven by the committed range: list the range's uncovered
        elements, raise their bits, lower the scores of the patches that contain them. */
    method Update(ghost found: set<nat>)
      requires Built() && start <= end <= |sub.data| && StrictlyAscending(sub.data[start..end])
      requires newlyCount == 0 && |covered| == extent && |partials| == sub.M()
      requires Uncovered(sub.data, start, end, covered) == found <= Range(extent) && |found| <= |newly|
      requires forall s :: 0 <= s < |partials| ==> partials[s] as int - |Hits(found, inv, s)| >= INT32_MIN
      modifies this`newly, this`newlyCount, this`covered, this`partials, this`decrements
      ensures |newly| == old(|newly|) && |covered| == extent && |partials| == sub.M()
      ensures Bits(covered) == old(Bits(covered)) + found
      ensures forall s :: 0 <= s < |partials| ==> partials[s] as int == old(partials)[s] as int - |Hits(found, inv, s)|
      ensures decrements == old(decrements) + |Touched(found, inv)|
    {
      hide Bits, ToSet, Touched, Hits, IsTranspose, Distinct, Uncovered;
      CleanSlice(sub, extent, start, end);
      newly, newlyCount := BuildNewlyCovered(sub.data, start, end, covered, newly);
      ByPatch.PayloadBelow(newly[..newlyCount], found, extent);
      covered := SetBits(covered, newly, newlyCount);
      ByPatch.IndexReady(inv, sub);
      ghost var steps := 0;
      partials, steps := WireScoreUpdate(newly, newlyCount, inv, partials);
      decrements := decrements + steps;
    }

    /** The commit, in terms of the selection it logs. */
    method CommitWinner(key: nat, value: WireScore, ghost all: seq<set<nat>>, ghost sel: seq<nat>, ghost fin: bool)
      requires Built() && InRange(all, sel) && Logged(all, sel, fin) && |partials| == sub.M() == |all| && key < |all|
      requires !fin && value > 0 ==> value as int == Gain(all, sel, key) && |sel| < |all|
      modifies this`partials, this`selectedSlots, this`coveredCount, this`numSelected, this`done,
               this`start, this`end, this`newlyCount
      ensures newlyCount == 0
      ensures fin || value <= 0 ==>
        start == 0 && end == 0 && partials == old(partials) && Logged(all, sel, true)
        && selectedSlots == old(selectedSlots) && coveredCount == old(coveredCount) && numSelected == old(numSelected)
      ensures fin ==> done == old(done)
      ensures !fin && value > 0 ==>
        && start == sub.offsets[key] && end == sub.offsets[key + 1]
        && partials == old(partials)[key := DISABLED_WIRE_SCORE]
        && InRange(all, sel + [key]) && Logged(all, sel + [key], |Covered(all, sel + [key])| >= universe)
    {
      hide Covered, Gain;
      Commit(key, value);
      if !fin && value > 0 {
        CoveredSnoc(all, sel, key);
        assert selectedSlots[..numSelected] == sel + [key];
      }
    }

    /** The update kernels after a commit: they serve the winner w, or find nothing to do. */
    method Apply(ghost all: seq<set<nat>>, ghost base: nat, ghost sel: seq<nat>, ghost w: nat, ghost active: bool,
                 ghost was: seq<WireScore>)
      requires Built() && InRange(all, sel) && IsShardOf(sub, all, base, extent) && Roomy()
      requires |covered| == extent && Bits(covered) == Local(Covered(all, sel), base, extent)
      requires decrements == |Touched(Bits(covered), inv)| && newlyCount == 0
      requires PartialsTrack(all, sel, base, extent, was)
      requires active ==> w < |all| && w !in sel && partials == was[w := DISABLED_WIRE_SCORE]
                          && start == sub.offsets[w] && end == sub.offsets[w + 1]
      requires !active ==> partials == was && start == 0 && end == 0
      requires forall s :: 0 <= s < |all| ==> |all[s]| <= INT32_MAX
      modifies this`newly, this`newlyCount, this`covered, this`partials, this`decrements
      ensures Roomy()
      ensures active ==> Tracks(all, base, sel + [w])
      ensures !active ==> Tracks(all, base, sel) && covered == old(covered) && partials == old(partials)
    {
      hide Local, Touched, Covered, PartialScore, PartialsTrack, IsTranspose, Distinct, Bits, Uncovered, Hits, ToSet,
        IsShardOf, InRange, RowsAscending, Ascending;
      ghost var bits, committed := covered, partials;
      ghost var found: set<nat> := {};
      ByPatch.IndexReady(inv, sub);
      ShardSizes(sub, all, base, extent, sel, was);
      if active {
        ShardRow(sub, all, base, extent, sel, w, covered);
        RoomForHits(sub, inv, all, base, extent, sel, w, was, partials);
        found := Local(all[w] - Covered(all, sel), base, extent);
      } else {
        NothingListed(sub.data, covered, inv);
      }
      Update(found);
      if active {
        MovedPartials(sub, inv, all, base, extent, sel, w, was, committed, partials);
        CoverMoves(all, sel, w, base, extent);
        TouchedAdds(Local(Covered(all, sel), base, extent), found, inv);
      } else {
        SameBits(bits, covered);
        SameScores(was, partials);
      }
    }

    /** One round on one rank, once the winner is known: commit, then the update kernels. */
    method Step(key: nat, value: WireScore, ghost all: seq<set<nat>>, ghost base: nat, ghost sel: seq<nat>, ghost fin: bool)
      requires At(all, base, sel, fin) && key < |all|
      requires !fin && value > 0 ==> key !in sel && value as int == Gain(all, sel, key) && |sel| < |all|
      requires forall s :: 0 <= s < |all| ==> |all[s]| <= INT32_MAX
      modifies this
      ensures fin || value <= 0 ==> At(all, base, sel, true)
      ensures fin ==> Snap() == old(Snap())
      ensures !fin && value > 0 ==> InRange(all, sel + [key])
                                    && At(all, base, sel + [key], |Covered(all, sel + [key])| >= universe)
    {
      hide Local, Touched, Covered, PartialsTrack, IsTranspose, Bits, Gain, Logged, IsShardOf, InRange, Roomy;
      ghost var was := partials;
      TrackedSize(this, all, base, sel);
      CommitWinner(key, value, all, sel, fin);
      Apply(all, base, sel, key, !fin && value > 0, was);
    }

    /** The list buffer is as long as the widest row of the shard. */
    ghost predicate Roomy()
      reads this`newly
    {
      sub.Valid() && forall s :: 0 <= s < sub.M() ==> sub.PatchSize(s) <= |newly|
    }
  }

  lemma CleanSlice(sub: PatchCsr, extent: nat, start: nat, end: nat)
    requires sub.Clean(extent) && start <= end <= |sub.data|
    ensures forall e :: e in sub.data[start..end] ==> e < extent
  {
  }

  lemma ScoresFit(all: seq<set<nat>>, sel: seq<nat>, base: nat, extent: nat)
    requires InRange(all, sel) && forall s :: 0 <= s < |all| ==> |all[s]| <= INT32_MAX
    ensures forall s :: 0 <= s < |all| ==> PartialScore(all, sel, base, extent, s) >= INT32_MIN
  {
    forall s | 0 <= s < |all| ensures PartialScore(all, sel, base, extent, s) >= INT32_MIN {
      PartialBounds(all, sel, base, extent, s);
      LocalShrinks(all[s], base, extent);
    }
  }

  lemma LocalShrinks(x: set<nat>, base: nat, extent: nat)
    ensures |Local(x, base, extent)| <= |x|
  {
    ShiftSize(x, base, extent);
    SubsetSize(Below(x, base + extent), x);
  }

  lemma SameScores(a: seq<WireScore>, b: seq<WireScore>)
    requires |a| == |b| && forall s :: 0 <= s < |a| ==> b[s] as int == a[s] as int
    ensures a == b
  {
  }

  /** The winner's row on this shard, and what is uncovered in it. */
  lemma ShardRow(sub: PatchCsr, all: seq<set<nat>>, base: nat, extent: nat, sel: seq<nat>, w: nat, covered: seq<bool>)
    requires IsShardOf(sub, all, base, extent) && InRange(all, sel) && w < |all|
    requires |covered| == extent && Bits(covered) == Local(Covered(all, sel), base, extent)
    ensures sub.Valid() && w < sub.M() == |all| && sub.offsets[w] <= sub.offsets[w + 1] <= |sub.data|
    ensures StrictlyAscending(sub.data[sub.offsets[w]..sub.offsets[w + 1]])
    ensures forall e :: e in sub.Patch(w) ==> e < extent
    ensures Uncovered(sub.data, sub.offsets[w], sub.offsets[w + 1], covered) == Local(all[w] - Covered(all, sel), base, extent)
    ensures |Uncovered(sub.data, sub.offsets[w], sub.offsets[w + 1], covered)| <= sub.PatchSize(w)
    ensures Local(all[w] - Covered(all, sel), base, extent) <= Range(extent)
  {
    hide Covered, Bits;
    CleanPatch(sub, extent, w);
    assert StrictlyAscending(sub.Patch(w));
    LocalSplits(all[w], Covered(all, sel), base, extent);
    DistinctSize(sub.Patch(w));
    SubsetSize(Local(all[w] - Covered(all, sel), base, extent), ToSet(sub.Patch(w)));
  }

  lemma HitsMove(sub: PatchCsr, inv: InvertedIndex, all: seq<set<nat>>, base: nat, extent: nat, sel: seq<nat>, w: nat,
                 partials: seq<WireScore>)
    requires IsShardOf(sub, all, base, extent) && inv.Valid() && IsTranspose(inv, sub)
    requires InRange(all, sel) && w < |all| && w !in sel && |partials| == |all|
    requires forall s :: 0 <= s < |all| ==>
      partials[s] as int == if s == w then -1 else PartialScore(all, sel, base, extent, s)
    ensures InRange(all, sel + [w])
    ensures forall s :: 0 <= s < |all| ==>
      partials[s] as int - |Hits(Local(all[w] - Covered(all, sel), base, extent), inv, s)|
      == PartialScore(all, sel + [w], base, extent, s)
  {
    hide Local, Covered, PartialScore, IsTranspose, Hits, WonBy;
    forall s | 0 <= s < |all|
      ensures partials[s] as int - |Hits(Local(all[w] - Covered(all, sel), base, extent), inv, s)|
              == PartialScore(all, sel + [w], base, extent, s)
    {
      ByPatch.HitsAreShared(sub, inv, Local(all[w] - Covered(all, sel), base, extent), s);
      PartialMoves(all, sel, w, base, extent, s);
    }
  }

  lemma RoomForHits(sub: PatchCsr, inv: InvertedIndex, all: seq<set<nat>>, base: nat, extent: nat, sel: seq<nat>, w: nat,
                    was: seq<WireScore>, committed: seq<WireScore>)
    requires IsShardOf(sub, all, base, extent) && inv.Valid() && IsTranspose(inv, sub)
    requires InRange(all, sel) && w < |all| && w !in sel && PartialsTrack(all, sel, base, extent, was)
    requires committed == was[w := DISABLED_WIRE_SCORE]
    requires forall s :: 0 <= s < |all| ==> |all[s]| <= INT32_MAX
    ensures forall s :: 0 <= s < |committed| ==>
      committed[s] as int - |Hits(Local(all[w] - Covered(all, sel), base, extent), inv, s)| >= INT32_MIN
  {
    hide Local, Covered, PartialScore, IsTranspose, Hits;
    HitsMove(sub, inv, all, base, extent, sel, w, committed);
    ScoresFit(all, sel + [w], base, extent);
  }

  lemma MovedPartials(sub: PatchCsr, inv: InvertedIndex, all: seq<set<nat>>, base: nat, extent: nat, sel: seq<nat>, w: nat,
                      was: seq<WireScore>, committed: seq<WireScore>, after: seq<WireScore>)
    requires IsShardOf(sub, all, base, extent) && inv.Valid() && IsTranspose(inv, sub)
    requires InRange(all, sel) && w < |all| && w !in sel && PartialsTrack(all, sel, base, extent, was)
    requires committed == was[w := DISABLED_WIRE_SCORE] && |after| == |committed|
    requires forall s :: 0 <= s < |after| ==>
      after[s] as int == committed[s] as int - |Hits(Local(all[w] - Covered(all, sel), base, extent), inv, s)|
    ensures InRange(all, sel + [w]) && PartialsTrack(all, sel + [w], base, extent, after)
  {
    hide Local, Covered, PartialScore, IsTranspose, Hits;
    HitsMove(sub, inv, all, base, extent, sel, w, committed);
  }

  lemma ShardSizes(sub: PatchCsr, all: seq<set<nat>>, base: nat, extent: nat, sel: seq<nat>, partials: seq<WireScore>)
    requires IsShardOf(sub, all, base, extent) && InRange(all, sel) && PartialsTrack(all, sel, base, extent, partials)
    ensures |partials| == sub.M() == |all|
  {
  }

  lemma TrackedSize(rank: ElemRank, all: seq<set<nat>>, base: nat, sel: seq<nat>)
    requires rank.Tracks(all, base, sel)
    ensures |rank.partials| == rank.sub.M() == |all| && InRange(all, sel)
  {
  }

  lemma CoverMoves(all: seq<set<nat>>, sel: seq<nat>, w: nat, base: nat, extent: nat)
    requires InRange(all, sel) && w < |all|
    ensures InRange(all, sel + [w])
    ensures Local(Covered(all, sel + [w]), base, extent)
            == Local(Covered(all, sel), base, extent) + Local(all[w] - Covered(all, sel), base, extent)
    ensures Local(Covered(all, sel), base, extent) !! Local(all[w] - Covered(all, sel), base, extent)
  {
    CoveredSnoc(all, sel, w);
    LocalSplits(Covered(all, sel), all[w] - Covered(all, sel), base, extent);
    ByPatch.CoverRest(Covered(all, sel), all[w]);
  }

  lemma NothingListed(data: seq<nat>, covered: seq<bool>, inv: InvertedIndex)
    requires inv.Valid()
    ensures Uncovered(data, 0, 0, covered) == {}
    ensures forall q: nat :: |Hits({}, inv, q)| == 0
    ensures |Touched({}, inv)| == 0
  {
    forall q: nat ensures |Hits({}, inv, q)| == 0 { NoHits(inv, q); }
    NoneTouched(inv);
  }

  lemma SameBits(a: seq<bool>, b: seq<bool>)
    requires |a| == |b| && Bits(b) == Bits(a) + {}
    ensures a == b
  {
    forall e | 0 <= e < |a| ensures a[e] == b[e] {
      assert e in Bits(a) <==> e in Bits(b);
    }
  }

  lemma FullPartials(shard: PatchCsr, all: seq<set<nat>>, base: nat, extent: nat, partials: seq<WireScore>)
    requires IsShardOf(shard, all, base, extent) && |partials| == shard.M()
    requires forall s :: 0 <= s < |all| ==> partials[s] as int == shard.PatchSize(s)
    ensures PartialsTrack(all, [], base, extent, partials)
    ensures Local({}, base, extent) == {}
  {
    forall s | 0 <= s < |all| ensures partials[s] as int == PartialScore(all, [], base, extent, s) {
      DistinctSize(shard.Patch(s));
      assert all[s] - {} == all[s];
    }
  }

  lemma StartsAt(rank: ElemRank, all: seq<set<nat>>, base: nat)
    requires rank.Started() && IsShardOf(rank.sub, all, base, rank.extent)
    ensures rank.At(all, base, [], false)
  {
    NoneTouched(rank.inv);
    BitsClear(rank.covered);
    FullPartials(rank.sub, all, base, rank.extent, rank.partials);
    assert |all| == rank.sub.M();
    hide IsTranspose, PartialsTrack, Touched, IsShardOf, Bits, Local, PatchCsr.Valid, PatchCsr.Clean;
  }

  /** Each shard's initial partial score: its slice of each patch. */
  method InitialPartials(sub: PatchCsr) returns (partials: seq<WireScore>)
    requires sub.Valid() && forall s :: 0 <= s < sub.M() ==> sub.PatchSize(s) <= INT32_MAX
    ensures |partials| == sub.M() && forall s :: 0 <= s < sub.M() ==> partials[s] as int == sub.PatchSize(s)
  {
    partials := [];
    for s := 0 to sub.M()
      invariant |partials| == s && forall q :: 0 <= q < s ==> partials[q] as int == sub.PatchSize(q)
    {
      NarrowExact(sub.PatchSize(s));
      partials := partials + [Narrow(sub.PatchSize(s))];
    }
  }

  method MaxRow(sub: PatchCsr) returns (widest: nat)
    requires sub.Valid()
    ensures forall s :: 0 <= s < sub.M() ==> sub.PatchSize(s) <= widest
  {
    widest := 0;
    for s := 0 to sub.M()
      invariant forall q :: 0 <= q < s ==> sub.PatchSize(q) <= widest
    {
      if sub.PatchSize(s) > widest { widest := sub.PatchSize(s); }
    }
  }

  // ----- all ranks in lockstep -------------------------------------------------

  /** The ranks hold the shards of `all` over [0, n), and the setup check has passed. */
  ghost predicate Ready(ranks: seq<ElemRank>, all: seq<set<nat>>, n: nat) {
    && ranks != [] && Distinct(ranks)
    && (forall s :: 0 <= s < |all| ==> all[s] <= Range(n) && |all[s]| <= WireMax(|ranks|))
    && (forall r :: 0 <= r < |ranks| ==>
          ranks[r].Built() && ranks[r].universe == n && ranks[r].extent == ShardExtent(n, |ranks|, r))
  }

  ghost predicate AllTrack(ranks: seq<ElemRank>, all: seq<set<nat>>, n: nat, sel: seq<nat>, fin: bool)
    requires ranks != [] && InRange(all, sel)
    reads ranks
  {
    forall r :: 0 <= r < |ranks| ==> ranks[r].At(all, ShardBase(n, |ranks|, r), sel, fin)
  }

  /** The summed scores decide the round: the first largest is the greedy pick, and if it
      is not positive nothing is left to gain. */
  lemma SumsDecide(all: seq<set<nat>>, n: nat, size: nat, sel: seq<nat>, sums: seq<int>, key: nat)
    requires InRange(all, sel) && size > 0 && |sums| == |all| && IsLeftmostMax(sums, key)
    requires forall s :: 0 <= s < |all| ==> all[s] <= Range(n)
    requires forall s :: 0 <= s < |all| ==> sums[s] == Sum(PartialScores(all, sel, n, size, s))
    ensures sums[key] > 0 ==> key !in sel && sums[key] == Gain(all, sel, key) && IsPick(all, sel, key)
    ensures sums[key] <= 0 ==> Exhausted(all, n, sel)
  {
    hide Gain, Covered, WonBy;
    forall s | 0 <= s < |all|
      ensures if s in sel then sums[s] < 0 && Gain(all, sel, s) == 0 else sums[s] == Gain(all, sel, s)
    {
      PartialsSum(all, sel, n, size, s);
      if s in sel { SelectedGainsNothing(all, sel, s); }
    }
  }

  lemma PartsAreScores(ranks: seq<ElemRank>, all: seq<set<nat>>, n: nat, sel: seq<nat>, partials: seq<seq<WireScore>>, s: nat)
    requires Ready(ranks, all, n) && InRange(all, sel) && s < |all|
    requires |partials| == |ranks| && forall r :: 0 <= r < |ranks| ==> |partials[r]| == |all|
    requires forall r :: 0 <= r < |ranks| ==>
      PartialsTrack(all, sel, ShardBase(n, |ranks|, r), ShardExtent(n, |ranks|, r), partials[r])
    ensures Widen(SlotParts(partials, s)) == PartialScores(all, sel, n, |ranks|, s)
    ensures forall g :: Fits(GroupSum(Widen(SlotParts(partials, s)), g, |ranks|))
  {
    hide PartialScore;
    assert Widen(SlotParts(partials, s)) == PartialScores(all, sel, n, |ranks|, s);
    forall g ensures Fits(GroupSum(Widen(SlotParts(partials, s)), g, |ranks|)) {
      EverySumFits(all, sel, n, |ranks|, s, g);
    }
  }

  method GatherPartials(ranks: seq<ElemRank>) returns (partials: seq<seq<WireScore>>)
    ensures |partials| == |ranks| && forall r :: 0 <= r < |ranks| ==> partials[r] == ranks[r].partials
  {
    partials := [];
    for r := 0 to |ranks|
      invariant |partials| == r && forall q :: 0 <= q < r ==> partials[q] == ranks[q].partials
    {
      partials := partials + [ranks[r].partials];
    }
  }

  /** The full scores every rank sees: the summed partials, or on a single rank the partials. */
  method FullScores(ranks: seq<ElemRank>, ghost all: seq<set<nat>>, ghost n: nat, ghost sel: seq<nat>, ghost fin: bool)
    returns (full: seq<WireScore>)
    requires Ready(ranks, all, n) && InRange(all, sel) && AllTrack(ranks, all, n, sel, fin)
    ensures |full| == |all|
    ensures forall s :: 0 <= s < |all| ==> full[s] as int == Sum(PartialScores(all, sel, n, |ranks|, s))
  {
    hide PartialScore, ElemRank.Logged, ElemRank.Roomy, ElemRank.Built, PartialsTrack, GroupSum, Fits, PartialScores;
    var partials := GatherPartials(ranks);
    PartialsReady(ranks, all, n, sel, fin, partials);
    if |ranks| > 1 {
      full := AllReduceSum(partials, |partials[0]|);
    } else {
      full := partials[0];
      forall s | 0 <= s < |all| ensures full[s] as int == Sum(PartialScores(all, sel, n, 1, s)) {
        SumOfOne(Widen(SlotParts(partials, s)));
      }
    }
  }

  lemma SumOfOne(p: seq<int>)
    requires |p| == 1
    ensures Sum(p) == p[0]
  {
    assert p[..0] == [];
  }

  lemma PartialsReady(ranks: seq<ElemRank>, all: seq<set<nat>>, n: nat, sel: seq<nat>, fin: bool, partials: seq<seq<WireScore>>)
    requires Ready(ranks, all, n) && InRange(all, sel) && AllTrack(ranks, all, n, sel, fin)
    requires |partials| == |ranks| && forall r :: 0 <= r < |ranks| ==> partials[r] == ranks[r].partials
    ensures forall r :: 0 <= r < |ranks| ==> |partials[r]| == |all|
    ensures forall s :: 0 <= s < |all| ==> Widen(SlotParts(partials, s)) == PartialScores(all, sel, n, |ranks|, s)
    ensures forall s, g :: 0 <= s < |all| ==> Fits(GroupSum(Widen(SlotParts(partials, s)), g, |ranks|))
  {
    hide PartialScore, ElemRank.Logged, ElemRank.Roomy, ElemRank.Built, GroupSum, Fits;
    assert forall r :: 0 <= r < |ranks| ==> ranks[r].Tracks(all, ShardBase(n, |ranks|, r), sel);
    forall s | 0 <= s < |all|
      ensures Widen(SlotParts(partials, s)) == PartialScores(all, sel, n, |ranks|, s)
      ensures forall g :: Fits(GroupSum(Widen(SlotParts(partials, s)), g, |ranks|))
    {
      PartsAreScores(ranks, all, n, sel, partials, s);
    }
  }

  method Winner(full: seq<WireScore>) returns (key: nat)
    requires full != []
    ensures IsLeftmostMax(Widen(full), key)
  {
    var wide := seq(|full|, i requires 0 <= i < |full| => full[i] as int);
    key := LeftmostMax(wide);
    assert wide == Widen(full);
  }

  /** One round. Once done it changes nothing that matters, so overshooting is harmless;
      otherwise it selects the greedy pick or finds nothing left, and `done` rises on all
      ranks in the same round. */
  method Round(ranks: seq<ElemRank>, ghost all: seq<set<nat>>, ghost n: nat, ghost sel: seq<nat>, ghost fin: bool)
    returns (ghost sel': seq<nat>, ghost fin': bool)
    requires Ready(ranks, all, n) && all != [] && IsGreedyRun(all, n, sel) && AllTrack(ranks, all, n, sel, fin)
    requires if fin then Exhausted(all, n, sel) else |Covered(all, sel)| < n
    modifies ranks
    ensures IsGreedyRun(all, n, sel') && AllTrack(ranks, all, n, sel', fin')
    ensures if fin' then Exhausted(all, n, sel') else |Covered(all, sel')| < n
    ensures fin ==> fin' && sel' == sel && forall r :: 0 <= r < |ranks| ==> ranks[r].Snap() == old(ranks[r].Snap())
    ensures !fin ==> fin' || |sel'| == |sel| + 1
  {
    hide Covered, Gain, IsPick, Exhausted, ShardBase, ShardExtent, ElemRank.At, PartialScores;
    RunDistinct(all, n, sel);
    var full := FullScores(ranks, all, n, sel, fin);
    var key := Winner(full);
    SumsDecide(all, n, |ranks|, sel, Widen(full), key);
    ghost var value := full[key] as int;
    if !fin && value > 0 {
      RunSnoc(all, n, sel, key);
      RunDistinct(all, n, sel + [key]);
    }
    sel' := if !fin && value > 0 then sel + [key] else sel;
    fin' := fin || value <= 0 || |Covered(all, sel')| >= n;
    StepAll(ranks, key, full[key], all, n, sel, fin, sel', fin');
    if |Covered(all, sel')| >= n { FullExhausts(all, n, sel'); }
  }

  lemma FullExhausts(all: seq<set<nat>>, n: nat, sel: seq<nat>)
    requires InRange(all, sel) && |Covered(all, sel)| >= n
    ensures Exhausted(all, n, sel)
  {
  }

  method StepAll(ranks: seq<ElemRank>, key: nat, value: WireScore, ghost all: seq<set<nat>>, ghost n: nat,
                 ghost sel: seq<nat>, ghost fin: bool, ghost sel': seq<nat>, ghost fin': bool)
    requires Ready(ranks, all, n) && InRange(all, sel) && AllTrack(ranks, all, n, sel, fin) && key < |all|
    requires !fin && value > 0 ==> key !in sel && value as int == Gain(all, sel, key) && |sel| < |all|
    requires sel' == (if !fin && value > 0 then sel + [key] else sel) && InRange(all, sel')
    requires fin' == (fin || value <= 0 || |Covered(all, sel')| >= n)
    modifies ranks
    ensures AllTrack(ranks, all, n, sel', fin')
    ensures fin ==> forall r :: 0 <= r < |ranks| ==> ranks[r].Snap() == old(ranks[r].Snap())
  {
    hide Covered, Gain, ShardBase, ShardExtent, ElemRank.At, ElemRank.Built, InRange;
    forall s | 0 <= s < |all| ensures |all[s]| <= INT32_MAX { assert |all[s]| <= WireMax(|ranks|); }
    for r := 0 to |ranks|
      invariant forall q :: 0 <= q < r ==>
        ranks[q].At(all, ShardBase(n, |ranks|, q), sel', fin')
      invariant fin ==> forall q :: 0 <= q < r ==> ranks[q].Snap() == old(ranks[q].Snap())
      invariant forall q :: r <= q < |ranks| ==>
        ranks[q].At(all, ShardBase(n, |ranks|, q), sel, fin)
      invariant forall q :: r <= q < |ranks| ==> ranks[q].Snap() == old(ranks[q].Snap())
    {
      ranks[r].Step(key, value, all, ShardBase(n, |ranks|, r), sel, fin);
    }
  }

  /** The host loop: enqueue whole batches of rounds, then look at the loop state once. */
  method SelectSlots(ranks: seq<ElemRank>, batch: nat, ghost all: seq<set<nat>>, ghost n: nat) returns (ghost sel: seq<nat>)
    requires Ready(ranks, all, n) && all != [] && n > 0 && batch > 0 && AllTrack(ranks, all, n, [], false)
    modifies ranks
    ensures IsGreedyResult(all, n, sel) && AllTrack(ranks, all, n, sel, true)
  {
    sel := [];
    ghost var fin := false;
    var done := false;
    while !done
      invariant IsGreedyRun(all, n, sel) && AllTrack(ranks, all, n, sel, fin)
      invariant if fin then Exhausted(all, n, sel) else |Covered(all, sel)| < n
      invariant done ==> fin
      invariant |sel| <= |all|
      decreases !done, !fin, |all| - |sel|
    {
      sel, fin := RunBatch(ranks, batch, all, n, sel, fin);
      RunDistinct(all, n, sel);
      done := ranks[0].done;
    }
  }

  method RunBatch(ranks: seq<ElemRank>, batch: nat, ghost all: seq<set<nat>>, ghost n: nat, ghost sel: seq<nat>, ghost fin: bool)
    returns (ghost sel': seq<nat>, ghost fin': bool)
    requires Ready(ranks, all, n) && all != [] && batch > 0 && IsGreedyRun(all, n, sel) && AllTrack(ranks, all, n, sel, fin)
    requires if fin then Exhausted(all, n, sel) else |Covered(all, sel)| < n
    modifies ranks
    ensures IsGreedyRun(all, n, sel') && AllTrack(ranks, all, n, sel', fin')
    ensures if fin' then Exhausted(all, n, sel') else |Covered(all, sel')| < n
    ensures fin ==> fin' && sel' == sel
    ensures !fin ==> fin' || |sel'| > |sel|
  {
    sel', fin' := sel, fin;
    for b := 0 to batch
      invariant IsGreedyRun(all, n, sel') && AllTrack(ranks, all, n, sel', fin')
      invariant if fin' then Exhausted(all, n, sel') else |Covered(all, sel')| < n
      invariant fin ==> fin' && sel' == sel
      invariant !fin ==> fin' || |sel'| > |sel| || (b == 0 && sel' == sel)
    {
      sel', fin' := Round(ranks, all, n, sel', fin');
    }
  }

  // ----- setup check, solve, report --------------------------------------------

  /** A solve either reports one selection per rank or rejects the input on every rank. */
  datatype Outcome = Solved(results: seq<PatchSelection>) | TooManyPatches | PatchTooLarge(id: nat)

  /** The rows of one slot add up, over the ranks, to the size of the whole patch. */
  lemma RowLengthsAddUp(subs: seq<PatchCsr>, all: seq<set<nat>>, n: nat, s: nat, rows: seq<int>)
    requires subs != [] && s < |all| && all[s] <= Range(n)
    requires forall r :: 0 <= r < |subs| ==> IsShardOf(subs[r], all, ShardBase(n, |subs|, r), ShardExtent(n, |subs|, r))
    requires |rows| == |subs| && forall r :: 0 <= r < |subs| ==> subs[r].Valid() && s < subs[r].M() && rows[r] == subs[r].PatchSize(s)
    ensures Sum(rows) == |all[s]|
  {
    hide ShardBase, ShardExtent, Local;
    forall r | 0 <= r < |subs| ensures rows[r] == LocalSizes(all[s], n, |subs|)[r] {
      assert IsShardOf(subs[r], all, ShardBase(n, |subs|, r), ShardExtent(n, |subs|, r));
      DistinctSize(subs[r].Patch(s));
    }
    assert rows == LocalSizes(all[s], n, |subs|);
    LocalSizesSum(all[s], n, |subs|);
  }

  /** The cast of a row length to the wire type: two's complement wrap-around. */
  function Narrow(len: nat): WireScore {
    var low := len % 0x1_0000_0000;
    if low <= INT32_MAX then low as WireScore else (low - 0x1_0000_0000) as WireScore
  }

  lemma NarrowExact(len: nat)
    ensures Narrow(len) as int == len <==> len <= INT32_MAX
    ensures (len - Narrow(len) as int) % 0x1_0000_0000 == 0
  {
  }

  /** The narrowed rows add up to the patch size if and only if every row fits the wire type:
      a longer row makes the setup check judge too small a sum. */
  lemma {:induction false} NarrowedSumExact(rows: seq<nat>, narrowed: seq<int>)
    requires |narrowed| == |rows| && forall r :: 0 <= r < |rows| ==> narrowed[r] == Narrow(rows[r]) as int
    ensures Sum(narrowed) <= Sum(rows)
    ensures Sum(narrowed) == Sum(rows) <==> forall r :: 0 <= r < |rows| ==> rows[r] <= INT32_MAX
  {
    if rows != [] {
      var n := |rows| - 1;
      NarrowedSumExact(rows[..n], narrowed[..n]);
      assert Narrow(rows[n]) as int <= rows[n];
      NarrowExact(rows[n]);
      assert rows == rows[..n] + [rows[n]];
    }
  }

  /** One row of 2^32 elements would be judged empty. */
  lemma NarrowedExample()
    ensures Narrow(0x1_0000_0000) == 0
  {
  }

  /** Every row of every shard fits the wire type, as the int send counts already demand. */
  ghost predicate ShortRows(all: seq<set<nat>>, n: nat, size: nat)
    requires size > 0
  {
    forall s, r :: 0 <= s < |all| && 0 <= r < size ==> |Local(all[s], ShardBase(n, size, r), ShardExtent(n, size, r))| <= INT32_MAX
  }

  lemma RowFits(sub: PatchCsr, all: seq<set<nat>>, n: nat, size: nat, r: nat, s: nat)
    requires size > 0 && r < size && s < |all| && ShortRows(all, n, size)
    requires IsShardOf(sub, all, ShardBase(n, size, r), ShardExtent(n, size, r))
    ensures sub.Valid() && s < sub.M() && Narrow(sub.PatchSize(s)) as int == sub.PatchSize(s)
  {
    hide ShardBase, ShardExtent, Local;
    DistinctSize(sub.Patch(s));
    NarrowExact(sub.PatchSize(s));
  }

  /** One patch's initial global score, in 64 bits, from the already narrowed row lengths. */
  method InitialSum(subs: seq<PatchCsr>, s: nat, ghost all: seq<set<nat>>, ghost n: nat) returns (sum: int)
    requires subs != [] && s < |all| && all[s] <= Range(n)
    requires forall r :: 0 <= r < |subs| ==> IsShardOf(subs[r], all, ShardBase(n, |subs|, r), ShardExtent(n, |subs|, r))
    requires ShortRows(all, n, |subs|)
    ensures sum == |all[s]|
  {
    hide ShardBase, ShardExtent, Local, ShortRows, IsShardOf, Narrow;
    sum := 0;
    ghost var rows: seq<int> := [];
    for r := 0 to |subs|
      invariant |rows| == r && sum == Sum(rows)
      invariant forall q :: 0 <= q < r ==> subs[q].Valid() && s < subs[q].M() && rows[q] == subs[q].PatchSize(s)
    {
      RowFits(subs[r], all, n, |subs|, r, s);
      SumSnoc(rows, subs[r].PatchSize(s));
      sum := sum + Narrow(subs[r].PatchSize(s)) as int;
      rows := rows + [subs[r].PatchSize(s)];
    }
    RowLengthsAddUp(subs, all, n, s, rows);
  }

  /** The one-time proof that the int32 wire fits: reject the first patch that is too large. */
  method WireCheck(subs: seq<PatchCsr>, m: nat, ghost all: seq<set<nat>>, ghost n: nat) returns (ok: bool, slot: nat)
    requires subs != [] && m == |all| && forall s :: 0 <= s < |all| ==> all[s] <= Range(n)
    requires forall r :: 0 <= r < |subs| ==> IsShardOf(subs[r], all, ShardBase(n, |subs|, r), ShardExtent(n, |subs|, r))
    requires ShortRows(all, n, |subs|)
    ensures ok ==> forall s :: 0 <= s < |all| ==> |all[s]| <= WireMax(|subs|)
    ensures !ok ==> slot < |all| && |all[slot]| > WireMax(|subs|) && forall s :: 0 <= s < slot ==> |all[s]| <= WireMax(|subs|)
  {
    hide IsShardOf, ShardBase, ShardExtent, ShortRows;
    slot := 0;
    while slot < m
      invariant slot <= m && forall s :: 0 <= s < slot ==> |all[s]| <= WireMax(|subs|)
    {
      var sum := InitialSum(subs, slot, all, n);
      if sum > WireMax(|subs|) { return false, slot; }
      slot := slot + 1;
    }
    ok := true;
  }

  method BuildRanks(subs: seq<PatchCsr>, n: nat, ghost all: seq<set<nat>>) returns (ranks: seq<ElemRank>)
    requires subs != [] && forall s :: 0 <= s < |all| ==> all[s] <= Range(n) && |all[s]| <= WireMax(|subs|)
    requires forall r :: 0 <= r < |subs| ==> IsShardOf(subs[r], all, ShardBase(n, |subs|, r), ShardExtent(n, |subs|, r))
    ensures |ranks| == |subs| && fresh(ranks)
    ensures Ready(ranks, all, n) && AllTrack(ranks, all, n, [], false)
  {
    hide ShardBase, ShardExtent, ElemRank.At, IsShardOf, ElemRank.Built;
    ranks := [];
    for r := 0 to |subs|
      invariant |ranks| == r && Distinct(ranks) && fresh(ranks)
      invariant forall q :: 0 <= q < r ==>
        ranks[q].Built() && ranks[q].universe == n && ranks[q].extent == ShardExtent(n, |subs|, q)
      invariant forall q :: 0 <= q < r ==> ranks[q].At(all, ShardBase(n, |subs|, q), [], false)
    {
      RowsFit(subs[r], all, n, |subs|, r);
      var rank := new ElemRank(subs[r], ShardExtent(n, |subs|, r), n);
      assert rank.At(all, ShardBase(n, |subs|, r), [], false);
      ranks := ranks + [rank];
    }
  }

  lemma RowsFit(sub: PatchCsr, all: seq<set<nat>>, n: nat, size: nat, r: nat)
    requires size > 0 && IsShardOf(sub, all, ShardBase(n, size, r), ShardExtent(n, size, r))
    requires forall s :: 0 <= s < |all| ==> |all[s]| <= WireMax(size)
    ensures sub.Clean(ShardExtent(n, size, r))
    ensures forall s :: 0 <= s < sub.M() ==> sub.PatchSize(s) <= INT32_MAX
  {
    forall s | 0 <= s < sub.M() ensures sub.PatchSize(s) <= INT32_MAX {
      DistinctSize(sub.Patch(s));
      LocalShrinks(all[s], ShardBase(n, size, r), ShardExtent(n, size, r));
    }
  }

  lemma LoggedSlots(rank: ElemRank, all: seq<set<nat>>, base: nat, sel: seq<nat>)
    requires InRange(all, sel) && rank.At(all, base, sel, true)
    ensures rank.numSelected == |sel| <= |rank.selectedSlots| && rank.coveredCount == |Covered(all, sel)|
    ensures forall i :: 0 <= i < |sel| ==> rank.selectedSlots[i] == sel[i]
  {
    hide Covered, ElemRank.Tracks, ElemRank.Roomy;
    assert forall i :: 0 <= i < rank.numSelected ==> rank.selectedSlots[i] == sel[i] by {
      assert rank.selectedSlots[..rank.numSelected] == sel;
    }
  }

  /** Selected slots, named by the callers' IDs. */
  method Report(rank: ElemRank, slotToId: seq<nat>, ghost all: seq<set<nat>>, ghost base: nat, ghost sel: seq<nat>)
    returns (result: PatchSelection)
    requires InRange(all, sel) && rank.At(all, base, sel, true) && |slotToId| == |all|
    ensures result == GreedyCover.Report(all, slotToId, sel)
  {
    hide Covered, ElemRank.At;
    LoggedSlots(rank, all, base, sel);
    var selected := [];
    for i := 0 to rank.numSelected
      invariant |selected| == i && forall j :: 0 <= j < i ==> selected[j] == slotToId[sel[j]]
    {
      selected := selected + [slotToId[rank.selectedSlots[i]]];
    }
    result := PatchSelection(selected, rank.coveredCount, rank.numSelected);
  }

  method ReportAll(ranks: seq<ElemRank>, slotToId: seq<nat>, ghost all: seq<set<nat>>, ghost n: nat, ghost sel: seq<nat>)
    returns (results: seq<PatchSelection>)
    requires Ready(ranks, all, n) && IsGreedyResult(all, n, sel) && AllTrack(ranks, all, n, sel, true) && |slotToId| == |all|
    ensures |results| == |ranks| && forall r :: 0 <= r < |ranks| ==> IsGreedySelection(all, n, slotToId, results[r])
  {
    hide Covered, ElemRank.At, ShardBase, GreedyCover.Report;
    results := [];
    for r := 0 to |ranks|
      invariant |results| == r && forall q :: 0 <= q < r ==> IsGreedySelection(all, n, slotToId, results[q])
    {
      var result := Report(ranks[r], slotToId, all, ShardBase(n, |ranks|, r), sel);
      results := results + [result];
    }
  }

  lemma EmptySelection(all: seq<set<nat>>, n: nat, ids: seq<nat>)
    requires |ids| == |all| && (all == [] || n == 0)
    ensures IsGreedySelection(all, n, ids, PatchSelection([], 0, 0))
  {
    assert IsGreedyResult(all, n, []);
    assert GreedyCover.Report(all, ids, []) == PatchSelection([], 0, 0);
  }

  /** The first slot whose patch has more elements than the check allows, by its caller ID. */
  ghost predicate FirstTooLarge(all: seq<set<nat>>, ids: seq<nat>, size: nat, id: nat)
    requires |ids| == |all|
  {
    exists s {:trigger all[s]} :: 0 <= s < |all| && |all[s]| > WireMax(size) && id == ids[s] && AllFit(all[..s], size)
  }

  ghost predicate AllFit(all: seq<set<nat>>, size: nat) {
    forall s :: 0 <= s < |all| ==> |all[s]| <= WireMax(size)
  }

  /** Refusals are decided by the input alone; everything else is solved, alike on all ranks. */
  ghost predicate IsOutcome(all: seq<set<nat>>, n: nat, ids: seq<nat>, size: nat, outcome: Outcome)
    requires |ids| == |all|
  {
    if |all| > INT32_MAX then outcome == TooManyPatches
    else if !AllFit(all, size) then outcome.PatchTooLarge? && FirstTooLarge(all, ids, size, outcome.id)
    else outcome.Solved? && |outcome.results| == size && forall r :: 0 <= r < size ==> IsGreedySelection(all, n, ids, outcome.results[r])
  }

  lemma TooLarge(all: seq<set<nat>>, n: nat, ids: seq<nat>, size: nat, slot: nat)
    requires |ids| == |all| <= INT32_MAX && slot < |all| && |all[slot]| > WireMax(size)
    requires forall s :: 0 <= s < slot ==> |all[s]| <= WireMax(size)
    ensures IsOutcome(all, n, ids, size, PatchTooLarge(ids[slot]))
  {
    assert AllFit(all[..slot], size);
    assert !AllFit(all, size);
  }

  /** The outcomes in numbers: at most 2^31 - 1 slots, at most 2^31 - 2 - P elements a patch,
      and a refused patch is the first with more, under its caller's ID. */
  lemma OutcomeInNumbers(all: seq<set<nat>>, n: nat, ids: seq<nat>, size: nat, outcome: Outcome)
    requires |ids| == |all| && IsOutcome(all, n, ids, size, outcome)
    ensures outcome.TooManyPatches? <==> |all| > 2147483647
    ensures outcome.Solved? <==> |all| <= 2147483647 && forall s :: 0 <= s < |all| ==> |all[s]| <= 2147483646 - size
    ensures outcome.PatchTooLarge? ==> exists s ::
      && 0 <= s < |all| && |all[s]| > 2147483646 - size && outcome.id == ids[s]
      && forall q :: 0 <= q < s ==> |all[q]| <= 2147483646 - size
  {
    hide IsGreedySelection;
    if outcome.PatchTooLarge? {
      var s {:trigger all[s]} :| 0 <= s < |all| && |all[s]| > WireMax(size) && outcome.id == ids[s] && AllFit(all[..s], size);
      forall q | 0 <= q < s ensures |all[q]| <= 2147483646 - size { assert all[..s][q] == all[q]; }
    }
  }

  /** The whole element-partitioned solve on translated patches, for any batch size. */
  method Solve(lists: seq<seq<seq<nat>>>, ids: seq<seq<nat>>, n: nat, batch: nat, ghost l: Layout) returns (outcome: Outcome)
    requires ListsOf(l, lists) && l.ids == ids && l.n == n && batch > 0
    requires ShortRows(l.All(), n, |lists|)
    ensures |l.AllIds()| == |l.All()| && IsOutcome(l.All(), n, l.AllIds(), |lists|, outcome)
    ensures outcome.Solved? <==>
      |l.All()| <= 2147483647 && forall s :: 0 <= s < |l.All()| ==> |l.All()[s]| <= 2147483646 - |lists|
  {
    hide Layout.All, IsGreedySelection, IsGreedyRun, Exhausted, IsShardOf, Layout.Base, ShortRows, FirstTooLarge;
    SlotCounts(l, 0);
    var slotToId := Flatten(ids);
    var m := |slotToId|;
    if m > INT32_MAX {
      outcome := TooManyPatches;
    } else {
      var subs := Redistribute(lists, n, l);
      forall s | 0 <= s < |l.All()| ensures l.All()[s] <= Range(n) { AllWithin(l, s); }
      outcome := SolveShards(subs, slotToId, n, batch, l.All());
    }
    OutcomeInNumbers(l.All(), n, slotToId, |lists|, outcome);
  }

  /** What follows the redistribution: the setup check, then the loop unless there is nothing to do. */
  method SolveShards(subs: seq<PatchCsr>, slotToId: seq<nat>, n: nat, batch: nat, ghost all: seq<set<nat>>) returns (outcome: Outcome)
    requires subs != [] && |slotToId| == |all| <= INT32_MAX && batch > 0
    requires forall s :: 0 <= s < |all| ==> all[s] <= Range(n)
    requires forall r :: 0 <= r < |subs| ==> IsShardOf(subs[r], all, ShardBase(n, |subs|, r), ShardExtent(n, |subs|, r))
    requires ShortRows(all, n, |subs|)
    ensures IsOutcome(all, n, slotToId, |subs|, outcome)
  {
    hide IsGreedySelection, IsGreedyRun, Exhausted, IsShardOf, ShortRows, FirstTooLarge;
    var m := |slotToId|;
    var ok, slot := WireCheck(subs, m, all, n);
    if !ok {
      TooLarge(all, n, slotToId, |subs|, slot);
      return PatchTooLarge(slotToId[slot]);
    }
    if m == 0 || n == 0 {
      EmptySelection(all, n, slotToId);
      return Solved(seq(|subs|, _ => PatchSelection([], 0, 0)));
    }
    var ranks := BuildRanks(subs, n, all);
    ghost var sel;
    sel := SelectSlots(ranks, batch, all, n);
    var results := ReportAll(ranks, slotToId, all, n, sel);
    outcome := Solved(results);
  }
}
