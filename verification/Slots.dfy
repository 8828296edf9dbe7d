/** The global view of a patch set spread over ranks: slots in rank-major order. */
module Slots {
  import opened Sequences
  import opened Csr

  /** Local patch p is global slot base + p. */
  ghost predicate Placed(patches: PatchCsr, all: seq<set<nat>>, base: nat)
    requires patches.Valid()
  {
    && base + patches.M() <= |all|
    && forall p :: 0 <= p < patches.M() ==> all[base + p] == ToSet(patches.Patch(p))
  }

  /** Which patches, under which caller IDs, each rank holds. */
  datatype Layout = Layout(stores: seq<PatchCsr>, ids: seq<seq<nat>>, n: nat) {
    ghost predicate Valid() {
      && |stores| == |ids| > 0
      && (forall r :: 0 <= r < |stores| ==> stores[r].Clean(n))
      && (forall r :: 0 <= r < |stores| ==> |ids[r]| == stores[r].M())
    }

    ghost function Sets(): (ss: seq<seq<set<nat>>>)
      requires Valid()
      ensures |ss| == |stores| && forall r :: 0 <= r < |stores| ==> ss[r] == stores[r].Sets()
    {
      seq(|stores|, r requires 0 <= r < |stores| => assert stores[r].Clean(n); stores[r].Sets())
    }

    /** All patches of all ranks, in slot order: rank by rank, then local index. */
    ghost function All(): seq<set<nat>>
      requires Valid()
    {
      Flatten(Sets())
    }

    ghost function AllIds(): seq<nat> {
      Flatten(ids)
    }

    ghost function Base(r: nat): nat
      requires Valid() && r <= |stores|
    {
      Start(Sets(), r)
    }
  }

  lemma SlotCounts(l: Layout, r: nat)
    requires l.Valid() && r <= |l.stores|
    ensures Start(l.ids, r) == l.Base(r) && |l.AllIds()| == |l.All()|
  {
    FlattenLength(l.Sets());
    FlattenLength(l.ids);
    assert Lengths(l.Sets()) == Lengths(l.ids);
    StartIsSum(l.Sets(), r);
    StartIsSum(l.ids, r);
  }

  lemma SlotsMatch(l: Layout, r: nat)
    requires l.Valid() && r < |l.stores|
    ensures l.stores[r].Valid() && Placed(l.stores[r], l.All(), l.Base(r))
  {
    var ss := l.Sets();
    FlattenSlice(ss, r);
    forall p | 0 <= p < l.stores[r].M() ensures l.All()[l.Base(r) + p] == ToSet(l.stores[r].Patch(p)) {
      FlattenAt(ss, r, p);
    }
  }

  lemma IdsMatch(l: Layout, r: nat, p: nat)
    requires l.Valid() && r < |l.stores| && p < l.stores[r].M()
    ensures l.Base(r) + p < |l.All()| == |l.AllIds()| && l.AllIds()[l.Base(r) + p] == l.ids[r][p]
  {
    SlotCounts(l, r);
    FlattenAt(l.ids, r, p);
  }

  lemma AllWithin(l: Layout, s: nat)
    requires l.Valid() && s < |l.All()|
    ensures l.All()[s] <= Range(l.n)
  {
    var r, p := FlattenLocate(l.Sets(), s);
    CleanPatch(l.stores[r], l.n, p);
  }

  /** A smaller slot is on a smaller rank, or earlier on the same rank. */
  lemma SlotOrder(l: Layout, r: nat, p: nat, t: nat, q: nat)
    requires l.Valid() && r < |l.stores| && t < |l.stores|
    requires p < l.stores[r].M() && q < l.stores[t].M()
    ensures l.Base(r) + p < l.Base(t) + q ==> r < t || (r == t && p < q)
  {
    FlattenPrefix(l.Sets(), t);
    if t < r { StartMonotone(l.Sets(), t + 1, r); }
  }

  /** A slot belongs to one rank only. */
  lemma SameSlot(l: Layout, r: nat, p: nat, t: nat, q: nat)
    requires l.Valid() && r < |l.stores| && t < |l.stores|
    requires p < l.stores[r].M() && q < l.stores[t].M() && l.Base(r) + p == l.Base(t) + q
    ensures r == t && p == q
  {
    OnePlace(l.Sets(), r, p, t, q);
  }
}
