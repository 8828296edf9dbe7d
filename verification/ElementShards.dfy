/** Static element shards: rank r owns IDs [r*ceil(n/P), (r+1)*ceil(n/P)) below n, and holds
    the part of every patch that falls into its shard. */
module ElementShards {
  import opened Arithmetic
  import opened Sequences
  import opened Sorting
  import opened Csr
  import opened Slots
  import opened Collectives
  import opened Routing

  function ShardSize(n: nat, size: nat): (z: nat)
    requires size > 0
    ensures z * size >= n
    ensures if n > 0 then z > 0 && (z - 1) * size < n else z == 0
  {
    var z := (n + size - 1) / size;
    DivBounds(n + size - 1, size);
    assert z > 0 ==> (z - 1) * size == z * size - size;
    z
  }

  /** The shards are even: with z the smallest share that holds n elements on P ranks, rank r
      owns exactly the elements from r·z up to (r + 1)·z that there are. */
  lemma EvenShards(n: nat, size: nat, r: nat, z: nat, e: nat)
    requires size > 0 && z * size >= n && if n > 0 then z > 0 && (z - 1) * size < n else z == 0
    ensures ShardBase(n, size, r) <= e < ShardBase(n, size, r) + ShardExtent(n, size, r) <==> e < n && r * z <= e < (r + 1) * z
  {
    SmallestShare(n, size, z, ShardSize(n, size));
    hide ShardSize;
    NextMultiple(r, z);
  }

  lemma SmallestShare(n: nat, size: nat, a: nat, b: nat)
    requires size > 0 && a * size >= n && if n > 0 then a > 0 && (a - 1) * size < n else a == 0
    requires b * size >= n && if n > 0 then b > 0 && (b - 1) * size < n else b == 0
    ensures a == b
  {
    if a < b { MulLe(a, b - 1, size); }
    if b < a { MulLe(b, a - 1, size); }
  }

  function ShardBase(n: nat, size: nat, r: nat): (b: nat)
    requires size > 0
    ensures b <= n
  {
    var start := r * ShardSize(n, size);
    if start < n then start else n
  }

  function ShardExtent(n: nat, size: nat, r: nat): nat
    requires size > 0
  {
    BaseGrows(n, size, r);
    ShardBase(n, size, r + 1) - ShardBase(n, size, r)
  }

  lemma BaseGrows(n: nat, size: nat, r: nat)
    requires size > 0
    ensures ShardBase(n, size, r) <= ShardBase(n, size, r + 1)
  {
    var z := ShardSize(n, size);
    assert (r + 1) * z == r * z + z;
  }

  lemma ShardsTile(n: nat, size: nat)
    requires size > 0
    ensures ShardBase(n, size, 0) == 0 && ShardBase(n, size, size) == n
  {
    var z := ShardSize(n, size);
    assert size * z == z * size;
  }

  /** The rank an element's incidences fly to. */
  function OwnerOf(n: nat, size: nat, e: nat): nat
    requires size > 0
  {
    var z := ShardSize(n, size);
    if z > 0 then e / z else 0
  }

  lemma OwnerHolds(n: nat, size: nat, e: nat)
    requires size > 0 && e < n
    ensures OwnerOf(n, size, e) < size
    ensures var r := OwnerOf(n, size, e); ShardBase(n, size, r) <= e < ShardBase(n, size, r) + ShardExtent(n, size, r)
  {
    var z := ShardSize(n, size);
    var r := e / z;
    DivBounds(e, z);
    assert (r + 1) * z == r * z + z;
    if r >= size { MulLe(size, r, z); }
  }

  lemma OwnerUniqueRank(n: nat, size: nat, e: nat, r: nat)
    requires size > 0 && e < n && r < size
    requires ShardBase(n, size, r) <= e < ShardBase(n, size, r) + ShardExtent(n, size, r)
    ensures OwnerOf(n, size, e) == r
  {
    var z := ShardSize(n, size);
    hide ShardSize;
    NextMultiple(r, z);
    DivUnique(e, r, z);
  }

  // ----- the part of a set inside one shard ------------------------------------

  /** Shard-local IDs of the elements of x that rank r owns. */
  ghost function Local(x: set<nat>, base: nat, extent: nat): set<nat> {
    set l | l in Range(extent) && base + l in x
  }

  ghost function LocalSizes(x: set<nat>, n: nat, size: nat): (s: seq<int>)
    requires size > 0
    ensures |s| == size && forall r :: 0 <= r < size ==> s[r] == |Local(x, ShardBase(n, size, r), ShardExtent(n, size, r))|
  {
    seq(size, r requires 0 <= r < size => |Local(x, ShardBase(n, size, r), ShardExtent(n, size, r))|)
  }

  ghost function Below(x: set<nat>, b: nat): set<nat> {
    set e | e in x && e < b
  }

  lemma BelowStep(x: set<nat>, b: nat)
    ensures |Below(x, b + 1)| == |Below(x, b)| + (if b in x then 1 else 0)
  {
    assert Below(x, b + 1) == if b in x then Below(x, b) + {b} else Below(x, b);
  }

  lemma LocalStep(x: set<nat>, base: nat, k: nat)
    ensures |Local(x, base, k + 1)| == |Local(x, base, k)| + (if base + k in x then 1 else 0)
  {
    hide Range;
    assert Local(x, base, k + 1) == if base + k in x then Local(x, base, k) + {k} else Local(x, base, k);
  }

  lemma {:induction false} ShiftSize(x: set<nat>, base: nat, extent: nat)
    ensures |Below(x, base + extent)| == |Below(x, base)| + |Local(x, base, extent)|
    decreases extent
  {
    hide Below, Local;
    if extent == 0 {
      NoneLocal(x, base);
    } else {
      var k := extent - 1;
      ShiftSize(x, base, k);
      BelowStep(x, base + k);
      LocalStep(x, base, k);
    }
  }

  lemma NoneLocal(x: set<nat>, base: nat)
    ensures Local(x, base, 0) == {} && Below(x, 0) == {}
  {
  }

  lemma {:induction false} LocalSizesBelow(x: set<nat>, n: nat, size: nat, r: nat)
    requires size > 0 && r <= size
    ensures Sum(LocalSizes(x, n, size)[..r]) == |Below(x, ShardBase(n, size, r))|
  {
    hide ShardBase, Below, Local;
    if r == 0 {
      ShardsTile(n, size);
      NoneLocal(x, 0);
    } else {
      LocalSizesBelow(x, n, size, r - 1);
      SumPrefix(LocalSizes(x, n, size), r - 1);
      ShiftSize(x, ShardBase(n, size, r - 1), ShardExtent(n, size, r - 1));
    }
  }

  /** Every element lives in exactly one shard: the parts of a set add up to the set. */
  lemma LocalSizesSum(x: set<nat>, n: nat, size: nat)
    requires size > 0 && x <= Range(n)
    ensures Sum(LocalSizes(x, n, size)) == |x|
  {
    LocalSizesBelow(x, n, size, size);
    ShardsTile(n, size);
    assert LocalSizes(x, n, size)[..size] == LocalSizes(x, n, size);
    assert Below(x, n) == x;
  }

  // ----- the sub-store built from received incidences --------------------------

  ghost function CountBelow(s: seq<nat>, v: nat): nat {
    if s == [] then 0 else CountBelow(s[..|s| - 1], v) + (if s[|s| - 1] < v then 1 else 0)
  }

  /** How many entries are just below t, that is equal to t - 1. */
  ghost function CountOf(s: seq<nat>, t: nat): nat {
    if s == [] then 0 else CountOf(s[..|s| - 1], t) + (if s[|s| - 1] + 1 == t then 1 else 0)
  }

  lemma {:induction false} CountStep(s: seq<nat>, v: nat)
    ensures CountBelow(s, v + 1) == CountBelow(s, v) + CountOf(s, v + 1)
    ensures CountBelow(s, 0) == 0
  {
    if s != [] { CountStep(s[..|s| - 1], v); }
  }

  lemma CountOfSnoc(s: seq<nat>, i: nat, t: nat)
    requires i < |s|
    ensures CountOf(s[..i + 1], t) == CountOf(s[..i], t) + (if s[i] + 1 == t then 1 else 0)
  {
    assert s[..i + 1][..i] == s[..i];
  }

  lemma {:induction false} CountBelowIsBound(s: seq<nat>, v: nat)
    requires Ascending(s)
    ensures CountBelow(s, v) == LowerBound(s, v)
  {
    if s != [] {
      var n := |s| - 1;
      CountBelowIsBound(s[..n], v);
      if s[n] < v { LowerBoundIs(s[..n], v, n); LowerBoundIs(s, v, n + 1); }
      else { var k := LowerBound(s[..n], v); LowerBoundIs(s, v, k); }
    }
  }

  lemma {:induction false} CountBelowAll(s: seq<nat>, v: nat)
    requires forall i :: 0 <= i < |s| ==> s[i] < v
    ensures CountBelow(s, v) == |s|
  {
    if s != [] { CountBelowAll(s[..|s| - 1], v); }
  }

  /** Histogram of the slots, then prefix sums in place. */
  method SlotOffsets(slots: seq<nat>, m: nat) returns (offsets: seq<nat>)
    requires forall i :: 0 <= i < |slots| ==> slots[i] < m
    ensures |offsets| == m + 1 && forall s :: 0 <= s <= m ==> offsets[s] == CountBelow(slots, s)
  {
    var offs := seq(m + 1, _ => 0);
    for i := 0 to |slots|
      invariant |offs| == m + 1 && offs[0] == 0
      invariant forall t :: 1 <= t <= m ==> offs[t] == CountOf(slots[..i], t)
    {
      forall t | 1 <= t <= m
        ensures CountOf(slots[..i + 1], t) == CountOf(slots[..i], t) + (if slots[i] + 1 == t then 1 else 0)
      {
        CountOfSnoc(slots, i, t);
      }
      offs := offs[slots[i] + 1 := offs[slots[i] + 1] + 1];
    }
    assert slots[..|slots|] == slots;
    CountStep(slots, 0);
    for s := 0 to m
      invariant |offs| == m + 1
      invariant forall q :: 0 <= q <= s ==> offs[q] == CountBelow(slots, q)
      invariant forall q :: s < q <= m ==> offs[q] == CountOf(slots, q)
    {
      CountStep(slots, s);
      offs := offs[s + 1 := offs[s + 1] + offs[s]];
    }
    offsets := offs;
  }

  /** The received incidences, sorted by slot then element, as a store over all m slots. */
  method BuildSubStore(inc: seq<(nat, nat)>, m: nat) returns (sub: PatchCsr)
    requires Distinct(inc) && forall i :: 0 <= i < |inc| ==> inc[i].0 < m
    ensures sub.Valid() && sub.M() == m
    ensures forall s :: 0 <= s < m ==> StrictlyAscending(sub.Patch(s))
    ensures forall s, e: nat :: 0 <= s < m ==> (e in sub.Patch(s) <==> (s, e) in inc)
  {
    var slots := seq(|inc|, i requires 0 <= i < |inc| => inc[i].0);
    var elems := seq(|inc|, i requires 0 <= i < |inc| => inc[i].1);
    var order := StableOrder(slots, elems);
    var sortedSlots := seq(|inc|, i requires 0 <= i < |inc| => slots[order[i]]);
    var sortedElems := seq(|inc|, i requires 0 <= i < |inc| => elems[order[i]]);
    var offsets := SlotOffsets(sortedSlots, m);
    sub := PatchCsr(sortedElems, offsets);
    SubStoreValid(sub, sortedSlots, slots, elems, order, m);
    forall s | 0 <= s < m
      ensures StrictlyAscending(sub.Patch(s)) && forall e: nat :: e in sub.Patch(s) <==> (s, e) in inc
    {
      SubRow(sub, inc, sortedSlots, slots, elems, order, m, s);
    }
  }

  lemma SubStoreValid(sub: PatchCsr, sortedSlots: seq<nat>, slots: seq<nat>, elems: seq<nat>, order: seq<nat>, m: nat)
    requires |slots| == |elems| && IsStableOrder(slots, elems, order)
    requires |sortedSlots| == |slots| == |sub.data| && forall i :: 0 <= i < |slots| ==> sortedSlots[i] == slots[order[i]]
    requires forall i :: 0 <= i < |slots| ==> slots[i] < m
    requires |sub.offsets| == m + 1 && forall s :: 0 <= s <= m ==> sub.offsets[s] == CountBelow(sortedSlots, s)
    ensures Ascending(sortedSlots) && sub.Valid() && sub.M() == m
    ensures forall s :: 0 <= s <= m ==> sub.offsets[s] == LowerBound(sortedSlots, s)
  {
    forall i, j | 0 <= i <= j < |slots| ensures sortedSlots[i] <= sortedSlots[j] {
      if i < j { assert Before(slots, elems, order[i], order[j]); }
    }
    CountStep(sortedSlots, 0);
    CountBelowAll(sortedSlots, m);
    forall s | 0 <= s <= m ensures sub.offsets[s] == LowerBound(sortedSlots, s) { CountBelowIsBound(sortedSlots, s); }
    forall a, b | 0 <= a <= b <= m ensures sub.offsets[a] <= sub.offsets[b] { BoundsAscend(sortedSlots, a, b); }
  }

  lemma BoundsAscend(s: seq<nat>, a: nat, b: nat)
    requires Ascending(s) && a <= b
    ensures LowerBound(s, a) <= LowerBound(s, b)
  {
    var x := LowerBound(s, b);
    assert x < |s| ==> s[x] >= b;
  }

  lemma SubRow(sub: PatchCsr, inc: seq<(nat, nat)>, sortedSlots: seq<nat>, slots: seq<nat>, elems: seq<nat>,
               order: seq<nat>, m: nat, s: nat)
    requires Distinct(inc) && |slots| == |elems| == |inc| && IsStableOrder(slots, elems, order)
    requires forall i :: 0 <= i < |inc| ==> slots[i] == inc[i].0 && elems[i] == inc[i].1
    requires |sortedSlots| == |inc| == |sub.data|
    requires forall i :: 0 <= i < |inc| ==> sortedSlots[i] == slots[order[i]] && sub.data[i] == elems[order[i]]
    requires Ascending(sortedSlots) && sub.Valid() && sub.M() == m && s < m
    requires forall s :: 0 <= s <= m ==> sub.offsets[s] == LowerBound(sortedSlots, s)
    ensures StrictlyAscending(sub.Patch(s)) && forall e: nat :: e in sub.Patch(s) <==> (s, e) in inc
  {
    SubRowAscends(sub, inc, sortedSlots, slots, elems, order, m, s);
    var a, b := sub.offsets[s], sub.offsets[s + 1];
    assert b <= sub.offsets[|sub.offsets| - 1];
    forall e: nat ensures e in sub.Patch(s) <==> (s, e) in inc {
      if e in sub.Patch(s) {
        var i := SliceFind(sub.data, a, b, e);
        assert sortedSlots[i] == s;
        assert inc[order[i]] == (s, e);
      }
      if (s, e) in inc {
        var i :| 0 <= i < |inc| && inc[i] == (s, e);
        assert i in order;
        var j :| 0 <= j < |order| && order[j] == i;
        assert sortedSlots[j] == s;
        SliceHolds(sub.data, a, b, j);
      }
    }
  }

  lemma SubRowAscends(sub: PatchCsr, inc: seq<(nat, nat)>, sortedSlots: seq<nat>, slots: seq<nat>, elems: seq<nat>,
                      order: seq<nat>, m: nat, s: nat)
    requires Distinct(inc) && |slots| == |elems| == |inc| && IsStableOrder(slots, elems, order)
    requires forall i :: 0 <= i < |inc| ==> slots[i] == inc[i].0 && elems[i] == inc[i].1
    requires |sortedSlots| == |inc| == |sub.data|
    requires forall i :: 0 <= i < |inc| ==> sortedSlots[i] == slots[order[i]] && sub.data[i] == elems[order[i]]
    requires Ascending(sortedSlots) && sub.Valid() && sub.M() == m && s < m
    requires forall s :: 0 <= s <= m ==> sub.offsets[s] == LowerBound(sortedSlots, s)
    ensures StrictlyAscending(sub.Patch(s))
  {
    var a, b := sub.offsets[s], sub.offsets[s + 1];
    assert b <= sub.offsets[|sub.offsets| - 1];
    assert forall i :: a <= i < b ==> sortedSlots[i] == s;
    hide Distinct, IsStableOrder, Ascending, LowerBound;
    forall i, j | a <= i < j < b ensures sub.data[i] < sub.data[j] {
      SameSlotAscends(inc, slots, elems, order, i, j);
    }
    WindowAscends(sub.data, a, b);
  }

  lemma WindowAscends(data: seq<nat>, a: nat, b: nat)
    requires a <= b <= |data| && forall i, j :: a <= i < j < b ==> data[i] < data[j]
    ensures StrictlyAscending(data[a..b])
  {
  }

  /** Among distinct incidences of one slot, sorting by slot and element sorts strictly. */
  lemma SameSlotAscends(inc: seq<(nat, nat)>, slots: seq<nat>, elems: seq<nat>, order: seq<nat>, i: nat, j: nat)
    requires Distinct(inc) && |slots| == |elems| == |inc| && IsStableOrder(slots, elems, order)
    requires forall i :: 0 <= i < |inc| ==> slots[i] == inc[i].0 && elems[i] == inc[i].1
    requires i < j < |order| && slots[order[i]] == slots[order[j]]
    ensures elems[order[i]] < elems[order[j]]
  {
    assert Before(slots, elems, order[i], order[j]);
    assert order[i] < order[j] ==> inc[order[i]] != inc[order[j]];
  }

  // ----- redistribution --------------------------------------------------------

  ghost predicate Incident(x: (nat, nat), lists: seq<seq<nat>>, start: nat) {
    start <= x.0 < start + |lists| && x.1 in lists[x.0 - start]
  }

  /** The (slot, element) incidences of one rank's patches, with their owner ranks. */
  method ListIncidences(lists: seq<seq<nat>>, start: nat, n: nat, size: nat)
    returns (items: seq<(nat, nat)>, targets: seq<nat>)
    requires size > 0 && forall p :: 0 <= p < |lists| ==> StrictlyAscending(lists[p])
    ensures |items| == |targets| && forall i :: 0 <= i < |items| ==> targets[i] == OwnerOf(n, size, items[i].1)
    ensures Distinct(items) && forall x: (nat, nat) :: x in items <==> Incident(x, lists, start)
  {
    hide OwnerOf;
    items, targets := [], [];
    for p := 0 to |lists|
      invariant |items| == |targets| && forall i :: 0 <= i < |items| ==> targets[i] == OwnerOf(n, size, items[i].1)
      invariant Distinct(items) && forall x: (nat, nat) :: x in items <==> Incident(x, lists[..p], start)
    {
      var rowItems, rowTargets := ListRow(lists[p], start + p, n, size);
      AppendRow(items, rowItems, lists, p, start);
      items, targets := items + rowItems, targets + rowTargets;
    }
    assert lists[..|lists|] == lists;
  }

  method ListRow(row: seq<nat>, slot: nat, n: nat, size: nat) returns (items: seq<(nat, nat)>, targets: seq<nat>)
    requires size > 0
    ensures |items| == |targets| == |row|
    ensures forall i :: 0 <= i < |row| ==> items[i] == (slot, row[i]) && targets[i] == OwnerOf(n, size, row[i])
  {
    items, targets := [], [];
    for i := 0 to |row|
      invariant |items| == |targets| == i
      invariant forall j :: 0 <= j < i ==> items[j] == (slot, row[j]) && targets[j] == OwnerOf(n, size, row[j])
    {
      items, targets := items + [(slot, row[i])], targets + [OwnerOf(n, size, row[i])];
    }
  }

  lemma AppendRow(items: seq<(nat, nat)>, row: seq<(nat, nat)>, lists: seq<seq<nat>>, p: nat, start: nat)
    requires p < |lists| && StrictlyAscending(lists[p]) && |row| == |lists[p]|
    requires forall i :: 0 <= i < |row| ==> row[i] == (start + p, lists[p][i])
    requires Distinct(items) && forall x: (nat, nat) :: x in items <==> Incident(x, lists[..p], start)
    ensures Distinct(items + row) && forall x: (nat, nat) :: x in items + row <==> Incident(x, lists[..p + 1], start)
  {
    forall i | 0 <= i < |items| ensures items[i].0 < start + p {
      assert items[i] in items;
    }
    forall x: (nat, nat) ensures x in items + row <==> Incident(x, lists[..p + 1], start) {
      assert x in items + row <==> x in items || x in row;
      if x in row {
        var i :| 0 <= i < |row| && row[i] == x;
        assert lists[..p + 1][p] == lists[p];
      }
      if Incident(x, lists[..p + 1], start) && x.0 == start + p {
        var i :| 0 <= i < |lists[p]| && lists[p][i] == x.1;
        assert row[i] == x;
      }
    }
  }

  /** What every rank must hold after redistribution: of every slot, exactly the part of
      the patch in its shard, ascending, in shard-local IDs. */
  ghost predicate IsShardOf(sub: PatchCsr, all: seq<set<nat>>, base: nat, extent: nat) {
    && sub.Clean(extent) && sub.M() == |all|
    && forall s :: 0 <= s < |all| ==> ToSet(sub.Patch(s)) == Local(all[s], base, extent)
  }

  /** l is the layout whose stores are built from the ranks' ID lists. */
  ghost predicate ListsOf(l: Layout, lists: seq<seq<seq<nat>>>) {
    && l.Valid() && |lists| == |l.stores|
    && forall r :: 0 <= r < |lists| ==> l.stores[r].Lists() == lists[r]
  }

  lemma SlotIncidence(l: Layout, lists: seq<seq<seq<nat>>>, r: nat, x: (nat, nat))
    requires ListsOf(l, lists) && r < |lists|
    ensures Incident(x, lists[r], l.Base(r)) <==>
            l.Base(r) <= x.0 < l.Base(r) + l.stores[r].M() && x.0 < |l.All()| && x.1 in l.All()[x.0]
  {
    assert l.stores[r].Lists() == lists[r];
    SlotsMatch(l, r);
    if l.Base(r) <= x.0 < l.Base(r) + l.stores[r].M() {
      var p := x.0 - l.Base(r);
      assert lists[r][p] == l.stores[r].Patch(p);
    }
  }

  /** Every incidence whose element rank t owns arrives at rank t, and exactly once. */
  lemma Arrivals(l: Layout, lists: seq<seq<seq<nat>>>, items: seq<seq<(nat, nat)>>, targets: seq<seq<nat>>,
                 bufs: seq<seq<(nat, nat)>>, counts: seq<seq<nat>>, t: nat)
    requires ListsOf(l, lists) && |items| == |targets| == |bufs| == |counts| == |lists| && t < |lists|
    requires forall r :: 0 <= r < |items| ==> |items[r]| == |targets[r]| && Distinct(items[r])
    requires forall r, i :: 0 <= r < |items| && 0 <= i < |items[r]| ==> targets[r][i] == OwnerOf(l.n, |lists|, items[r][i].1)
    requires forall r, x: (nat, nat) :: 0 <= r < |items| ==> (x in items[r] <==> Incident(x, lists[r], l.Base(r)))
    requires Exchangeable(bufs, counts)
    requires forall r :: 0 <= r < |items| ==> Column(bufs, counts, t)[r] == Bucket(items[r], targets[r], t)
    ensures Distinct(Alltoallv(bufs, counts)[t])
    ensures forall x: (nat, nat) :: x in Alltoallv(bufs, counts)[t] <==>
              x.0 < |l.All()| && x.1 in l.All()[x.0] && OwnerOf(l.n, |lists|, x.1) == t
  {
    hide OwnerOf, Bucket, Layout.All, Layout.Base;
    ArrivalsDistinct(l, lists, items, targets, bufs, counts, t);
    forall x: (nat, nat) ensures x in Alltoallv(bufs, counts)[t] <==>
        x.0 < |l.All()| && x.1 in l.All()[x.0] && OwnerOf(l.n, |lists|, x.1) == t
    {
      ReceivedMember(items, targets, bufs, counts, t, x);
      if x in Alltoallv(bufs, counts)[t] {
        var r, i :| 0 <= r < |items| && 0 <= i < |items[r]| && items[r][i] == x && targets[r][i] == t;
        assert x in items[r];
        SlotIncidence(l, lists, r, x);
      }
      if x.0 < |l.All()| && x.1 in l.All()[x.0] && OwnerOf(l.n, |lists|, x.1) == t {
        var r, p := LocateSlot(l, x.0);
        SlotIncidence(l, lists, r, x);
        assert x in items[r];
        var i :| 0 <= i < |items[r]| && items[r][i] == x;
      }
    }
  }

  lemma LocateSlot(l: Layout, s: nat) returns (r: nat, p: nat)
    requires l.Valid() && s < |l.All()|
    ensures r < |l.stores| && p < l.stores[r].M() && s == l.Base(r) + p
  {
    r, p := FlattenLocate(l.Sets(), s);
  }

  lemma ArrivalsDistinct(l: Layout, lists: seq<seq<seq<nat>>>, items: seq<seq<(nat, nat)>>, targets: seq<seq<nat>>,
                         bufs: seq<seq<(nat, nat)>>, counts: seq<seq<nat>>, t: nat)
    requires ListsOf(l, lists) && |items| == |targets| == |bufs| == |counts| == |lists| && t < |lists|
    requires forall r :: 0 <= r < |items| ==> |items[r]| == |targets[r]| && Distinct(items[r])
    requires forall r, x: (nat, nat) :: 0 <= r < |items| ==> (x in items[r] <==> Incident(x, lists[r], l.Base(r)))
    requires Exchangeable(bufs, counts)
    requires forall r :: 0 <= r < |items| ==> Column(bufs, counts, t)[r] == Bucket(items[r], targets[r], t)
    ensures Distinct(Alltoallv(bufs, counts)[t])
  {
    hide Bucket, Layout.All, Layout.Base;
    var col := Column(bufs, counts, t);
    forall r | 0 <= r < |col| ensures Distinct(col[r]) {
      BucketDistinct(items[r], targets[r], t);
    }
    forall q, r, x: (nat, nat) | 0 <= q < r < |col| && x in col[q] ensures x !in col[r] {
      BucketMember(items[q], targets[q], t, x);
      BucketMember(items[r], targets[r], t, x);
      assert col[q] == Bucket(items[q], targets[q], t);
      assert x in items[q];
      SlotIncidence(l, lists, q, x);
      SlotIncidence(l, lists, r, x);
      if x in items[r] { SameSlot(l, q, x.0 - l.Base(q), r, x.0 - l.Base(r)); }
    }
    FlattenDistinct(col);
  }

  /** recv holds exactly the incidences whose element rank `rank` owns. */
  ghost predicate Delivered(recv: seq<(nat, nat)>, all: seq<set<nat>>, n: nat, size: nat, rank: nat)
    requires size > 0
  {
    forall x: (nat, nat) :: x in recv <==> x.0 < |all| && x.1 in all[x.0] && OwnerOf(n, size, x.1) == rank
  }

  /** Every rank received exactly the incidences it owns, each once. */
  ghost predicate AllDelivered(recv: seq<seq<(nat, nat)>>, all: seq<set<nat>>, n: nat) {
    forall t :: 0 <= t < |recv| ==> Distinct(recv[t]) && Delivered(recv[t], all, n, |recv|, t)
  }

  /** One rank's received incidences, made shard-local and stored. */
  method StoreShard(recv: seq<(nat, nat)>, m: nat, n: nat, size: nat, rank: nat, ghost all: seq<set<nat>>) returns (sub: PatchCsr)
    requires size > 0 && rank < size && m == |all| && forall s :: 0 <= s < m ==> all[s] <= Range(n)
    requires Distinct(recv)
    requires Delivered(recv, all, n, size, rank)
    ensures IsShardOf(sub, all, ShardBase(n, size, rank), ShardExtent(n, size, rank))
  {
    hide OwnerOf, ShardBase, ShardExtent, Distinct, Local, IsShardOf, Delivered;
    var base := ShardBase(n, size, rank);
    ArrivedHere(recv, m, n, size, rank, all);
    var inc := seq(|recv|, i requires 0 <= i < |recv| => (recv[i].0, recv[i].1 - base));
    ShiftedDistinct(recv, inc, base);
    sub := BuildSubStore(inc, m);
    RowsAreLocal(recv, inc, n, size, rank, all, sub);
    ShardClean(sub, all, base, ShardExtent(n, size, rank));
  }

  lemma RowsAreLocal(recv: seq<(nat, nat)>, inc: seq<(nat, nat)>, n: nat, size: nat, rank: nat, all: seq<set<nat>>,
                     sub: PatchCsr)
    requires size > 0 && rank < size && forall s :: 0 <= s < |all| ==> all[s] <= Range(n)
    requires Delivered(recv, all, n, size, rank)
    requires |inc| == |recv|
    requires forall i :: 0 <= i < |recv| ==>
      ShardBase(n, size, rank) <= recv[i].1 && inc[i] == (recv[i].0, recv[i].1 - ShardBase(n, size, rank))
    requires sub.Valid() && sub.M() == |all|
    requires forall s, e: nat :: 0 <= s < |all| ==> (e in sub.Patch(s) <==> (s, e) in inc)
    ensures forall s :: 0 <= s < |all| ==>
      ToSet(sub.Patch(s)) == Local(all[s], ShardBase(n, size, rank), ShardExtent(n, size, rank))
  {
    hide OwnerOf, ShardBase, ShardExtent, Local;
    forall s | 0 <= s < |all|
      ensures ToSet(sub.Patch(s)) == Local(all[s], ShardBase(n, size, rank), ShardExtent(n, size, rank))
    {
      RowIsLocal(recv, inc, n, size, rank, all, sub, s);
    }
  }

  lemma ArrivedHere(recv: seq<(nat, nat)>, m: nat, n: nat, size: nat, rank: nat, all: seq<set<nat>>)
    requires size > 0 && rank < size && m == |all| && forall s :: 0 <= s < m ==> all[s] <= Range(n)
    requires Delivered(recv, all, n, size, rank)
    ensures forall i :: 0 <= i < |recv| ==> recv[i].0 < m && ShardBase(n, size, rank) <= recv[i].1
  {
    hide OwnerOf, ShardBase, ShardExtent;
    forall i | 0 <= i < |recv| ensures recv[i].0 < m && ShardBase(n, size, rank) <= recv[i].1 {
      assert recv[i] in recv;
      assert recv[i].1 in all[recv[i].0];
      OwnerHolds(n, size, recv[i].1);
    }
  }

  lemma RowIsLocal(recv: seq<(nat, nat)>, inc: seq<(nat, nat)>, n: nat, size: nat, rank: nat, all: seq<set<nat>>,
                   sub: PatchCsr, s: nat)
    requires size > 0 && rank < size && s < |all| && all[s] <= Range(n)
    requires Delivered(recv, all, n, size, rank)
    requires |inc| == |recv|
    requires forall i :: 0 <= i < |recv| ==>
      ShardBase(n, size, rank) <= recv[i].1 && inc[i] == (recv[i].0, recv[i].1 - ShardBase(n, size, rank))
    requires sub.Valid() && sub.M() == |all| && forall e: nat :: e in sub.Patch(s) <==> (s, e) in inc
    ensures ToSet(sub.Patch(s)) == Local(all[s], ShardBase(n, size, rank), ShardExtent(n, size, rank))
  {
    hide Local, Delivered, ShardBase, ShardExtent;
    forall e: nat ensures e in sub.Patch(s) <==> e in Local(all[s], ShardBase(n, size, rank), ShardExtent(n, size, rank)) {
      RowMember(recv, inc, n, size, rank, all, s, e);
    }
  }

  lemma RowMember(recv: seq<(nat, nat)>, inc: seq<(nat, nat)>, n: nat, size: nat, rank: nat, all: seq<set<nat>>, s: nat, e: nat)
    requires size > 0 && rank < size && s < |all| && all[s] <= Range(n)
    requires Delivered(recv, all, n, size, rank)
    requires |inc| == |recv|
    requires forall i :: 0 <= i < |recv| ==>
      ShardBase(n, size, rank) <= recv[i].1 && inc[i] == (recv[i].0, recv[i].1 - ShardBase(n, size, rank))
    ensures (s, e) in inc <==> e in Local(all[s], ShardBase(n, size, rank), ShardExtent(n, size, rank))
  {
    hide OwnerOf, ShardBase, ShardExtent, Local;
    ShiftedMember(recv, inc, ShardBase(n, size, rank), s, e);
    OwnedIsLocal(all[s], n, size, rank, e);
  }

  lemma LocalMember(x: set<nat>, base: nat, extent: nat, e: nat)
    ensures e in Local(x, base, extent) <==> e < extent && base + e in x
  {
  }

  lemma OwnedIsLocal(x: set<nat>, n: nat, size: nat, rank: nat, e: nat)
    requires size > 0 && rank < size && x <= Range(n)
    ensures e in Local(x, ShardBase(n, size, rank), ShardExtent(n, size, rank))
            <==> ShardBase(n, size, rank) + e in x && OwnerOf(n, size, ShardBase(n, size, rank) + e) == rank
  {
    var base, extent := ShardBase(n, size, rank), ShardExtent(n, size, rank);
    hide OwnerOf, ShardBase, ShardExtent;
    LocalMember(x, base, extent, e);
    hide Local;
    if base + e in x {
      OwnerHolds(n, size, base + e);
      if e < extent { OwnerUniqueRank(n, size, base + e, rank); }
    }
  }

  lemma ShiftedDistinct(recv: seq<(nat, nat)>, inc: seq<(nat, nat)>, base: nat)
    requires Distinct(recv) && |inc| == |recv|
    requires forall i :: 0 <= i < |recv| ==> base <= recv[i].1 && inc[i] == (recv[i].0, recv[i].1 - base)
    ensures Distinct(inc)
  {
    forall i, j | 0 <= i < j < |inc| ensures inc[i] != inc[j] {
      assert recv[i] != recv[j];
    }
  }

  lemma ShiftedMember(recv: seq<(nat, nat)>, inc: seq<(nat, nat)>, base: nat, s: nat, e: nat)
    requires |inc| == |recv|
    requires forall i :: 0 <= i < |recv| ==> base <= recv[i].1 && inc[i] == (recv[i].0, recv[i].1 - base)
    ensures (s, e) in inc <==> (s, base + e) in recv
  {
    if (s, base + e) in recv {
      var i :| 0 <= i < |recv| && recv[i] == (s, base + e);
      assert inc[i] == (s, e);
    }
    if (s, e) in inc {
      var i :| 0 <= i < |inc| && inc[i] == (s, e);
      assert recv[i] == (s, base + e);
    }
  }

  lemma ShardClean(sub: PatchCsr, all: seq<set<nat>>, base: nat, extent: nat)
    requires sub.Valid() && sub.M() == |all|
    requires forall s :: 0 <= s < |all| ==> StrictlyAscending(sub.Patch(s)) && ToSet(sub.Patch(s)) == Local(all[s], base, extent)
    ensures IsShardOf(sub, all, base, extent)
  {
    forall i | 0 <= i < |sub.data| ensures sub.data[i] < extent {
      var s := RowOf(sub, i);
      SliceHolds(sub.data, sub.offsets[s], sub.offsets[s + 1], i);
      assert sub.data[i] in ToSet(sub.Patch(s));
    }
  }

  lemma RowOf(sub: PatchCsr, i: nat) returns (s: nat)
    requires sub.Valid() && i < |sub.data|
    ensures s < sub.M() && sub.offsets[s] <= i < sub.offsets[s + 1] <= |sub.data|
  {
    s := UpperBound(sub.offsets, i) - 1;
    assert sub.offsets[s + 1] <= sub.offsets[|sub.offsets| - 1];
  }

  /** The received slot and element arrays, read side by side. */
  method Rejoin(slots: seq<seq<nat>>, elems: seq<seq<nat>>, ghost both: seq<seq<(nat, nat)>>) returns (pairs: seq<seq<(nat, nat)>>)
    requires slots == EachRank((x: (nat, nat)) => x.0, both) && elems == EachRank((x: (nat, nat)) => x.1, both)
    ensures pairs == both
  {
    pairs := [];
    for t := 0 to |slots|
      invariant |pairs| == t && forall q :: 0 <= q < t ==> pairs[q] == both[q]
    {
      var row := seq(|slots[t]|, i requires 0 <= i < |slots[t]| => (slots[t][i], elems[t][i]));
      assert row == both[t];
      pairs := pairs + [row];
    }
  }

  /** Slots and elements travel separately with one count layout and arrive aligned. */
  method ExchangeIncidences(bufs: seq<seq<(nat, nat)>>, counts: seq<seq<nat>>) returns (arrived: seq<seq<(nat, nat)>>)
    requires Exchangeable(bufs, counts)
    ensures arrived == Alltoallv(bufs, counts)
  {
    hide Alltoallv, Exchangeable;
    AlltoallvEach((x: (nat, nat)) => x.0, bufs, counts);
    AlltoallvEach((x: (nat, nat)) => x.1, bufs, counts);
    var slots := Alltoallv(EachRank((x: (nat, nat)) => x.0, bufs), counts);
    var elems := Alltoallv(EachRank((x: (nat, nat)) => x.1, bufs), counts);
    arrived := Rejoin(slots, elems, Alltoallv(bufs, counts));
  }

  /** All ranks: number the slots, ship every incidence to its owner, build the shards. */
  method Redistribute(lists: seq<seq<seq<nat>>>, n: nat, ghost l: Layout) returns (subs: seq<PatchCsr>)
    requires ListsOf(l, lists) && n == l.n
    ensures |subs| == |lists|
    ensures forall r :: 0 <= r < |subs| ==>
      IsShardOf(subs[r], l.All(), ShardBase(n, |lists|, r), ShardExtent(n, |lists|, r))
  {
    hide OwnerOf, ShardBase, ShardExtent, Bucket, Layout.All, Layout.Base, Incident, IsShardOf, Distinct;
    var size := |lists|;
    var bufs, counts: seq<seq<nat>>, m := RouteAll(lists, n, l);
    var arrived := ExchangeIncidences(bufs, counts);
    subs := [];
    for r := 0 to size
      invariant |subs| == r
      invariant forall t :: 0 <= t < r ==> IsShardOf(subs[t], l.All(), ShardBase(n, size, t), ShardExtent(n, size, t))
    {
      forall s | 0 <= s < |l.All()| ensures l.All()[s] <= Range(n) { AllWithin(l, s); }
      var sub := StoreShard(arrived[r], m, n, size, r, l.All());
      subs := subs + [sub];
    }
  }

  method RouteAll(lists: seq<seq<seq<nat>>>, n: nat, ghost l: Layout)
    returns (bufs: seq<seq<(nat, nat)>>, counts: seq<seq<nat>>, m: nat)
    requires ListsOf(l, lists) && n == l.n
    ensures m == |l.All()|
    ensures |bufs| == |lists| && Exchangeable(bufs, counts)
    ensures AllDelivered(Alltoallv(bufs, counts), l.All(), n)
  {
    hide OwnerOf, Bucket, Layout.All, Layout.Base, Incident, AllRouted, Alltoallv, AllDelivered, Exchangeable;
    var sizes := seq(|lists|, r requires 0 <= r < |lists| => |lists[r]|);
    ghost var items, targets;
    items, targets, bufs, counts := RouteRanks(lists, sizes, n, l);
    SlotStart(l, lists, sizes, |lists|);
    m := Exscan(sizes, |lists|);
    AllArrive(l, lists, items, targets, bufs, counts);
  }

  method RouteRanks(lists: seq<seq<seq<nat>>>, sizes: seq<nat>, n: nat, ghost l: Layout)
    returns (ghost items: seq<seq<(nat, nat)>>, ghost targets: seq<seq<nat>>, bufs: seq<seq<(nat, nat)>>, counts: seq<seq<nat>>)
    requires ListsOf(l, lists) && n == l.n
    requires |sizes| == |lists| && forall r :: 0 <= r < |lists| ==> sizes[r] == |lists[r]|
    ensures AllRouted(l, lists, items, targets, bufs, counts, |lists|)
  {
    assert l.Valid() && |l.stores| == |lists|;
    NothingRouted(l, lists);
    hide Layout.Base, Layout.Valid, Routed, AllRouted, ListsOf, StrictlyAscending;
    ghost var its: seq<seq<(nat, nat)>>, tgts: seq<seq<nat>> := [], [];
    var sends: seq<seq<(nat, nat)>>, lens: seq<seq<nat>> := [], [];
    for r := 0 to |lists|
      invariant AllRouted(l, lists, its, tgts, sends, lens, r)
    {
      SlotStart(l, lists, sizes, r);
      ghost var rankItems, rankTargets;
      var rankCounts, buf;
      rankItems, rankTargets, rankCounts, buf := RouteRank(lists, Exscan(sizes, r), n, |lists|, l, r);
      RoutedSnoc(l, lists, its, tgts, sends, lens, r, rankItems, rankTargets, buf, rankCounts);
      its, tgts := its + [rankItems], tgts + [rankTargets];
      sends, lens := sends + [buf], lens + [rankCounts];
    }
    items, targets, bufs, counts := its, tgts, sends, lens;
  }

  /** The first k ranks have prepared their part of the exchange. */
  ghost predicate AllRouted(l: Layout, lists: seq<seq<seq<nat>>>, items: seq<seq<(nat, nat)>>, targets: seq<seq<nat>>,
                            bufs: seq<seq<(nat, nat)>>, counts: seq<seq<nat>>, k: nat)
    requires ListsOf(l, lists)
  {
    && |items| == |targets| == |bufs| == |counts| == k <= |lists|
    && forall q :: 0 <= q < k ==> Routed(l, lists[q], |lists|, q, items[q], targets[q], bufs[q], counts[q])
  }

  lemma NothingRouted(l: Layout, lists: seq<seq<seq<nat>>>)
    requires ListsOf(l, lists)
    ensures AllRouted(l, lists, [], [], [], [], 0)
  {
  }

  lemma RoutedSnoc(l: Layout, lists: seq<seq<seq<nat>>>, items: seq<seq<(nat, nat)>>, targets: seq<seq<nat>>,
                   bufs: seq<seq<(nat, nat)>>, counts: seq<seq<nat>>, r: nat,
                   rankItems: seq<(nat, nat)>, rankTargets: seq<nat>, buf: seq<(nat, nat)>, rankCounts: seq<nat>)
    requires ListsOf(l, lists) && r < |lists| && AllRouted(l, lists, items, targets, bufs, counts, r)
    requires Routed(l, lists[r], |lists|, r, rankItems, rankTargets, buf, rankCounts)
    ensures AllRouted(l, lists, items + [rankItems], targets + [rankTargets], bufs + [buf], counts + [rankCounts], r + 1)
  {
    assert l.Valid() && |l.stores| == |lists|;
    hide Layout.Valid, Routed, ListsOf;
  }

  /** What one rank prepares for the exchange. */
  ghost predicate Routed(l: Layout, lists: seq<seq<nat>>, size: nat, r: nat, items: seq<(nat, nat)>, targets: seq<nat>,
                         buf: seq<(nat, nat)>, counts: seq<nat>)
    requires l.Valid() && r < |l.stores| && size > 0
  {
    && |items| == |targets| && Distinct(items)
    && (forall i :: 0 <= i < |items| ==> targets[i] == OwnerOf(l.n, size, items[i].1))
    && (forall x: (nat, nat) :: x in items <==> Incident(x, lists, l.Base(r)))
    && counts == Lengths(Buckets(items, targets, size))
    && buf == Flatten(Buckets(items, targets, size))
  }

  method RouteRank(lists: seq<seq<seq<nat>>>, start: nat, n: nat, size: nat, ghost l: Layout, r: nat)
    returns (ghost items: seq<(nat, nat)>, ghost targets: seq<nat>, counts: seq<nat>, buf: seq<(nat, nat)>)
    requires ListsOf(l, lists) && n == l.n && size == |lists| && r < size && start == l.Base(r)
    requires forall p :: 0 <= p < |lists[r]| ==> StrictlyAscending(lists[r][p])
    ensures Routed(l, lists[r], size, r, items, targets, buf, counts)
  {
    var rankItems, rankTargets := ListIncidences(lists[r], start, n, size);
    items, targets := rankItems, rankTargets;
    TargetsValid(l, lists, r, items, targets);
    counts, buf := RouteByTarget(rankItems, rankTargets, size);
  }

  lemma AllArrive(l: Layout, lists: seq<seq<seq<nat>>>, items: seq<seq<(nat, nat)>>, targets: seq<seq<nat>>,
                  bufs: seq<seq<(nat, nat)>>, counts: seq<seq<nat>>)
    requires ListsOf(l, lists) && AllRouted(l, lists, items, targets, bufs, counts, |lists|)
    ensures |bufs| == |lists| && Exchangeable(bufs, counts) && AllDelivered(Alltoallv(bufs, counts), l.All(), l.n)
  {
    hide OwnerOf, Bucket, Layout.All, Layout.Base, Incident, Distinct;
    RoutedExchange(items, targets, bufs, counts);
    forall t | 0 <= t < |lists|
      ensures Distinct(Alltoallv(bufs, counts)[t]) && Delivered(Alltoallv(bufs, counts)[t], l.All(), l.n, |lists|, t)
    {
      Arrivals(l, lists, items, targets, bufs, counts, t);
    }
  }

  lemma SlotStart(l: Layout, lists: seq<seq<seq<nat>>>, sizes: seq<nat>, r: nat)
    requires ListsOf(l, lists) && r <= |lists| == |sizes|
    requires forall r :: 0 <= r < |lists| ==> sizes[r] == |lists[r]|
    ensures Exscan(sizes, r) == l.Base(r)
    ensures r == |lists| ==> Exscan(sizes, r) == |l.All()|
    ensures r < |lists| ==> forall p :: 0 <= p < |lists[r]| ==> StrictlyAscending(lists[r][p])
  {
    StartIsSum(l.Sets(), r);
    forall q | 0 <= q < |lists| ensures Lengths(l.Sets())[q] == sizes[q] {
      assert l.stores[q].Lists() == lists[q];
    }
    assert Lengths(l.Sets()) == sizes;
    assert l.Sets()[..|lists|] == l.Sets();
    if r < |lists| {
      forall p | 0 <= p < |lists[r]| ensures StrictlyAscending(lists[r][p]) {
        assert l.stores[r].Lists()[p] == lists[r][p];
      }
    }
  }

  lemma TargetsValid(l: Layout, lists: seq<seq<seq<nat>>>, r: nat, items: seq<(nat, nat)>, targets: seq<nat>)
    requires ListsOf(l, lists) && r < |lists| && |items| == |targets|
    requires forall i :: 0 <= i < |items| ==> targets[i] == OwnerOf(l.n, |lists|, items[i].1)
    requires forall x: (nat, nat) :: x in items <==> Incident(x, lists[r], l.Base(r))
    ensures forall i :: 0 <= i < |targets| ==> targets[i] < |lists|
  {
    hide OwnerOf;
    forall i | 0 <= i < |targets| ensures targets[i] < |lists| {
      assert items[i] in items;
      SlotIncidence(l, lists, r, items[i]);
      AllWithin(l, items[i].0);
      OwnerHolds(l.n, |lists|, items[i].1);
    }
  }
}
