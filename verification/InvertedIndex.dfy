/** The sparse transpose of a patch store: element -> patches that contain it. */
module InvertedIndexes {
  import opened Sequences
  import opened Csr
  import opened Sorting

  datatype InvertedIndex = InvertedIndex(keys: seq<nat>, offsets: seq<nat>, data: seq<nat>) {
    ghost predicate Valid() {
      && StrictlyAscending(keys)
      && |offsets| == |keys| + 1
      && offsets[0] == 0
      && offsets[|keys|] == |data|
      && Ascending(offsets)
    }

    function Row(k: nat): (s: seq<nat>)
      requires Valid() && k < |keys|
      ensures |s| == offsets[k + 1] - offsets[k]
    {
      data[offsets[k]..offsets[k + 1]]
    }

    /** Binary search; an element that does not occur has no patches. */
    function PatchesOf(e: nat): seq<nat>
      requires Valid()
    {
      var k := LowerBound(keys, e);
      if k == |keys| || keys[k] != e then [] else Row(k)
    }
  }

  /** The row that flat entry i belongs to. */
  function RowAt(inv: InvertedIndex, i: nat): (k: nat)
    requires inv.Valid() && i < |inv.data|
    ensures k < |inv.keys| && inv.offsets[k] <= i < inv.offsets[k + 1]
  {
    UpperBound(inv.offsets, i) - 1
  }

  lemma RowAtIs(inv: InvertedIndex, i: nat, k: nat)
    requires inv.Valid() && k < |inv.keys| && inv.offsets[k] <= i < inv.offsets[k + 1]
    ensures i < |inv.data| && RowAt(inv, i) == k
  {
    assert inv.offsets[k + 1] <= inv.offsets[|inv.keys|];
    UpperBoundIs(inv.offsets, i, k + 1);
  }

  lemma PatchesOfKey(inv: InvertedIndex, k: nat)
    requires inv.Valid() && k < |inv.keys|
    ensures inv.PatchesOf(inv.keys[k]) == inv.Row(k)
  {
    LowerBoundFinds(inv.keys, k);
  }

  lemma PatchesOfMissing(inv: InvertedIndex, e: nat)
    requires inv.Valid() && e !in inv.keys
    ensures inv.PatchesOf(e) == []
  {
  }

  ghost predicate RowIsExact(inv: InvertedIndex, csr: PatchCsr, k: nat)
    requires inv.Valid() && csr.Valid() && k < |inv.keys|
  {
    && inv.Row(k) != []
    && StrictlyAscending(inv.Row(k))
    && forall p: nat :: p in inv.Row(k) <==> p < csr.M() && inv.keys[k] in csr.Patch(p)
  }

  /** inv is exactly the transpose of csr. */
  ghost predicate IsTranspose(inv: InvertedIndex, csr: PatchCsr)
    requires csr.Valid()
  {
    && inv.Valid()
    && |inv.data| == |csr.data|
    && (forall k :: 0 <= k < |inv.keys| ==> RowIsExact(inv, csr, k))
    && (forall e :: e in inv.keys <==> e in csr.data)
  }

  lemma InPatchInData(csr: PatchCsr, p: nat, e: nat)
    requires csr.Valid() && p < csr.M() && e in csr.Patch(p)
    ensures e in csr.data
  {
  }

  /** p is listed under e exactly when e is in patch p, and at most once. */
  lemma TransposeExact(inv: InvertedIndex, csr: PatchCsr, e: nat)
    requires csr.Valid() && IsTranspose(inv, csr)
    ensures StrictlyAscending(inv.PatchesOf(e))
    ensures forall p: nat :: p in inv.PatchesOf(e) <==> p < csr.M() && e in csr.Patch(p)
  {
    if e in inv.keys {
      var k :| 0 <= k < |inv.keys| && inv.keys[k] == e;
      PatchesOfKey(inv, k);
      assert RowIsExact(inv, csr, k);
    } else {
      PatchesOfMissing(inv, e);
      forall p | 0 <= p < csr.M() ensures e !in csr.Patch(p) {
        if e in csr.Patch(p) { InPatchInData(csr, p, e); }
      }
    }
  }

  // ----- transposing back ------------------------------------------------------

  /** The ascending list of keys whose row holds p: patch p read off the index. */
  ghost function KeysHolding(inv: InvertedIndex, p: nat, k: nat): seq<nat>
    requires inv.Valid() && k <= |inv.keys|
  {
    if k == 0 then []
    else KeysHolding(inv, p, k - 1) + (if p in inv.Row(k - 1) then [inv.keys[k - 1]] else [])
  }

  lemma {:induction false} KeysHoldingExact(inv: InvertedIndex, p: nat, k: nat)
    requires inv.Valid() && k <= |inv.keys|
    ensures StrictlyAscending(KeysHolding(inv, p, k))
    ensures forall e :: e in KeysHolding(inv, p, k) <==> exists j :: 0 <= j < k && inv.keys[j] == e && p in inv.Row(j)
  {
    if k > 0 {
      KeysHoldingExact(inv, p, k - 1);
      var init := KeysHolding(inv, p, k - 1);
      forall i | 0 <= i < |init| ensures init[i] < inv.keys[k - 1] {
        assert init[i] in init;
      }
      if p in inv.Row(k - 1) {
        assert KeysHolding(inv, p, k) == init + [inv.keys[k - 1]];
      } else {
        assert KeysHolding(inv, p, k) == init;
      }
    }
  }

  /** Transposing the index again gives back every patch of the store. */
  lemma TransposeTwice(inv: InvertedIndex, csr: PatchCsr, p: nat)
    requires csr.Valid() && IsTranspose(inv, csr) && p < csr.M() && StrictlyAscending(csr.Patch(p))
    ensures KeysHolding(inv, p, |inv.keys|) == csr.Patch(p)
  {
    var n := |inv.keys|;
    KeysHoldingExact(inv, p, n);
    forall e ensures e in KeysHolding(inv, p, n) <==> e in csr.Patch(p) {
      if e in csr.Patch(p) {
        InPatchInData(csr, p, e);
        var k :| 0 <= k < n && inv.keys[k] == e;
        assert RowIsExact(inv, csr, k);
      }
      if j :| 0 <= j < n && inv.keys[j] == e && p in inv.Row(j) {
        assert RowIsExact(inv, csr, j);
      }
    }
    SameElements(KeysHolding(inv, p, n), csr.Patch(p));
  }

  // ----- building --------------------------------------------------------------

  /** Every flat position, with its element and the patch it came from. */
  ghost predicate FlatPairs(csr: PatchCsr, owners: seq<nat>)
    requires csr.Valid()
  {
    && |owners| == |csr.data|
    && forall i :: 0 <= i < |owners| ==>
         owners[i] < csr.M() && csr.offsets[owners[i]] <= i < csr.offsets[owners[i] + 1]
  }

  ghost function Gather(s: seq<nat>, order: seq<nat>): (g: seq<nat>)
    requires forall i :: 0 <= i < |order| ==> order[i] < |s|
    ensures |g| == |order| && forall i :: 0 <= i < |order| ==> g[i] == s[order[i]]
  {
    seq(|order|, i requires 0 <= i < |order| => s[order[i]])
  }

  /** The sorted pairs cut into one group per key. */
  ghost predicate Groups(inv: InvertedIndex, elems: seq<nat>) {
    && inv.Valid()
    && |inv.data| == |elems|
    && (forall k :: 0 <= k < |inv.keys| ==> inv.offsets[k] < inv.offsets[k + 1])
    && (forall k, j :: 0 <= k < |inv.keys| && inv.offsets[k] <= j < inv.offsets[k + 1] ==> elems[j] == inv.keys[k])
  }

  lemma {:induction false} GroupOf(inv: InvertedIndex, j: nat, n: nat) returns (k: nat)
    requires inv.Valid() && n <= |inv.keys| && j < inv.offsets[n]
    ensures k < n && inv.offsets[k] <= j < inv.offsets[k + 1]
  {
    if inv.offsets[n - 1] <= j { k := n - 1; } else { k := GroupOf(inv, j, n - 1); }
  }

  lemma OwnerUnique(csr: PatchCsr, owners: seq<nat>, i: nat, p: nat)
    requires csr.Valid() && FlatPairs(csr, owners)
    requires i < |owners| && p < csr.M() && csr.offsets[p] <= i < csr.offsets[p + 1]
    ensures owners[i] == p
  {
    var q := owners[i];
    var a, b := if q < p then q + 1 else p, if p < q then p + 1 else q;
    assert csr.offsets[a] <= csr.offsets[p] && csr.offsets[b] <= csr.offsets[q];
  }

  lemma PatchAscends(csr: PatchCsr, p: nat, i: nat, j: nat)
    requires csr.Valid() && p < csr.M() && StrictlyAscending(csr.Patch(p))
    requires csr.offsets[p] <= i < j < csr.offsets[p + 1]
    ensures csr.offsets[p + 1] <= |csr.data| && csr.data[i] < csr.data[j]
  {
    var o := csr.offsets[p];
    assert csr.Patch(p)[i - o] == csr.data[i] && csr.Patch(p)[j - o] == csr.data[j];
  }

  lemma RowAscending(inv: InvertedIndex, csr: PatchCsr, owners: seq<nat>, order: seq<nat>, k: nat)
    requires csr.Valid() && FlatPairs(csr, owners) && IsStableOrder(csr.data, owners, order)
    requires forall p :: 0 <= p < csr.M() ==> StrictlyAscending(csr.Patch(p))
    requires Groups(inv, Gather(csr.data, order)) && inv.data == Gather(owners, order)
    requires k < |inv.keys|
    ensures StrictlyAscending(inv.Row(k))
  {
    ghost var elems := Gather(csr.data, order);
    forall i, j | 0 <= i < j < |elems| && elems[i] == elems[j] ensures inv.data[i] < inv.data[j] {
      OwnersAscend(csr, owners, order, i, j);
    }
    hide PatchCsr.Valid, FlatPairs, IsStableOrder, Gather;
    GroupAscends(inv, elems, k);
  }

  lemma GroupAscends(inv: InvertedIndex, elems: seq<nat>, k: nat)
    requires Groups(inv, elems) && k < |inv.keys|
    requires forall i, j :: 0 <= i < j < |elems| && elems[i] == elems[j] ==> inv.data[i] < inv.data[j]
    ensures StrictlyAscending(inv.Row(k))
  {
    forall x, y | 0 <= x < y < |inv.Row(k)| ensures inv.Row(k)[x] < inv.Row(k)[y] {
      RowEntry(inv, elems, k, x);
      RowEntry(inv, elems, k, y);
    }
  }

  lemma RowEntry(inv: InvertedIndex, elems: seq<nat>, k: nat, x: nat)
    requires Groups(inv, elems) && k < |inv.keys| && x < |inv.Row(k)|
    ensures inv.offsets[k] + x < |elems| == |inv.data|
    ensures elems[inv.offsets[k] + x] == inv.keys[k] && inv.Row(k)[x] == inv.data[inv.offsets[k] + x]
  {
    assert inv.offsets[k + 1] <= inv.offsets[|inv.keys|];
  }

  /** Of two sorted positions of the same element the earlier has the smaller owner. */
  lemma OwnersAscend(csr: PatchCsr, owners: seq<nat>, order: seq<nat>, i: nat, j: nat)
    requires csr.Valid() && FlatPairs(csr, owners) && IsStableOrder(csr.data, owners, order)
    requires forall p :: 0 <= p < csr.M() ==> StrictlyAscending(csr.Patch(p))
    requires i < j < |order| && Gather(csr.data, order)[i] == Gather(csr.data, order)[j]
    ensures Gather(owners, order)[i] < Gather(owners, order)[j]
  {
    var x, y := order[i], order[j];
    assert Before(csr.data, owners, x, y);
    if owners[x] == owners[y] && x < y { PatchAscends(csr, owners[x], x, y); }
  }

  lemma RowOnlyOwners(inv: InvertedIndex, csr: PatchCsr, owners: seq<nat>, order: seq<nat>, k: nat, p: nat)
    requires csr.Valid() && FlatPairs(csr, owners) && IsStableOrder(csr.data, owners, order)
    requires Groups(inv, Gather(csr.data, order)) && inv.data == Gather(owners, order)
    requires k < |inv.keys| && p in inv.Row(k)
    ensures p < csr.M() && inv.keys[k] in csr.Patch(p)
  {
    assert inv.offsets[k + 1] <= inv.offsets[|inv.keys|];
    var j := SliceFind(inv.data, inv.offsets[k], inv.offsets[k + 1], p);
    assert owners[order[j]] == p;
    assert Gather(csr.data, order)[j] == inv.keys[k];
    assert csr.offsets[p + 1] <= csr.offsets[|csr.offsets| - 1];
    SliceHolds(csr.data, csr.offsets[p], csr.offsets[p + 1], order[j]);
  }

  lemma OwnerInRow(inv: InvertedIndex, csr: PatchCsr, owners: seq<nat>, order: seq<nat>, k: nat, p: nat)
    requires csr.Valid() && FlatPairs(csr, owners) && IsStableOrder(csr.data, owners, order)
    requires Groups(inv, Gather(csr.data, order)) && inv.data == Gather(owners, order)
    requires k < |inv.keys| && p < csr.M() && inv.keys[k] in csr.Patch(p)
    ensures p in inv.Row(k)
  {
    assert csr.offsets[p + 1] <= csr.offsets[|csr.offsets| - 1];
    var i := SliceFind(csr.data, csr.offsets[p], csr.offsets[p + 1], inv.keys[k]);
    OwnerUnique(csr, owners, i, p);
    assert i in order;
    var j :| 0 <= j < |order| && order[j] == i;
    var k' := GroupOf(inv, j, |inv.keys|);
    assert inv.keys[k'] == Gather(csr.data, order)[j] == inv.keys[k];
    assert inv.offsets[k + 1] <= inv.offsets[|inv.keys|];
    SliceHolds(inv.data, inv.offsets[k], inv.offsets[k + 1], j);
  }

  lemma KeysAreElements(inv: InvertedIndex, csr: PatchCsr, order: seq<nat>, owners: seq<nat>, e: nat)
    requires |owners| == |csr.data| && IsStableOrder(csr.data, owners, order)
    requires Groups(inv, Gather(csr.data, order))
    ensures e in inv.keys <==> e in csr.data
  {
    if e in inv.keys {
      var k :| 0 <= k < |inv.keys| && inv.keys[k] == e;
      assert inv.offsets[k + 1] <= inv.offsets[|inv.keys|];
      var j := inv.offsets[k];
      assert Gather(csr.data, order)[j] == e;
      assert csr.data[order[j]] == e;
    }
    if e in csr.data {
      var i :| 0 <= i < |csr.data| && csr.data[i] == e;
      assert i in order;
      var j :| 0 <= j < |order| && order[j] == i;
      var k := GroupOf(inv, j, |inv.keys|);
      assert inv.keys[k] == Gather(csr.data, order)[j];
    }
  }

  lemma GroupsTranspose(inv: InvertedIndex, csr: PatchCsr, owners: seq<nat>, order: seq<nat>)
    requires csr.Valid() && FlatPairs(csr, owners) && IsStableOrder(csr.data, owners, order)
    requires forall p :: 0 <= p < csr.M() ==> StrictlyAscending(csr.Patch(p))
    requires Groups(inv, Gather(csr.data, order)) && inv.data == Gather(owners, order)
    ensures IsTranspose(inv, csr)
  {
    forall k | 0 <= k < |inv.keys| ensures RowIsExact(inv, csr, k) {
      RowAscending(inv, csr, owners, order, k);
      forall p: nat ensures p in inv.Row(k) <==> p < csr.M() && inv.keys[k] in csr.Patch(p) {
        if p in inv.Row(k) { RowOnlyOwners(inv, csr, owners, order, k, p); }
        if p < csr.M() && inv.keys[k] in csr.Patch(p) { OwnerInRow(inv, csr, owners, order, k, p); }
      }
    }
    forall e ensures e in inv.keys <==> e in csr.data {
      KeysAreElements(inv, csr, order, owners, e);
    }
  }

  /** How many runs of equal values a sorted list has. */
  ghost function Runs(s: seq<nat>): nat {
    if s == [] then 0
    else Runs(s[..|s| - 1]) + (if |s| == 1 || s[|s| - 2] != s[|s| - 1] then 1 else 0)
  }

  lemma RunsStep(s: seq<nat>, i: nat)
    requires i < |s|
    ensures Runs(s[..i + 1]) == Runs(s[..i]) + (if i == 0 || s[i - 1] != s[i] then 1 else 0)
  {
    assert s[..i + 1][..i] == s[..i];
  }

  lemma {:induction false} RunsMonotone(s: seq<nat>, i: nat, j: nat)
    requires i <= j <= |s|
    ensures Runs(s[..i]) <= Runs(s[..j])
  {
    if i < j { RunsMonotone(s, i, j - 1); RunsStep(s, j - 1); }
  }

  /** Collect (element, patch) pairs, sort them, count the keys, fill the groups. */
  method BuildInvertedIndex(csr: PatchCsr) returns (inv: InvertedIndex)
    requires csr.Valid() && forall p :: 0 <= p < csr.M() ==> StrictlyAscending(csr.Patch(p))
    ensures IsTranspose(inv, csr)
  {
    var total := |csr.data|;
    if total == 0 {
      return InvertedIndex([], [0], []);
    }
    var elems, owners := CollectPairs(csr);
    var order := StableOrder(elems, owners);
    ghost var sorted := Gather(elems, order);
    forall i, j | 0 <= i <= j < total ensures sorted[i] <= sorted[j] {
      if i < j { assert Before(elems, owners, order[i], order[j]); }
    }
    var numKeys := CountRuns(elems, order);
    var keys, offsets, data := FillGroups(elems, owners, order, numKeys);
    inv := InvertedIndex(keys, offsets, data);
    GroupsTranspose(inv, csr, owners, order);
  }

  method CollectPairs(csr: PatchCsr) returns (elems: seq<nat>, owners: seq<nat>)
    requires csr.Valid()
    ensures elems == csr.data && FlatPairs(csr, owners)
  {
    var total := |csr.data|;
    var es, os := new nat[total], new nat[total];
    var cursor := 0;
    for p := 0 to csr.M()
      invariant cursor == csr.offsets[p]
      invariant cursor <= total
      invariant forall i :: 0 <= i < cursor ==> es[i] == csr.data[i]
      invariant forall i :: 0 <= i < cursor ==> os[i] < p && csr.offsets[os[i]] <= i < csr.offsets[os[i] + 1]
    {
      var b, e := csr.offsets[p], csr.offsets[p + 1];
      assert e <= csr.offsets[csr.M()];
      for i := b to e
        invariant cursor == i
        invariant forall j :: 0 <= j < cursor ==> es[j] == csr.data[j]
        invariant forall j :: 0 <= j < cursor ==> os[j] <= p && csr.offsets[os[j]] <= j < csr.offsets[os[j] + 1]
      {
        es[cursor] := csr.data[i];
        os[cursor] := p;
        cursor := cursor + 1;
      }
    }
    elems, owners := es[..], os[..];
  }

  method CountRuns(elems: seq<nat>, order: seq<nat>) returns (numKeys: nat)
    requires |order| == |elems| && forall i :: 0 <= i < |order| ==> order[i] < |elems|
    ensures numKeys == Runs(Gather(elems, order))
  {
    assert Runs([]) == 0;
    hide Runs, Gather;
    var total := |elems|;
    ghost var s := Gather(elems, order);
    assert s[..0] == [];
    numKeys := 0;
    var i := 0;
    while i < total
      invariant 0 <= i <= total
      invariant numKeys == Runs(s[..i])
      invariant 0 < i < total ==> s[i - 1] != s[i]
    {
      var e := elems[order[i]];
      numKeys := numKeys + 1;
      RunsStep(s, i);
      var j := i + 1;
      while j < total && elems[order[j]] == e
        invariant i < j <= total
        invariant s[j - 1] == e
        invariant numKeys == Runs(s[..j])
      {
        RunsStep(s, j);
        j := j + 1;
      }
      i := j;
    }
    assert s[..total] == s;
  }

  /** keys and offsets describe the groups of the first i sorted elements. */
  ghost predicate Partial(keys: seq<nat>, offsets: seq<nat>, s: seq<nat>, i: nat)
    requires i <= |s|
  {
    && |keys| == |offsets|
    && ((keys == []) <==> (i == 0))
    && (keys != [] ==> offsets[0] == 0)
    && StrictlyAscending(keys) && StrictlyAscending(offsets)
    && (forall x :: 0 <= x < |offsets| ==> offsets[x] < i)
    && (forall x, j :: 0 <= x < |keys| && offsets[x] <= j < GroupEnd(offsets, x, i) ==> s[j] == keys[x])
  }

  ghost function GroupEnd(offsets: seq<nat>, x: nat, i: nat): nat {
    if x + 1 < |offsets| then offsets[x + 1] else i
  }

  lemma PartialNone(s: seq<nat>)
    ensures Partial([], [], s, 0) && Runs([]) == 0
  {
  }

  lemma PartialStep(keys: seq<nat>, offsets: seq<nat>, s: seq<nat>, i: nat, j: nat)
    requires Ascending(s) && i < j <= |s| && Partial(keys, offsets, s, i)
    requires forall x :: i <= x < j ==> s[x] == s[i]
    requires i > 0 ==> s[i - 1] != s[i]
    ensures Partial(keys + [s[i]], offsets + [i], s, j)
  {
    if keys != [] {
      var n := |keys| - 1;
      assert offsets[n] <= i - 1 < GroupEnd(offsets, n, i);
      assert s[i - 1] == keys[n];
      assert s[i - 1] <= s[i];
    }
  }

  lemma PartialDone(keys: seq<nat>, offsets: seq<nat>, data: seq<nat>, s: seq<nat>)
    requires Partial(keys, offsets, s, |s|) && |data| == |s|
    ensures Groups(InvertedIndex(keys, offsets + [|s|], data), s)
  {
  }

  /** Append the owners of one run of equal elements. */
  method FillRow(elems: seq<nat>, owners: seq<nat>, order: seq<nat>, i: nat, data: seq<nat>) returns (j: nat, data': seq<nat>)
    requires |order| == |elems| == |owners| == |data| && forall x :: 0 <= x < |order| ==> order[x] < |elems|
    requires i < |order| && data[..i] == Gather(owners, order)[..i]
    ensures var s := Gather(elems, order);
            && i < j <= |order|
            && (forall x :: i <= x < j ==> s[x] == s[i])
            && (j < |order| ==> s[j] != s[i])
            && Runs(s[..j]) == Runs(s[..i + 1])
    ensures |data'| == |data| && data'[..j] == Gather(owners, order)[..j]
  {
    hide Runs, Gather;
    ghost var s, t := Gather(elems, order), Gather(owners, order);
    var e, write := elems[order[i]], i;
    j, data' := i, data;
    while j < |order| && elems[order[j]] == e
      invariant i <= j <= |order| && write == j && |data'| == |data|
      invariant j > i ==> Runs(s[..j]) == Runs(s[..i + 1])
      invariant data'[..j] == t[..j]
      invariant forall x :: i <= x < j ==> s[x] == e
    {
      RunsStep(s, j);
      UpdateExtends(data', write, owners[order[j]]);
      assert t[..j + 1] == t[..j] + [t[j]];
      data' := data'[write := owners[order[j]]];
      write := write + 1;
      j := j + 1;
    }
  }

  method FillGroups(elems: seq<nat>, owners: seq<nat>, order: seq<nat>, numKeys: nat)
    returns (keys: seq<nat>, offsets: seq<nat>, data: seq<nat>)
    requires |order| == |elems| == |owners| && forall i :: 0 <= i < |order| ==> order[i] < |elems|
    requires Ascending(Gather(elems, order)) && numKeys == Runs(Gather(elems, order))
    ensures data == Gather(owners, order)
    ensures Groups(InvertedIndex(keys, offsets, data), Gather(elems, order))
  {
    var total := |elems|;
    hide Partial, Groups, Runs, Gather;
    ghost var s := Gather(elems, order);
    assert s[..total] == s;
    PartialNone(s);
    keys, offsets := seq(numKeys, _ => 0), seq(numKeys + 1, _ => 0);
    data := seq(total, _ => 0);
    var k, i := 0, 0;
    while i < total
      invariant 0 <= i <= total
      invariant |keys| == numKeys && |offsets| == numKeys + 1 && |data| == total
      invariant k == Runs(s[..i]) <= numKeys
      invariant 0 < i < total ==> s[i - 1] != s[i]
      invariant data[..i] == Gather(owners, order)[..i]
      invariant Partial(keys[..k], offsets[..k], s, i)
    {
      RunsStep(s, i);
      RunsMonotone(s, i + 1, total);
      ghost var ks, offs := keys[..k], offsets[..k];
      UpdateExtends(keys, k, elems[order[i]]);
      UpdateExtends(offsets, k, i);
      keys, offsets := keys[k := elems[order[i]]], offsets[k := i];
      var j;
      j, data := FillRow(elems, owners, order, i, data);
      PartialStep(ks, offs, s, i, j);
      k, i := k + 1, j;
    }
    offsets := offsets[numKeys := total];
    assert keys == keys[..k] && offsets == offsets[..k] + [total] && data == data[..total];
    PartialDone(keys, offsets[..k], data, s);
  }

  lemma UpdateExtends(s: seq<nat>, k: nat, v: nat)
    requires k < |s|
    ensures s[k := v][..k + 1] == s[..k] + [v]
  {
  }
}
