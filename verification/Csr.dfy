/** The compressed patch store: all patch lists end to end, with offsets. */
module Csr {
  import opened Sequences

  datatype PatchCsr = PatchCsr(data: seq<nat>, offsets: seq<nat>) {
    ghost predicate Valid() {
      && |offsets| > 0
      && offsets[0] == 0
      && offsets[|offsets| - 1] == |data|
      && Ascending(offsets)
    }

    function M(): nat {
      if offsets == [] then 0 else |offsets| - 1
    }

    function PatchSize(p: nat): nat
      requires Valid() && p < M()
    {
      offsets[p + 1] - offsets[p]
    }

    function Patch(p: nat): (s: seq<nat>)
      requires Valid() && p < M()
      ensures |s| == PatchSize(p)
    {
      data[offsets[p]..offsets[p + 1]]
    }

    ghost function Lists(): (ll: seq<seq<nat>>)
      requires Valid()
    {
      seq(M(), p requires 0 <= p < M() => Patch(p))
    }

    /** The patches as plain sets, in index order. */
    ghost function Sets(): (ss: seq<set<nat>>)
      requires Valid()
      ensures |ss| == M() && forall p :: 0 <= p < M() ==> ss[p] == ToSet(Patch(p))
    {
      seq(M(), p requires 0 <= p < M() => ToSet(Patch(p)))
    }

    /** What setup hands over: every patch ascending, duplicate-free and below n. */
    ghost predicate Clean(n: nat) {
      && Valid()
      && (forall p :: 0 <= p < M() ==> StrictlyAscending(Patch(p)))
      && (forall i :: 0 <= i < |data| ==> data[i] < n)
    }
  }

  lemma CleanPatch(patches: PatchCsr, n: nat, p: nat)
    requires patches.Clean(n) && p < patches.M()
    ensures patches.offsets[p] <= patches.offsets[p + 1] <= |patches.data|
    ensures forall e :: e in patches.Patch(p) ==> e < n
    ensures ToSet(patches.Patch(p)) <= Range(n)
  {
    assert patches.offsets[p + 1] <= patches.offsets[|patches.offsets| - 1];
  }

  ghost function CsrOf(lists: seq<seq<nat>>): PatchCsr {
    PatchCsr(Flatten(lists), seq(|lists| + 1, p requires 0 <= p <= |lists| => Start(lists, p)))
  }

  lemma {:induction false} CsrOfHolds(lists: seq<seq<nat>>)
    ensures CsrOf(lists).Valid() && CsrOf(lists).M() == |lists|
    ensures forall p :: 0 <= p < |lists| ==> CsrOf(lists).Patch(p) == lists[p]
    ensures CsrOf(lists).Lists() == lists
  {
    var csr := CsrOf(lists);
    assert lists[..|lists|] == lists && lists[..0] == [];
    forall i, j | 0 <= i <= j < |csr.offsets| ensures csr.offsets[i] <= csr.offsets[j] {
      StartMonotone(lists, i, j);
    }
    forall p | 0 <= p < |lists| ensures csr.Patch(p) == lists[p] {
      FlattenSlice(lists, p);
    }
  }

  /** Prefix sums of the list sizes, then one copy of every list to its offset. */
  method BuildPatchCsr(lists: seq<seq<nat>>) returns (csr: PatchCsr)
    ensures csr == CsrOf(lists)
    ensures csr.Valid() && csr.M() == |lists|
    ensures forall p :: 0 <= p < |lists| ==> csr.Patch(p) == lists[p]
  {
    var total, offsets := PrefixSums(lists);
    var data := CopyLists(lists, offsets, total);
    csr := PatchCsr(data, offsets);
    assert offsets == CsrOf(lists).offsets;
    CsrOfHolds(lists);
  }

  method PrefixSums(lists: seq<seq<nat>>) returns (total: nat, offsets: seq<nat>)
    ensures |offsets| == |lists| + 1 && total == |Flatten(lists)|
    ensures forall q :: 0 <= q <= |lists| ==> offsets[q] == Start(lists, q)
  {
    var m := |lists|;
    var offs := new nat[m + 1];
    offs[0] := 0;
    total := 0;
    for p := 0 to m
      invariant total == Start(lists, p)
      invariant forall q :: 0 <= q <= p ==> offs[q] == Start(lists, q)
    {
      FlattenPrefix(lists, p);
      total := total + |lists[p]|;
      offs[p + 1] := total;
    }
    assert lists[..m] == lists;
    offsets := offs[..];
  }

  method CopyLists(lists: seq<seq<nat>>, offsets: seq<nat>, total: nat) returns (data: seq<nat>)
    requires |offsets| == |lists| + 1 && total == |Flatten(lists)|
    requires forall q :: 0 <= q <= |lists| ==> offsets[q] == Start(lists, q)
    ensures data == Flatten(lists)
  {
    var m := |lists|;
    assert lists[..m] == lists;
    data := seq(total, _ => 0);
    for p := 0 to m
      invariant |data| == total && Start(lists, p) <= total
      invariant data[..Start(lists, p)] == Flatten(lists[..p])
    {
      FlattenPrefix(lists, p);
      StartMonotone(lists, p + 1, m);
      data := CopyList(data, Flatten(lists[..p]), lists[p], offsets[p]);
    }
    assert data[..total] == data;
  }

  method CopyList(data: seq<nat>, before: seq<nat>, src: seq<nat>, off: nat) returns (data': seq<nat>)
    requires |before| == off && off + |src| <= |data| && data[..off] == before
    ensures |data'| == |data| && data'[..off + |src|] == before + src
  {
    data' := data;
    for i := 0 to |src|
      invariant |data'| == |data|
      invariant data'[..off + i] == before + src[..i]
    {
      data' := data'[off + i := src[i]];
    }
  }
}
