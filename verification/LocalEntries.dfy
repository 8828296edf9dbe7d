/** One rank's contribution: for every hash it holds, how many of its patches contain it and
    where it occurs first. */
module LocalEntries {
  import opened Sequences
  import opened Csr
  import opened InvertedIndexes
  import opened PatchSet
  import opened PatternReference
  import opened Reduce
  import opened TopK

  /** Parallel arrays, one entry per distinct hash of the rank, in ID order. */
  datatype Local = Local(keys: seq<nat>, degrees: seq<nat>, reps: seq<Point>)

  ghost predicate EntryExact(global: seq<nat>, patches: seq<seq<nat>>, coords: seq<seq<Point>>, key: nat, degree: nat, rep: Point)
    requires SameShape(patches, coords)
  {
    && key < |global|
    && degree == CountWith(patches, global[key])
    && IsRep(patches, coords, global[key], rep)
  }

  ghost predicate IsLocal(global: seq<nat>, patches: seq<seq<nat>>, coords: seq<seq<Point>>, l: Local)
    requires SameShape(patches, coords)
  {
    && StrictlyAscending(l.keys)
    && |l.degrees| == |l.reps| == |l.keys|
    && (forall k :: k in l.keys <==> 0 <= k < |global| && global[k] in Flatten(patches))
    && forall i :: 0 <= i < |l.keys| ==> EntryExact(global, patches, coords, l.keys[i], l.degrees[i], l.reps[i])
  }

  ghost predicate Known(global: seq<nat>, patches: seq<seq<nat>>) {
    forall h :: h in Flatten(patches) ==> h in global
  }

  /** Which IDs the rank's inverted index has keys for. */
  lemma KeyMember(global: seq<nat>, patches: seq<seq<nat>>, csr: PatchCsr, k: nat)
    requires StrictlyAscending(global) && Known(global, patches)
    requires csr == CsrOf(Translate(global, patches))
    ensures k in csr.data <==> k < |global| && global[k] in Flatten(patches)
  {
    var ids := Translate(global, patches);
    InFlatten(ids, k);
    forall p | 0 <= p < |patches| ensures k in ids[p] <==> k < |global| && global[k] in patches[p] {
      forall h | h in patches[p] ensures h in global { InFlatten(patches, h); }
      TranslateMember(global, patches[p], k);
    }
    if k < |global| {
      InFlatten(patches, global[k]);
      if global[k] in Flatten(patches) {
        var p :| 0 <= p < |patches| && global[k] in patches[p];
        assert k in ids[p];
      }
    }
  }

  /** The i-th run of the hash-sorted occurrences belongs to the i-th key of the index, so
      the two never disagree about how many there are. */
  lemma RunsPairWithKeys(global: seq<nat>, patches: seq<seq<nat>>, inv: InvertedIndex, csr: PatchCsr, uniq: seq<nat>)
    requires StrictlyAscending(global) && Known(global, patches)
    requires csr == CsrOf(Translate(global, patches)) && csr.Valid() && IsTranspose(inv, csr)
    requires StrictlyAscending(uniq) && forall h :: h in uniq <==> h in Flatten(patches)
    ensures |uniq| == |inv.keys|
    ensures forall i :: 0 <= i < |uniq| ==> inv.keys[i] < |global| && uniq[i] == global[inv.keys[i]]
    ensures forall k :: k in inv.keys <==> 0 <= k < |global| && global[k] in Flatten(patches)
  {
    hide Translate, CsrOf, Flatten, RowIsExact;
    forall k: nat ensures k in inv.keys <==> k < |global| && global[k] in Flatten(patches) {
      KeyMember(global, patches, csr, k);
    }
    forall i | 0 <= i < |inv.keys| ensures inv.keys[i] < |global| { assert inv.keys[i] in inv.keys; }
    var named := seq(|inv.keys|, i requires 0 <= i < |inv.keys| => global[inv.keys[i]]);
    forall h: nat ensures h in named <==> h in uniq {
      if i :| 0 <= i < |named| && named[i] == h {
        assert inv.keys[i] in inv.keys;
      }
      if h in uniq {
        var k: nat :| k < |global| && global[k] == h;
        var i :| 0 <= i < |inv.keys| && inv.keys[i] == k;
        assert named[i] == h;
      }
    }
    SameElements(named, uniq);
  }

  lemma DegreeCounts(global: seq<nat>, patches: seq<seq<nat>>, inv: InvertedIndex, csr: PatchCsr, i: nat)
    requires StrictlyAscending(global) && Known(global, patches)
    requires csr == CsrOf(Translate(global, patches)) && csr.Valid() && IsTranspose(inv, csr)
    requires i < |inv.keys| && inv.keys[i] < |global|
    ensures |inv.Row(i)| == CountWith(patches, global[inv.keys[i]])
  {
    CsrOfHolds(Translate(global, patches));
    assert RowIsExact(inv, csr, i);
    forall p: nat | p < |patches|
      ensures inv.keys[i] in csr.Patch(p) <==> global[inv.keys[i]] in patches[p]
    {
      forall h | h in patches[p] ensures h in global { InFlatten(patches, h); }
      TranslateMember(global, patches[p], inv.keys[i]);
    }
    CountIsLength(patches, global[inv.keys[i]], inv.Row(i));
  }

  /** Adjacent differences of the index offsets. */
  method Degrees(inv: InvertedIndex) returns (degrees: seq<nat>)
    requires inv.Valid()
    ensures |degrees| == |inv.keys| && forall i :: 0 <= i < |degrees| ==> degrees[i] == |inv.Row(i)|
  {
    degrees := [];
    for i := 0 to |inv.keys|
      invariant |degrees| == i && forall j :: 0 <= j < i ==> degrees[j] == |inv.Row(j)|
    {
      degrees := degrees + [inv.offsets[i + 1] - inv.offsets[i]];
    }
  }

  /** Reduce the rank's occurrences, index its patches, pair the two position by position. */
  method Summarise(patches: seq<seq<nat>>, coords: seq<seq<Point>>, idPatches: seq<seq<nat>>, ghost global: seq<nat>) returns (l: Local)
    requires SameShape(patches, coords) && StrictlyAscending(global) && Known(global, patches)
    requires idPatches == Translate(global, patches)
    ensures IsLocal(global, patches, coords, l)
  {
    hide Translate, CsrOf, IsTranspose, Flatten;
    SameStarts(patches, coords, 0);
    var uniq, mins := SortAndReduce(Flatten(patches), Flatten(coords), LexMin);
    var csr := BuildPatchCsr(idPatches);
    TranslatedAscends(global, patches, csr);
    var inv := BuildInvertedIndex(csr);
    TransposeValid(inv, csr);
    RunsPairWithKeys(global, patches, inv, csr, uniq);
    assert |uniq| == |inv.keys|;
    var degrees := Degrees(inv);
    l := Local(inv.keys, degrees, mins);
    forall i | 0 <= i < |l.keys| ensures EntryExact(global, patches, coords, l.keys[i], l.degrees[i], l.reps[i]) {
      DegreeCounts(global, patches, inv, csr, i);
      RunIsRep(patches, coords, uniq[i], mins[i]);
    }
  }

  lemma TransposeValid(inv: InvertedIndex, csr: PatchCsr)
    requires csr.Valid() && IsTranspose(inv, csr)
    ensures inv.Valid()
  {
  }

  lemma TranslatedAscends(global: seq<nat>, patches: seq<seq<nat>>, csr: PatchCsr)
    requires StrictlyAscending(global) && csr == CsrOf(Translate(global, patches))
    ensures csr.Valid() && forall p :: 0 <= p < csr.M() ==> StrictlyAscending(csr.Patch(p))
  {
    CsrOfHolds(Translate(global, patches));
  }

  lemma RunIsRep(patches: seq<seq<nat>>, coords: seq<seq<Point>>, h: nat, m: Point)
    requires SameShape(patches, coords) && |Flatten(patches)| == |Flatten(coords)|
    requires IsRun(Flatten(patches), Flatten(coords), LexMin, h, m)
    ensures IsRep(patches, coords, h, m)
  {
    FoldIsLexMin(Select(Flatten(patches), Flatten(coords), h));
    LexMinIsRep(patches, coords, h, m);
  }
}
