/** A dense bitset over element IDs, seen as the set of IDs whose bit is up. */
module Bitset {
  import opened Sequences

  ghost function Bits(b: seq<bool>): (s: set<nat>)
    ensures forall e: nat :: e in s <==> e < |b| && b[e]
    ensures |s| <= |b|
  {
    var s := set e | e in Range(|b|) && b[e];
    SubsetSize(s, Range(|b|));
    s
  }

  lemma BitsSet(b: seq<bool>, e: nat)
    requires e < |b|
    ensures Bits(b[e := true]) == Bits(b) + {e}
  {
  }

  /** Raising one bit adds one ID, unless it was up already. */
  lemma RaiseBit(b: seq<bool>, e: nat)
    requires e < |b|
    ensures Bits(b[e := true]) == Bits(b) + {e}
    ensures |Bits(b[e := true])| == |Bits(b)| + (if b[e] then 0 else 1)
  {
    BitsSet(b, e);
    assert b[e] ==> Bits(b) + {e} == Bits(b);
  }

  lemma ToSetNone(ids: seq<nat>)
    ensures ToSet(ids[..0]) == {}
  {
  }

  lemma ToSetPrefix(ids: seq<nat>, i: nat)
    requires i < |ids|
    ensures ToSet(ids[..i + 1]) == ToSet(ids[..i]) + {ids[i]}
  {
    assert ids[..i + 1] == ids[..i] + [ids[i]];
  }

  lemma BitsClear(b: seq<bool>)
    requires forall e :: 0 <= e < |b| ==> !b[e]
    ensures Bits(b) == {}
  {
  }
}
