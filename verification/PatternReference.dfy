/** What a pattern statistic is, over the patches and coordinates of the whole program. */
module PatternReference {
  import opened Sequences
  import opened Reduce
  import opened TopK
  import opened PatchSet

  /** How many patches contain h; repetitions inside one patch count once. */
  ghost function CountWith(patches: seq<seq<nat>>, h: nat): nat {
    if patches == [] then 0
    else CountWith(patches[..|patches| - 1], h) + (if h in patches[|patches| - 1] then 1 else 0)
  }

  /** The patches that contain h. */
  ghost function Holders(patches: seq<seq<nat>>, h: nat): (s: set<nat>)
    ensures forall p: nat :: p in s <==> p < |patches| && h in patches[p]
  {
    set p | p in Range(|patches|) && h in patches[p]
  }

  lemma {:induction false} CountIsHolders(patches: seq<seq<nat>>, h: nat)
    ensures CountWith(patches, h) == |Holders(patches, h)|
  {
    if patches == [] {
      assert Holders(patches, h) == {};
    } else {
      var n := |patches| - 1;
      CountIsHolders(patches[..n], h);
      if h in patches[n] {
        assert Holders(patches, h) == Holders(patches[..n], h) + {n};
      } else {
        assert Holders(patches, h) == Holders(patches[..n], h);
      }
    }
  }

  ghost predicate SameShape<T>(patches: seq<seq<nat>>, coords: seq<seq<T>>) {
    |coords| == |patches| && forall p :: 0 <= p < |patches| ==> |coords[p]| == |patches[p]|
  }

  /** Some occurrence of h lies at pt. */
  ghost predicate Occurs(patches: seq<seq<nat>>, coords: seq<seq<Point>>, h: nat, pt: Point)
    requires SameShape(patches, coords)
  {
    exists p, i :: 0 <= p < |patches| && 0 <= i < |patches[p]| && patches[p][i] == h && coords[p][i] == pt
  }

  /** The representative: the occurrence that is smallest in x, then y. */
  ghost predicate IsRep(patches: seq<seq<nat>>, coords: seq<seq<Point>>, h: nat, pt: Point)
    requires SameShape(patches, coords)
  {
    && Occurs(patches, coords, h, pt)
    && forall q :: Occurs(patches, coords, h, q) ==> PointLe(pt, q)
  }

  ghost predicate IsStat(patches: seq<seq<nat>>, coords: seq<seq<Point>>, st: PatternStat)
    requires SameShape(patches, coords)
  {
    st.count == CountWith(patches, st.hash) && IsRep(patches, coords, st.hash, st.rep)
  }

  /** A statistic in plain words: the number of patches that hold the hash, and of all its
      locations the one with the smallest x, and of these the smallest y. */
  lemma StatInWords(patches: seq<seq<nat>>, coords: seq<seq<Point>>, st: PatternStat)
    requires SameShape(patches, coords) && IsStat(patches, coords, st)
    ensures st.count == |Holders(patches, st.hash)| > 0
    ensures exists p, i :: 0 <= p < |patches| && 0 <= i < |patches[p]| && patches[p][i] == st.hash && coords[p][i] == st.rep
    ensures forall p, i :: 0 <= p < |patches| && 0 <= i < |patches[p]| && patches[p][i] == st.hash ==>
      st.rep.x < coords[p][i].x || (st.rep.x == coords[p][i].x && st.rep.y <= coords[p][i].y)
  {
    hide CountWith;
    CountIsHolders(patches, st.hash);
    forall p, i | 0 <= p < |patches| && 0 <= i < |patches[p]| && patches[p][i] == st.hash
      ensures PointLe(st.rep, coords[p][i])
    {
      assert Occurs(patches, coords, st.hash, coords[p][i]);
    }
    assert Occurs(patches, coords, st.hash, st.rep);
    var p: nat, i: nat :| p < |patches| && i < |patches[p]| && patches[p][i] == st.hash && coords[p][i] == st.rep;
    assert p in Holders(patches, st.hash);
  }

  /** All statistics, most patches first, then by hash. */
  ghost predicate IsReference(patches: seq<seq<nat>>, coords: seq<seq<Point>>, list: seq<PatternStat>)
    requires SameShape(patches, coords)
  {
    StatsSorted(list) && forall st :: st in list <==> IsStat(patches, coords, st)
  }

  /** The reference list is unique. */
  lemma ReferenceUnique(patches: seq<seq<nat>>, coords: seq<seq<Point>>, a: seq<PatternStat>, b: seq<PatternStat>)
    requires SameShape(patches, coords) && IsReference(patches, coords, a) && IsReference(patches, coords, b)
    ensures a == b
  {
    hide IsStat, StatsSorted;
    SortedUnique(a, b);
  }

  lemma StatDetermined(patches: seq<seq<nat>>, coords: seq<seq<Point>>, a: PatternStat, b: PatternStat)
    requires SameShape(patches, coords) && IsStat(patches, coords, a) && IsStat(patches, coords, b) && a.hash == b.hash
    ensures a == b
  {
    assert PointLe(a.rep, b.rep) && PointLe(b.rep, a.rep);
  }

  // ----- counting --------------------------------------------------------------

  lemma {:induction false} CountConcat(a: seq<seq<nat>>, b: seq<seq<nat>>, h: nat)
    ensures CountWith(a + b, h) == CountWith(a, h) + CountWith(b, h)
  {
    if b == [] {
      assert a + b == a;
    } else {
      CountConcat(a, b[..|b| - 1], h);
      assert (a + b)[..|a + b| - 1] == a + b[..|b| - 1];
    }
  }

  /** Counting rank by rank counts the whole program. */
  lemma {:induction false} CountRanks(raw: seq<seq<seq<nat>>>, h: nat, counts: seq<int>)
    requires |counts| == |raw| && forall r :: 0 <= r < |raw| ==> counts[r] == CountWith(raw[r], h)
    ensures CountWith(Flatten(raw), h) == Sum(counts)
  {
    if raw != [] {
      var n := |raw| - 1;
      CountRanks(raw[..n], h, counts[..n]);
      CountConcat(Flatten(raw[..n]), raw[n], h);
    }
  }

  lemma {:induction false} CountBounded(patches: seq<seq<nat>>, h: nat)
    ensures CountWith(patches, h) <= |patches|
    ensures CountWith(patches, h) > 0 <==> exists p :: 0 <= p < |patches| && h in patches[p]
  {
    if patches != [] {
      var n := |patches| - 1;
      CountBounded(patches[..n], h);
      assert forall p :: 0 <= p < n ==> patches[..n][p] == patches[p];
    }
  }

  /** An ascending list of the patches that contain h has one entry per counted patch. */
  lemma {:induction false} CountIsLength(patches: seq<seq<nat>>, h: nat, row: seq<nat>)
    requires StrictlyAscending(row)
    requires forall p: nat :: p in row <==> p < |patches| && h in patches[p]
    ensures |row| == CountWith(patches, h)
  {
    if patches == [] {
      DistinctBounded(row, 0);
    } else {
      var n := |patches| - 1;
      if h in patches[n] {
        var k :| 0 <= k < |row| && row[k] == n;
        assert row[|row| - 1] in row;
        InitElements(row);
        CountIsLength(patches[..n], h, row[..|row| - 1]);
      } else {
        CountIsLength(patches[..n], h, row);
      }
    }
  }

  // ----- locations -------------------------------------------------------------

  /** The points listed under h in the flat occurrence arrays are where h occurs. */
  lemma SelectOccurs(patches: seq<seq<nat>>, coords: seq<seq<Point>>, h: nat, pt: Point)
    requires SameShape(patches, coords) && |Flatten(patches)| == |Flatten(coords)|
    ensures pt in Select(Flatten(patches), Flatten(coords), h) <==> Occurs(patches, coords, h, pt)
  {
    hide Flatten, Start, Select;
    var keys, vals := Flatten(patches), Flatten(coords);
    SelectMember(keys, vals, h, pt);
    if i :| 0 <= i < |keys| && keys[i] == h && vals[i] == pt {
      var p, j := FlattenLocate(patches, i);
      FlatPair(patches, coords, p, j);
      assert patches[p][j] == h && coords[p][j] == pt;
    }
    if Occurs(patches, coords, h, pt) {
      var p, i :| 0 <= p < |patches| && 0 <= i < |patches[p]| && patches[p][i] == h && coords[p][i] == pt;
      FlatPair(patches, coords, p, i);
    }
  }

  /** Entry i of patch p and its location have the same flat position. */
  lemma FlatPair(patches: seq<seq<nat>>, coords: seq<seq<Point>>, p: nat, i: nat)
    requires SameShape(patches, coords) && p < |patches| && i < |patches[p]|
    ensures var k := Start(patches, p) + i;
            k < |Flatten(patches)| && k < |Flatten(coords)| && Flatten(patches)[k] == patches[p][i] && Flatten(coords)[k] == coords[p][i]
  {
    hide Flatten, Start;
    SameStarts(patches, coords, p);
    FlattenAt(patches, p, i);
    FlattenAt(coords, p, i);
  }

  lemma OccursInFlat(patches: seq<seq<nat>>, coords: seq<seq<Point>>, h: nat, pt: Point)
    requires SameShape(patches, coords) && Occurs(patches, coords, h, pt)
    ensures h in Flatten(patches)
  {
    var p, i :| 0 <= p < |patches| && 0 <= i < |patches[p]| && patches[p][i] == h && coords[p][i] == pt;
    assert h in patches[p];
    InFlatten(patches, h);
  }

  ghost predicate RanksShaped(raw: seq<seq<seq<nat>>>, coords: seq<seq<seq<Point>>>) {
    |coords| == |raw| && forall r :: 0 <= r < |raw| ==> SameShape(raw[r], coords[r])
  }

  lemma RankStarts(raw: seq<seq<seq<nat>>>, coords: seq<seq<seq<Point>>>, r: nat)
    requires RanksShaped(raw, coords) && r <= |raw|
    ensures Start(raw, r) == Start(coords, r) && |Flatten(raw)| == |Flatten(coords)|
  {
    SameStarts(raw, coords, r);
  }

  lemma FlatShaped(raw: seq<seq<seq<nat>>>, coords: seq<seq<seq<Point>>>)
    requires RanksShaped(raw, coords)
    ensures SameShape(Flatten(raw), Flatten(coords))
  {
    RankStarts(raw, coords, 0);
    forall s | 0 <= s < |Flatten(raw)| ensures |Flatten(coords)[s]| == |Flatten(raw)[s]| {
      var r, p := FlattenLocate(raw, s);
      RankStarts(raw, coords, r);
      FlattenAt(coords, r, p);
    }
  }

  lemma OccursSomewhere(raw: seq<seq<seq<nat>>>, coords: seq<seq<seq<Point>>>, h: nat, pt: Point) returns (r: nat)
    requires RanksShaped(raw, coords) && SameShape(Flatten(raw), Flatten(coords))
    requires Occurs(Flatten(raw), Flatten(coords), h, pt)
    ensures r < |raw| && Occurs(raw[r], coords[r], h, pt)
  {
    hide Flatten;
    var all, pts := Flatten(raw), Flatten(coords);
    var s: nat, i: nat :| s < |all| && i < |all[s]| && all[s][i] == h && pts[s][i] == pt;
    var p;
    r, p := FlattenLocate(raw, s);
    RankStarts(raw, coords, r);
    FlattenAt(coords, r, p);
    assert raw[r][p][i] == h && coords[r][p][i] == pt;
  }

  lemma FlatPatch(raw: seq<seq<seq<nat>>>, coords: seq<seq<seq<Point>>>, r: nat, p: nat) returns (s: nat)
    requires RanksShaped(raw, coords) && r < |raw| && p < |raw[r]|
    ensures s < |Flatten(raw)| == |Flatten(coords)|
    ensures Flatten(raw)[s] == raw[r][p] && Flatten(coords)[s] == coords[r][p]
  {
    hide Flatten;
    s := Start(raw, r) + p;
    RankStarts(raw, coords, r);
    FlattenAt(raw, r, p);
    FlattenAt(coords, r, p);
  }

  lemma OccursEverywhere(raw: seq<seq<seq<nat>>>, coords: seq<seq<seq<Point>>>, h: nat, pt: Point, r: nat)
    requires RanksShaped(raw, coords) && SameShape(Flatten(raw), Flatten(coords))
    requires r < |raw| && Occurs(raw[r], coords[r], h, pt)
    ensures Occurs(Flatten(raw), Flatten(coords), h, pt)
  {
    hide Flatten;
    var p: nat, i: nat :| p < |raw[r]| && i < |raw[r][p]| && raw[r][p][i] == h && coords[r][p][i] == pt;
    var s := FlatPatch(raw, coords, r, p);
    assert Flatten(raw)[s][i] == h && Flatten(coords)[s][i] == pt;
  }

  // ----- folding minima --------------------------------------------------------

  ghost predicate IsLexMin(s: seq<Point>, m: Point) {
    m in s && forall q :: q in s ==> PointLe(m, q)
  }

  lemma {:induction false} FoldIsLexMin(s: seq<Point>)
    requires s != []
    ensures IsLexMin(s, Fold(LexMin, s))
  {
    var n := |s| - 1;
    assert s == s[..n] + [s[n]];
    if n > 0 { FoldIsLexMin(s[..n]); }
  }

  lemma LexMinIsRep(patches: seq<seq<nat>>, coords: seq<seq<Point>>, h: nat, m: Point)
    requires SameShape(patches, coords) && |Flatten(patches)| == |Flatten(coords)|
    requires IsLexMin(Select(Flatten(patches), Flatten(coords), h), m)
    ensures IsRep(patches, coords, h, m)
  {
    hide Occurs, Select;
    SelectOccurs(patches, coords, h, m);
    forall q | Occurs(patches, coords, h, q) ensures PointLe(m, q) { SelectOccurs(patches, coords, h, q); }
  }

  /** Every hash that occurs has exactly one statistic. */
  lemma StatExists(patches: seq<seq<nat>>, coords: seq<seq<Point>>, h: nat) returns (st: PatternStat)
    requires SameShape(patches, coords) && h in Flatten(patches)
    ensures st.hash == h && IsStat(patches, coords, st)
  {
    SameStarts(patches, coords, 0);
    NotSelected(Flatten(patches), Flatten(coords), h);
    var s := Select(Flatten(patches), Flatten(coords), h);
    FoldIsLexMin(s);
    LexMinIsRep(patches, coords, h, Fold(LexMin, s));
    st := PatternStat(h, CountWith(patches, h), Fold(LexMin, s));
  }

  /** The reference has one entry per distinct hash. */
  lemma ReferenceSize(patches: seq<seq<nat>>, coords: seq<seq<Point>>, list: seq<PatternStat>)
    requires SameShape(patches, coords) && IsReference(patches, coords, list)
    ensures |list| == |GlobalHashes(patches)|
  {
    hide IsStat, IsRep, Occurs, StatsSorted;
    var hashes := seq(|list|, i requires 0 <= i < |list| => list[i].hash);
    var global := GlobalHashes(patches);
    SortedDistinct(list);
    forall i, j | 0 <= i < j < |hashes| ensures hashes[i] != hashes[j] {
      assert list[i] in list && list[j] in list;
      if hashes[i] == hashes[j] { StatDetermined(patches, coords, list[i], list[j]); }
    }
    forall h ensures h in hashes <==> h in global {
      if i :| 0 <= i < |hashes| && hashes[i] == h {
        assert list[i] in list;
        StatOccurs(patches, coords, list[i]);
      }
      if h in global {
        var st := StatExists(patches, coords, h);
        var i :| 0 <= i < |list| && list[i] == st;
        assert hashes[i] == h;
      }
    }
    DistinctSize(hashes);
    DistinctSize(global);
    assert ToSet(hashes) == ToSet(global);
  }

  lemma StatOccurs(patches: seq<seq<nat>>, coords: seq<seq<Point>>, st: PatternStat)
    requires SameShape(patches, coords) && IsStat(patches, coords, st)
    ensures st.hash in GlobalHashes(patches)
  {
    OccursInFlat(patches, coords, st.hash, st.rep);
  }
}
