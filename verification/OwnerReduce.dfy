/** What an owner makes of the arrivals: per ID of its shard a count and a location. */
module OwnerReduce {
  import opened Sequences
  import opened PatternReference
  import opened Reduce
  import opened TopK

  /** Unsigned 64-bit addition. */
  function SumU64(a: nat, b: nat): nat {
    (a + b) % (U64_MAX + 1)
  }

  /** As long as the total fits, adding with wrap-around is adding. */
  lemma {:induction false} FoldIsSum(s: seq<nat>)
    requires s != [] && Sum(s) <= U64_MAX
    ensures Fold(SumU64, s) == Sum(s)
  {
    var n := |s| - 1;
    SumMonotone(s, n, n + 1);
    assert s[..n + 1] == s;
    if n > 0 { FoldIsSum(s[..n]); }
  }

  /** What a shard slot must hold for ID k; a slot nothing arrived for keeps count 0. */
  ghost predicate SlotExact(ids: seq<nat>, degrees: seq<nat>, reps: seq<Point>, k: nat, count: nat, rep: Point)
    requires |ids| == |degrees| == |reps|
  {
    && count == Sum(Select(ids, degrees, k))
    && (k in ids ==> IsLexMin(Select(ids, reps, k), rep))
  }

  /** Every run writes its own slot, so the threads' order does not matter. */
  method Scatter(uniq: seq<nat>, sums: seq<nat>, mins: seq<Point>, start: nat, n: nat) returns (counts: seq<nat>, reps: seq<Point>)
    requires StrictlyAscending(uniq) && |sums| == |mins| == |uniq|
    requires forall i :: 0 <= i < |uniq| ==> start <= uniq[i] < start + n
    ensures |counts| == |reps| == n
    ensures forall i :: 0 <= i < |uniq| ==> counts[uniq[i] - start] == sums[i] && reps[uniq[i] - start] == mins[i]
    ensures forall s :: 0 <= s < n && start + s !in uniq ==> counts[s] == 0
  {
    counts, reps := seq(n, _ => 0), seq(n, _ => Point(0.0, 0.0));
    var todo := Range(|uniq|);
    while todo != {}
      invariant |counts| == |reps| == n && todo <= Range(|uniq|)
      invariant forall i :: 0 <= i < |uniq| && i !in todo ==>
        counts[uniq[i] - start] == sums[i] && reps[uniq[i] - start] == mins[i]
      invariant forall s :: 0 <= s < n && start + s !in uniq ==> counts[s] == 0
    {
      var i :| i in todo;
      counts := counts[uniq[i] - start := sums[i]];
      reps := reps[uniq[i] - start := mins[i]];
      todo := todo - {i};
    }
  }

  /** Sort the arrivals by ID, sum the degrees, keep the smallest location, fill the shard. */
  method ReduceArrivals(ids: seq<nat>, degrees: seq<nat>, reps: seq<Point>, start: nat, n: nat)
    returns (counts: seq<nat>, mins: seq<Point>)
    requires |ids| == |degrees| == |reps|
    requires forall k :: k in ids ==> start <= k < start + n
    requires forall k: nat :: Sum(Select(ids, degrees, k)) <= U64_MAX
    ensures |counts| == |mins| == n
    ensures forall s :: 0 <= s < n ==> SlotExact(ids, degrees, reps, start + s, counts[s], mins[s])
  {
    hide Select, Fold, SumU64;
    var uniq, sums := SortAndReduce(ids, degrees, SumU64);
    var again, least := SortAndReduce(ids, reps, LexMin);
    SameElements(uniq, again);
    forall i | 0 <= i < |uniq| ensures start <= uniq[i] < start + n { assert uniq[i] in uniq; }
    counts, mins := Scatter(uniq, sums, least, start, n);
    forall s | 0 <= s < n ensures SlotExact(ids, degrees, reps, start + s, counts[s], mins[s]) {
      SlotFilled(ids, degrees, reps, uniq, sums, least, start + s, counts[s], mins[s]);
    }
  }

  lemma SlotFilled(ids: seq<nat>, degrees: seq<nat>, reps: seq<Point>, uniq: seq<nat>, sums: seq<nat>, least: seq<Point>,
                   k: nat, count: nat, rep: Point)
    requires |ids| == |degrees| == |reps| && Sum(Select(ids, degrees, k)) <= U64_MAX
    requires IsReduced(ids, degrees, SumU64, uniq, sums) && IsReduced(ids, reps, LexMin, uniq, least)
    requires forall i :: 0 <= i < |uniq| && uniq[i] == k ==> count == sums[i] && rep == least[i]
    requires k !in uniq ==> count == 0
    ensures SlotExact(ids, degrees, reps, k, count, rep)
  {
    if k in uniq {
      var i :| 0 <= i < |uniq| && uniq[i] == k;
      assert IsRun(ids, degrees, SumU64, uniq[i], sums[i]) && IsRun(ids, reps, LexMin, uniq[i], least[i]);
      FoldIsSum(Select(ids, degrees, k));
      FoldIsLexMin(Select(ids, reps, k));
    } else {
      NotSelected(ids, degrees, k);
    }
  }
}
