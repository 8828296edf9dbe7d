/** The library sorts the program relies on, specified by a stable order of positions. */
module Sorting {
  /** Position a comes before position b: smaller major key, then smaller minor key, then earlier. */
  ghost predicate Before(major: seq<nat>, minor: seq<nat>, a: nat, b: nat)
    requires |major| == |minor| && a < |major| && b < |major|
  {
    || major[a] < major[b]
    || (major[a] == major[b] && minor[a] < minor[b])
    || (major[a] == major[b] && minor[a] == minor[b] && a < b)
  }

  ghost predicate SortedPositions(major: seq<nat>, minor: seq<nat>, order: seq<nat>)
    requires |major| == |minor|
  {
    && (forall x :: 0 <= x < |order| ==> order[x] < |major|)
    && (forall x, y :: 0 <= x < y < |order| ==> Before(major, minor, order[x], order[y]))
  }

  /** order lists every position once, ascending in the two keys, ties in input order. */
  ghost predicate IsStableOrder(major: seq<nat>, minor: seq<nat>, order: seq<nat>)
    requires |major| == |minor|
  {
    && |order| == |major|
    && SortedPositions(major, minor, order)
    && (forall i :: 0 <= i < |major| ==> i in order)
  }

  method StableOrder(major: seq<nat>, minor: seq<nat>) returns (order: seq<nat>)
    requires |major| == |minor|
    ensures IsStableOrder(major, minor, order)
  {
    order := [];
    for n := 0 to |major|
      invariant |order| == n
      invariant SortedPositions(major, minor, order)
      invariant forall i :: i in order <==> 0 <= i < n
    {
      var k := |order|;
      forall x | 0 <= x < |order| ensures order[x] < n {
        assert order[x] in order;
      }
      while k > 0 && (major[n] < major[order[k - 1]] ||
                      (major[n] == major[order[k - 1]] && minor[n] < minor[order[k - 1]]))
        invariant 0 <= k <= |order|
        invariant forall x :: k <= x < |order| ==> Before(major, minor, n, order[x])
      {
        k := k - 1;
      }
      assert k > 0 ==> Before(major, minor, order[k - 1], n);
      assert forall x :: 0 <= x < k ==> Before(major, minor, order[x], n);
      InsertAt(major, minor, order, k, n);
      order := order[..k] + [n] + order[k..];
    }
  }

  lemma InsertAt(major: seq<nat>, minor: seq<nat>, order: seq<nat>, k: nat, n: nat)
    requires |major| == |minor| && n < |major| && k <= |order|
    requires SortedPositions(major, minor, order)
    requires forall x :: 0 <= x < k ==> Before(major, minor, order[x], n)
    requires forall x :: k <= x < |order| ==> Before(major, minor, n, order[x])
    ensures var o := order[..k] + [n] + order[k..];
            SortedPositions(major, minor, o) && forall i :: i in o <==> i in order || i == n
  {
    InsertMembers(order, k, n);
    var o := order[..k] + [n] + order[k..];
    forall x | 0 <= x < |o| ensures o[x] == if x < k then order[x] else if x == k then n else order[x - 1] {}
  }

  lemma InsertMembers(order: seq<nat>, k: nat, n: nat)
    requires k <= |order|
    ensures forall i :: i in order[..k] + [n] + order[k..] <==> i in order || i == n
  {
    assert order == order[..k] + order[k..];
  }
}
