/** Junction boxes, second reading: wire up pairs from the closest on until
    every box is in one circuit; the answer multiplies the X coordinates of
    the two boxes of the pair that closes it. */
module Day8P2 {
  import opened Wrappers
  import opened Sorting
  import opened Clusters
  import opened Pairing
  import opened Day8P1

  /** Lines 82-97: every pair of boxes, by distance, ties in input order. */
  function ByDistance(points: seq<Point>): seq<Pair>
  {
    SortBy(Combos(points, Dist, 0), Value)
  }

  /** There is a pair exactly when there are two boxes. */
  lemma PairsExist(points: seq<Point>)
    ensures ByDistance(points) != [] <==> |points| >= 2
  {
    CombosExist(points, Dist);
    SortByElements(Combos(points, Dist, 0), Value, Pair(0, 0, 0));
  }

  /** Every two boxes end up connected once all pairs are wired. */
  lemma AllPairsConnect(points: seq<Point>)
    ensures AllLinked(Pairs(ByDistance(points)), |points|)
  {
    var ls := ByDistance(points);
    var ps := Pairs(ls);
    forall x: nat, y: nat | x < |points| && y < |points|
      ensures Linked(ps, x, y)
    {
      if x == y {
        LinkedRefl(ps, x);
      } else {
        var lo, hi := if x < y then x else y, if x < y then y else x;
        var l := Pair(lo, hi, Dist(points[lo], points[hi]));
        SortByElements(Combos(points, Dist, 0), Value, l);
        var i :| 0 <= i < |ls| && ls[i] == l;
        LinkedPair(ps, i);
        LinkedSymmetric(ps, lo, hi);
      }
    }
  }

  /** Lines 71-78 and 98-108 over any list of pairs of box numbers: start
      with one circuit per box, wire the pairs in order and stop at the
      first after which one circuit is left, returning its index. */
  method FirstJoin(n: nat, ps: seq<(nat, nat)>) returns (r: Option<nat>)
    requires PairsBelow(ps, n)
    ensures r.None? <==> n == 0 || ps == [] || !AllLinked(ps, n)
    ensures r.Some? ==> r.value < |ps| && AllLinked(ps[..r.value + 1], n)
    ensures r.Some? && n >= 2 ==> !AllLinked(ps[..r.value], n)
  {
    var circuits := Singletons(n);
    SingletonsPartition(n);
    if n == 0 {
      return None;
    }
    for k := 0 to |ps|
      invariant Tracks(circuits, n, ps[..k])
      invariant k > 0 ==> |circuits| != 1
    {
      if k == 0 {
        if n >= 2 {
          assert !Linked([], 0, 1);
          assert ps[..0] == [];
          assert !AllLinked(ps[..0], n);
        }
      } else {
        OneCluster(circuits, n, ps[..k]);
      }
      circuits := Step(circuits, n, ps, k, ps[k].0, ps[k].1);
      if |circuits| == 1 {
        OneCluster(circuits, n, ps[..k + 1]);
        AllLinkedPrefix(ps, k + 1, n);
        return Some(k);
      }
    }
    if ps != [] {
      assert ps[..|ps|] == ps;
      OneCluster(circuits, n, ps);
    }
    return None;
  }

  /** Lines 98-110 on the pairs by distance; the `unwrap` of line 110 panics
      when the pairs run out first, which happens exactly when there are
      fewer than two boxes. */
  method LastJoin(points: seq<Point>) returns (r: Option<nat>)
    ensures r.None? <==> |points| < 2
    ensures r.Some? ==> r.value < |ByDistance(points)|
    ensures r.Some? ==> AllLinked(Pairs(ByDistance(points)[..r.value + 1]), |points|)
    ensures r.Some? ==> !AllLinked(Pairs(ByDistance(points)[..r.value]), |points|)
  {
    var ls := ByDistance(points);
    ClosestPairsBelow(points);
    PairsExist(points);
    AllPairsConnect(points);
    r := FirstJoin(|points|, Pairs(ls));
    if r.Some? {
      assert Pairs(ls[..r.value + 1]) == Pairs(ls)[..r.value + 1];
      assert Pairs(ls[..r.value]) == Pairs(ls)[..r.value];
    }
  }

  /** The pairs' box numbers are box numbers. */
  lemma ClosestPairsBelow(points: seq<Point>)
    ensures PairsBelow(Pairs(ByDistance(points)), |points|)
  {
    var ls := ByDistance(points);
    forall k | 0 <= k < |ls|
      ensures ls[k].a < |points| && ls[k].b < |points|
    {
      SortByElements(Combos(points, Dist, 0), Value, ls[k]);
    }
  }

  /** Lines 112-116: the X coordinates of the last pair's boxes multiplied. */
  method Answer(points: seq<Point>) returns (r: Option<int>)
    ensures r.None? <==> |points| < 2
    ensures r.Some? ==> exists k | 0 <= k < |ByDistance(points)| ::
      AllLinked(Pairs(ByDistance(points)[..k + 1]), |points|) &&
      !AllLinked(Pairs(ByDistance(points)[..k]), |points|) &&
      ByDistance(points)[k].a < |points| && ByDistance(points)[k].b < |points| &&
      r.value == points[ByDistance(points)[k].a].0 * points[ByDistance(points)[k].b].0
  {
    var last := LastJoin(points);
    if last.None? {
      return None;
    }
    var k := last.value;
    var l := ByDistance(points)[k];
    ClosestPairsBelow(points);
    assert Pairs(ByDistance(points))[k] == (l.a, l.b);
    return Some(points[l.a].0 * points[l.b].0);
  }
}
