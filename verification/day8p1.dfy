/** Junction boxes in space: the closest pairs of boxes are wired together,
    and the answer multiplies the sizes of the three largest circuits after
    the first thousand pairs. */
module Day8P1 {
  import opened Sorting
  import opened Clusters
  import opened Pairing

  type Point = (int, int, int)

  /** Lines 83-85: the squared distance. */
  function Dist(p: Point, q: Point): (d: int)
    ensures d >= 0
  {
    Square(p.0 - q.0) + Square(p.1 - q.1) + Square(p.2 - q.2)
  }

  function Square(x: int): (s: int)
    ensures s >= 0 && (s == 0 <==> x == 0)
  {
    if x == 0 then 0
    else
      assert x * x > 0 by {
        if x < 0 {
          assert x * x == (-x) * (-x);
        }
      }
      x * x
  }

  /** The distance does not depend on the order of the two boxes, and is 0
      only from a box to a box at the same place. */
  lemma DistSymmetric(p: Point, q: Point)
    ensures Dist(p, q) == Dist(q, p)
    ensures Dist(p, q) == 0 <==> p == q
  {
    SquareNeg(p.0 - q.0);
    SquareNeg(p.1 - q.1);
    SquareNeg(p.2 - q.2);
  }

  lemma SquareNeg(x: int)
    ensures Square(-x) == Square(x)
  {
  }

  const TopN: nat := 1000

  /** Lines 89-91: the pairs by distance, ties in input order, the first
      `TopN` of them. */
  function Closest(points: seq<Point>): (r: seq<Pair>)
  {
    var sorted := SortBy(Combos(points, Dist, 0), Value);
    sorted[..if |sorted| < TopN then |sorted| else TopN]
  }

  /** The pairs taken are pairs of boxes at their distance. */
  lemma ClosestArePairs(points: seq<Point>)
    ensures forall l | l in Closest(points) :: l.a < l.b < |points| && l.value == Dist(points[l.a], points[l.b])
  {
    var all := Combos(points, Dist, 0);
    forall l | l in Closest(points)
      ensures l in all
    {
      SortByElements(all, Value, l);
    }
  }

  /** No pair left out is nearer than a pair taken, and `TopN` are taken
      unless there are fewer pairs. */
  lemma ClosestAreNearest(points: seq<Point>)
    ensures forall l, m | l in Closest(points) && m in Combos(points, Dist, 0) :: l.value <= m.value || m in Closest(points)
    ensures |Closest(points)| == if |Combos(points, Dist, 0)| < TopN then |Combos(points, Dist, 0)| else TopN
  {
    var all := Combos(points, Dist, 0);
    var k := if |all| < TopN then |all| else TopN;
    SortedPrefixSmallest(all, Value, k);
  }

  /** The box numbers of every pair taken are box numbers. */
  lemma ClosestBelow(points: seq<Point>)
    ensures PairsBelow(Pairs(Closest(points)), |points|)
  {
    ClosestArePairs(points);
    var cl := Closest(points);
    forall k | 0 <= k < |cl|
      ensures cl[k].a < |points| && cl[k].b < |points|
    {
      assert cl[k] in cl;
    }
  }

  /** The box numbers of each pair. */
  function Pairs(ls: seq<Pair>): (ps: seq<(nat, nat)>)
    ensures |ps| == |ls| && forall k | 0 <= k < |ls| :: ps[k] == (ls[k].a, ls[k].b)
  {
    seq(|ls|, k requires 0 <= k < |ls| => (ls[k].a, ls[k].b))
  }

  /** Line 113: the circuit sizes. */
  function Sizes(cs: seq<Cluster>): (r: seq<int>)
    ensures |r| == |cs| && forall i | 0 <= i < |cs| :: r[i] == |cs[i]|
  {
    seq(|cs|, i requires 0 <= i < |cs| => |cs[i]|)
  }

  /** The sum of a list of sizes. */
  function Total(xs: seq<int>): int
  {
    if xs == [] then 0 else Total(xs[..|xs| - 1]) + xs[|xs| - 1]
  }

  /** Every point some cluster holds. */
  ghost function Members(cs: seq<Cluster>): set<nat>
  {
    if cs == [] then {} else Members(cs[..|cs| - 1]) + cs[|cs| - 1]
  }

  lemma {:induction false} MembersIn(cs: seq<Cluster>, x: nat)
    ensures x in Members(cs) <==> In(cs, x)
    decreases |cs|
  {
    if cs != [] {
      var front := cs[..|cs| - 1];
      MembersIn(front, x);
      if In(front, x) {
        var i :| 0 <= i < |front| && x in front[i];
        assert x in cs[i];
      }
      if In(cs, x) && x !in cs[|cs| - 1] {
        var i :| 0 <= i < |cs| && x in cs[i];
        assert x in front[i];
      }
    }
  }

  /** On clusters no two of which share a point, the sizes add up to the
      number of points held. */
  lemma {:induction false} DisjointTotal(cs: seq<Cluster>)
    requires forall i, j | 0 <= i < j < |cs| :: cs[i] * cs[j] == {}
    ensures Total(Sizes(cs)) == |Members(cs)|
    decreases |cs|
  {
    if cs != [] {
      var front := cs[..|cs| - 1];
      var last := cs[|cs| - 1];
      DisjointTotal(front);
      assert Sizes(cs)[..|cs| - 1] == Sizes(front);
      forall x | x in last
        ensures x !in Members(front)
      {
        forall i | 0 <= i < |front|
          ensures x !in front[i]
        {
          assert front[i] == cs[i] && x in cs[|cs| - 1];
          assert x !in cs[i] * cs[|cs| - 1];
        }
        MembersIn(front, x);
      }
      assert Members(front) * last == {};
    }
  }

  /** The points `0 .. n - 1`. */
  ghost function Points(n: nat): set<nat>
  {
    if n == 0 then {} else Points(n - 1) + {n - 1}
  }

  lemma {:induction false} PointsSize(n: nat)
    ensures |Points(n)| == n
    ensures forall x: nat :: x in Points(n) <==> x < n
  {
    if n > 0 {
      PointsSize(n - 1);
    }
  }

  /** Line 113: the circuit sizes of a partition of the boxes add up to the
      number of boxes, one size per circuit. */
  lemma SizesPartition(cs: seq<Cluster>, n: nat)
    requires Partition(cs, n)
    ensures |Sizes(cs)| == |cs|
    ensures Total(Sizes(cs)) == n
    ensures forall i | 0 <= i < |cs| :: Sizes(cs)[i] >= 1
  {
    DisjointTotal(cs);
    forall x: nat
      ensures x in Members(cs) <==> x < n
    {
      MembersIn(cs, x);
    }
    PointsSize(n);
    assert Members(cs) == Points(n);
    forall i | 0 <= i < |cs|
      ensures Sizes(cs)[i] >= 1
    {
      assert cs[i] != {};
    }
  }

  function Id(x: int): int
  {
    x
  }

  /** Lines 114-116: `sorted().rev().take(3)`, the three largest sizes. */
  function Largest(sizes: seq<int>): (top: seq<int>)
  {
    var desc := Descending(sizes);
    desc[..if |desc| < 3 then |desc| else 3]
  }

  /** `sorted().rev()`: the sizes, largest first. */
  function Descending(sizes: seq<int>): seq<int>
  {
    SortDescBy(sizes, Id)
  }

  /** The sizes taken are the first three (all, if there are fewer) of the
      sizes largest first, so none left out is larger than one taken. */
  lemma LargestSpec(sizes: seq<int>)
    ensures var desc := Descending(sizes);
      |desc| == |sizes| && Largest(sizes) == desc[..if |sizes| < 3 then |sizes| else 3] &&
      forall i, j | 0 <= i < |Largest(sizes)| <= j < |desc| :: desc[j] <= desc[i]
  {
    var desc := Descending(sizes);
    assert |desc| == |multiset(desc)| == |sizes|;
  }

  /** Line 117: `fold(1, |acc, n| acc * n)`. */
  function Product(xs: seq<int>): int
    decreases |xs|
  {
    if xs == [] then 1 else Product(xs[..|xs| - 1]) * xs[|xs| - 1]
  }

  /** Lines 103-106 for pair `k`. */
  function Step(cs: seq<Cluster>, n: nat, ps: seq<(nat, nat)>, k: nat, a: nat, b: nat): (r: seq<Cluster>)
    requires k < |ps| && ps[k] == (a, b) && a < n && b < n && Tracks(cs, n, ps[..k])
    ensures Tracks(r, n, ps[..k + 1])
  {
    ConnectTracks(cs, n, ps[..k], a, b);
    assert ps[..k + 1] == ps[..k] + [(a, b)];
    Connect(cs, a, b).value
  }

  /** Lines 69-122: wire up the closest pairs in order and multiply the
      three largest circuit sizes. The circuits are the groups the pairs
      connect, one per box to start with; the circuits are returned
      alongside the answer. */
  method Answer(points: seq<Point>) returns (r: int, circuits: seq<Cluster>)
    ensures Tracks(circuits, |points|, Pairs(Closest(points)))
    ensures r == Product(Largest(Sizes(circuits)))
  {
    var n := |points|;
    var closest := Closest(points);
    var ps := Pairs(closest);
    ClosestBelow(points);
    circuits := Singletons(n);
    SingletonsPartition(n);
    for k := 0 to |closest|
      invariant Tracks(circuits, n, ps[..k])
    {
      var l := closest[k];
      circuits := Step(circuits, n, ps, k, l.a, l.b);
    }
    assert ps[..|closest|] == ps;
    r := Product(Largest(Sizes(circuits)));
  }
}
