/** Junction-box circuits: a list of clusters of point numbers, searched for
    the cluster holding a point and merged two at a time. */
module Clusters {
  import opened Wrappers

  type Cluster = set<nat>

  /** The first cluster from `i` on that holds `n`. */
  function FindFrom(n: nat, cs: seq<Cluster>, i: nat): (r: Option<nat>)
    requires i <= |cs|
    ensures r.None? <==> forall j | i <= j < |cs| :: n !in cs[j]
    ensures r.Some? ==> i <= r.value < |cs| && n in cs[r.value]
    ensures r.Some? ==> forall j | i <= j < r.value :: n !in cs[j]
    decreases |cs| - i
  {
    if i == |cs| then None
    else if n in cs[i] then Some(i)
    else FindFrom(n, cs, i + 1)
  }

  /** `find_n_in_clusters` (src/bin/day8p1.rs lines 44-54): the index of the
      first cluster holding `n`; the `unwrap` panics when none does. */
  function Find(n: nat, cs: seq<Cluster>): (r: Option<nat>)
    ensures r.None? <==> forall j | 0 <= j < |cs| :: n !in cs[j]
    ensures r.Some? ==> r.value < |cs| && n in cs[r.value]
    ensures r.Some? ==> forall j | 0 <= j < r.value :: n !in cs[j]
  {
    FindFrom(n, cs, 0)
  }

  /** `Vec::swap_remove`: the last element takes the place of the removed one. */
  function SwapRemove<T>(s: seq<T>, i: nat): (r: seq<T>)
    requires i < |s|
    ensures |r| == |s| - 1
    ensures forall j | 0 <= j < |r| :: r[j] == s[Source(s, i, j)]
  {
    s[i := s[|s| - 1]][..|s| - 1]
  }

  /** Where the element at `j` after `SwapRemove(s, i)` came from. */
  function Source<T>(s: seq<T>, i: nat, j: nat): (k: nat)
    requires i < |s|
    ensures j < |s| - 1 ==> k < |s| && k != i
  {
    if j == i then |s| - 1 else j
  }

  /** `join_clusters` (lines 56-65): for two different indices, remove the
      larger then the smaller and push the union of the two clusters. */
  function Join(i1: nat, i2: nat, cs: seq<Cluster>): (r: seq<Cluster>)
    requires i1 < |cs| && i2 < |cs|
    ensures i1 == i2 ==> r == cs
    ensures i1 != i2 ==> |r| == |cs| - 1 && r[|r| - 1] == cs[i1] + cs[i2]
  {
    if i1 == i2 then cs
    else
      var bigger := if i1 > i2 then i1 else i2;
      var smaller := if i1 > i2 then i2 else i1;
      var cluster1 := cs[bigger];
      var rest := SwapRemove(cs, bigger);
      assert rest[smaller] == cs[smaller];
      var cluster2 := rest[smaller];
      SwapRemove(rest, smaller) + [cluster1 + cluster2]
  }

  /** The clusters before the union is pushed, with where each came from. */
  lemma JoinKept(i1: nat, i2: nat, cs: seq<Cluster>, j: nat)
    requires i1 < |cs| && i2 < |cs| && i1 != i2 && j < |cs| - 2
    ensures var k := Kept(i1, i2, cs, j);
      k < |cs| && k != i1 && k != i2 && Join(i1, i2, cs)[j] == cs[k]
  {
  }

  /** The index in `cs` of the `j`-th cluster `Join` keeps. */
  function Kept(i1: nat, i2: nat, cs: seq<Cluster>, j: nat): nat
    requires i1 < |cs| && i2 < |cs| && i1 != i2 && j < |cs| - 2
  {
    var bigger := if i1 > i2 then i1 else i2;
    var smaller := if i1 > i2 then i2 else i1;
    var rest := SwapRemove(cs, bigger);
    Source(cs, bigger, Source(rest, smaller, j))
  }

  /** Different kept clusters come from different places. */
  lemma KeptInjective(i1: nat, i2: nat, cs: seq<Cluster>, j: nat, j': nat)
    requires i1 < |cs| && i2 < |cs| && i1 != i2 && j < j' < |cs| - 2
    ensures Kept(i1, i2, cs, j) != Kept(i1, i2, cs, j')
  {
  }

  /** Every cluster `Join` keeps was a cluster of `cs` other than the two
      merged, and every such cluster is kept. */
  lemma KeptOnto(i1: nat, i2: nat, cs: seq<Cluster>, k: nat)
    requires i1 < |cs| && i2 < |cs| && i1 != i2 && k < |cs| && k != i1 && k != i2
    ensures exists j | 0 <= j < |cs| - 2 :: Kept(i1, i2, cs, j) == k
  {
    var bigger := if i1 > i2 then i1 else i2;
    var smaller := if i1 > i2 then i2 else i1;
    var m := if k == |cs| - 1 then bigger else k;
    var j := if m == |cs| - 2 then smaller else m;
    assert Kept(i1, i2, cs, j) == k;
  }

  /** `x` is in some cluster. */
  ghost predicate In(cs: seq<Cluster>, x: nat)
  {
    exists i | 0 <= i < |cs| :: x in cs[i]
  }

  /** `x` and `y` are in one cluster. */
  ghost predicate Together(cs: seq<Cluster>, x: nat, y: nat)
  {
    exists i | 0 <= i < |cs| :: x in cs[i] && y in cs[i]
  }

  /** The clusters split the points `0 .. n - 1`: none empty, no point in two,
      every point in one. */
  ghost predicate Partition(cs: seq<Cluster>, n: nat)
  {
    (forall i | 0 <= i < |cs| :: cs[i] != {}) &&
    (forall i, j | 0 <= i < j < |cs| :: cs[i] * cs[j] == {}) &&
    (forall i, x | 0 <= i < |cs| && x in cs[i] :: x < n) &&
    (forall x: nat | x < n :: In(cs, x))
  }

  /** Lines 93-99: one cluster per point. */
  function Singletons(n: nat): (cs: seq<Cluster>)
    ensures |cs| == n && forall i | 0 <= i < n :: cs[i] == {i}
  {
    seq(n, i => {i})
  }

  lemma SingletonsPartition(n: nat)
    ensures Partition(Singletons(n), n)
    ensures forall x: nat, y: nat | x < n && y < n :: Together(Singletons(n), x, y) <==> x == y
  {
    var cs := Singletons(n);
    forall x: nat | x < n
      ensures In(cs, x)
    {
      assert x in cs[x];
    }
    forall x: nat, y: nat | x < n && y < n && x == y
      ensures Together(cs, x, y)
    {
      assert x in cs[x];
    }
  }

  /** In a partition a point's cluster is the only one holding it. */
  lemma OnlyCluster(cs: seq<Cluster>, n: nat, i: nat, j: nat, x: nat)
    requires Partition(cs, n) && i < |cs| && j < |cs|
    ensures x in cs[i] && x in cs[j] ==> i == j
  {
    if i < j {
      assert x !in cs[i] * cs[j];
    } else if j < i {
      assert x !in cs[j] * cs[i];
    }
  }

  /** Every point of a partition is found. */
  lemma FindTotal(cs: seq<Cluster>, n: nat, x: nat)
    requires Partition(cs, n) && x < n
    ensures Find(x, cs).Some?
  {
    assert In(cs, x);
  }

  /** Merging two clusters of a partition leaves a partition. */
  lemma JoinPartition(i1: nat, i2: nat, cs: seq<Cluster>, n: nat)
    requires Partition(cs, n) && i1 < |cs| && i2 < |cs|
    ensures Partition(Join(i1, i2, cs), n)
  {
    if i1 != i2 {
      var r := Join(i1, i2, cs);
      var last := |r| - 1;
      forall i | 0 <= i < |r|
        ensures r[i] != {}
      {
        if i < last {
          JoinKept(i1, i2, cs, i);
        }
      }
      forall i, j | 0 <= i < j < |r|
        ensures r[i] * r[j] == {}
      {
        JoinDisjoint(i1, i2, cs, n, i, j);
      }
      forall i, x | 0 <= i < |r| && x in r[i]
        ensures x < n
      {
        if i < last {
          JoinKept(i1, i2, cs, i);
        }
      }
      forall x: nat | x < n
        ensures In(r, x)
      {
        JoinIn(i1, i2, cs, n, x);
      }
    }
  }

  lemma JoinDisjoint(i1: nat, i2: nat, cs: seq<Cluster>, n: nat, i: nat, j: nat)
    requires Partition(cs, n) && i1 < |cs| && i2 < |cs| && i1 != i2
    requires i < j < |cs| - 1
    ensures Join(i1, i2, cs)[i] * Join(i1, i2, cs)[j] == {}
  {
    var r := Join(i1, i2, cs);
    JoinKept(i1, i2, cs, i);
    var k := Kept(i1, i2, cs, i);
    if j < |cs| - 2 {
      JoinKept(i1, i2, cs, j);
      KeptInjective(i1, i2, cs, i, j);
      var k' := Kept(i1, i2, cs, j);
      forall x | x in r[i] && x in r[j]
        ensures false
      {
        OnlyCluster(cs, n, k, k', x);
      }
    } else {
      forall x | x in r[i] && x in r[j]
        ensures false
      {
        if x in cs[i1] {
          OnlyCluster(cs, n, k, i1, x);
        } else {
          OnlyCluster(cs, n, k, i2, x);
        }
      }
    }
  }

  lemma JoinIn(i1: nat, i2: nat, cs: seq<Cluster>, n: nat, x: nat)
    requires Partition(cs, n) && i1 < |cs| && i2 < |cs| && i1 != i2 && x < n
    ensures In(Join(i1, i2, cs), x)
  {
    var r := Join(i1, i2, cs);
    assert In(cs, x);
    var k :| 0 <= k < |cs| && x in cs[k];
    if k == i1 || k == i2 {
      assert x in r[|r| - 1];
    } else {
      KeptOnto(i1, i2, cs, k);
      var j :| 0 <= j < |cs| - 2 && Kept(i1, i2, cs, j) == k;
      JoinKept(i1, i2, cs, j);
      assert x in r[j];
    }
  }

  /** With `a` in cluster `i` of a partition, the points with `a` are those of `i`. */
  lemma TogetherWith(cs: seq<Cluster>, n: nat, a: nat, i: nat, x: nat)
    requires Partition(cs, n) && i < |cs| && a in cs[i]
    ensures Together(cs, x, a) <==> x in cs[i]
    ensures Together(cs, a, x) <==> x in cs[i]
  {
    if Together(cs, x, a) {
      var k :| 0 <= k < |cs| && x in cs[k] && a in cs[k];
      OnlyCluster(cs, n, k, i, a);
    }
    if Together(cs, a, x) {
      var k :| 0 <= k < |cs| && a in cs[k] && x in cs[k];
      OnlyCluster(cs, n, k, i, a);
    }
  }

  /** Lines 104-106: find the clusters of `a` and `b` and merge them. */
  function Connect(cs: seq<Cluster>, a: nat, b: nat): (r: Option<seq<Cluster>>)
    ensures r.None? <==> !In(cs, a) || !In(cs, b)
  {
    var i1 :- Find(a, cs);
    var i2 :- Find(b, cs);
    Some(Join(i1, i2, cs))
  }

  /** After connecting `a` and `b`, two points share a cluster when they did
      before or when one was with `a` and the other with `b`. */
  lemma ConnectTogether(cs: seq<Cluster>, n: nat, a: nat, b: nat, x: nat, y: nat)
    requires Partition(cs, n) && a < n && b < n
    ensures Connect(cs, a, b).Some?
    ensures Together(Connect(cs, a, b).value, x, y) <==>
      Together(cs, x, y) || (Together(cs, x, a) && Together(cs, b, y)) || (Together(cs, x, b) && Together(cs, a, y))
  {
    FindTotal(cs, n, a);
    FindTotal(cs, n, b);
    var i1, i2 := Find(a, cs).value, Find(b, cs).value;
    var r := Join(i1, i2, cs);
    TogetherWith(cs, n, a, i1, x);
    TogetherWith(cs, n, a, i1, y);
    TogetherWith(cs, n, b, i2, x);
    TogetherWith(cs, n, b, i2, y);
    if i1 != i2 {
      JoinTogether(i1, i2, cs, n, x, y);
    }
  }

  /** Two points share a cluster after `Join` when they shared one before or
      both lie in the two merged clusters. */
  lemma JoinTogether(i1: nat, i2: nat, cs: seq<Cluster>, n: nat, x: nat, y: nat)
    requires Partition(cs, n) && i1 < |cs| && i2 < |cs| && i1 != i2
    ensures Together(Join(i1, i2, cs), x, y) <==>
      Together(cs, x, y) || (x in cs[i1] + cs[i2] && y in cs[i1] + cs[i2])
  {
    var r := Join(i1, i2, cs);
    if Together(r, x, y) {
      var j :| 0 <= j < |r| && x in r[j] && y in r[j];
      if j < |r| - 1 {
        JoinKept(i1, i2, cs, j);
      }
    }
    if Together(cs, x, y) {
      var k :| 0 <= k < |cs| && x in cs[k] && y in cs[k];
      if k == i1 || k == i2 {
        assert x in r[|r| - 1] && y in r[|r| - 1];
      } else {
        KeptOnto(i1, i2, cs, k);
        var j :| 0 <= j < |cs| - 2 && Kept(i1, i2, cs, j) == k;
        JoinKept(i1, i2, cs, j);
        assert x in r[j] && y in r[j];
      }
    }
    if x in cs[i1] + cs[i2] && y in cs[i1] + cs[i2] {
      assert x in r[|r| - 1] && y in r[|r| - 1];
    }
  }

  /** What the pairs so far connect: each pair joins the points already
      linked to its two ends. */
  ghost predicate Linked(ps: seq<(nat, nat)>, x: nat, y: nat)
    decreases |ps|
  {
    if ps == [] then x == y
    else
      var front := ps[..|ps| - 1];
      var a := ps[|ps| - 1].0;
      var b := ps[|ps| - 1].1;
      Linked(front, x, y) || (Linked(front, x, a) && Linked(front, b, y)) ||
      (Linked(front, x, b) && Linked(front, a, y))
  }

  /** The pairs' points are all below `n`. */
  predicate PairsBelow(ps: seq<(nat, nat)>, n: nat)
  {
    forall k | 0 <= k < |ps| :: ps[k].0 < n && ps[k].1 < n
  }

  /** The clusters are a partition whose shared clusters are exactly the links. */
  ghost predicate Tracks(cs: seq<Cluster>, n: nat, ps: seq<(nat, nat)>)
  {
    Partition(cs, n) && forall x: nat, y: nat | x < n && y < n :: Together(cs, x, y) <==> Linked(ps, x, y)
  }

  /** Connecting the ends of one more pair keeps the clusters tracking the links. */
  lemma ConnectTracks(cs: seq<Cluster>, n: nat, ps: seq<(nat, nat)>, a: nat, b: nat)
    requires Tracks(cs, n, ps) && a < n && b < n
    ensures Connect(cs, a, b).Some?
    ensures Tracks(Connect(cs, a, b).value, n, ps + [(a, b)])
  {
    FindTotal(cs, n, a);
    FindTotal(cs, n, b);
    JoinPartition(Find(a, cs).value, Find(b, cs).value, cs, n);
    var ps' := ps + [(a, b)];
    assert ps'[..|ps'| - 1] == ps;
    forall x: nat, y: nat | x < n && y < n
      ensures Together(Connect(cs, a, b).value, x, y) <==> Linked(ps', x, y)
    {
      ConnectTogether(cs, n, a, b, x, y);
    }
  }

  /** Lines 93-109: start from one cluster per point and connect the pairs
      in order; `None` if a point is missing from every cluster. */
  function ConnectAll(n: nat, ps: seq<(nat, nat)>): (r: Option<seq<Cluster>>)
    decreases |ps|
  {
    if ps == [] then Some(Singletons(n))
    else
      match ConnectAll(n, ps[..|ps| - 1])
      case None => None
      case Some(cs) => Connect(cs, ps[|ps| - 1].0, ps[|ps| - 1].1)
  }

  /** With every point below `n` no `unwrap` fails, and the clusters are the
      connected groups of the pairs. */
  lemma {:induction false} ConnectAllTracks(n: nat, ps: seq<(nat, nat)>)
    requires PairsBelow(ps, n)
    ensures ConnectAll(n, ps).Some?
    ensures Tracks(ConnectAll(n, ps).value, n, ps)
    decreases |ps|
  {
    if ps == [] {
      SingletonsPartition(n);
    } else {
      var front, last := ps[..|ps| - 1], ps[|ps| - 1];
      assert PairsBelow(front, n) by {
        forall k | 0 <= k < |front|
          ensures front[k].0 < n && front[k].1 < n
        {
          assert front[k] == ps[k];
        }
      }
      ConnectAllTracks(n, front);
      var cs := ConnectAll(n, front).value;
      ConnectTracks(cs, n, front, last.0, last.1);
      FrontAndLast(ps);
    }
  }

  /** A non-empty list is its front followed by its last pair. */
  lemma FrontAndLast(ps: seq<(nat, nat)>)
    requires ps != []
    ensures ps == ps[..|ps| - 1] + [(ps[|ps| - 1].0, ps[|ps| - 1].1)]
  {
  }

  lemma {:induction false} LinkedRefl(ps: seq<(nat, nat)>, x: nat)
    ensures Linked(ps, x, x)
    decreases |ps|
  {
    if ps != [] {
      LinkedRefl(ps[..|ps| - 1], x);
    }
  }

  lemma {:induction false} LinkedSymmetric(ps: seq<(nat, nat)>, x: nat, y: nat)
    ensures Linked(ps, x, y) ==> Linked(ps, y, x)
    decreases |ps|
  {
    if ps != [] {
      var front := ps[..|ps| - 1];
      var a, b := ps[|ps| - 1].0, ps[|ps| - 1].1;
      LinkedSymmetric(front, x, y);
      LinkedSymmetric(front, x, a);
      LinkedSymmetric(front, b, y);
      LinkedSymmetric(front, x, b);
      LinkedSymmetric(front, a, y);
    }
  }

  /** More pairs never disconnect anything. */
  lemma {:induction false} LinkedPrefix(ps: seq<(nat, nat)>, i: nat, x: nat, y: nat)
    requires i <= |ps|
    ensures Linked(ps[..i], x, y) ==> Linked(ps, x, y)
    decreases |ps|
  {
    if i < |ps| {
      var front := ps[..|ps| - 1];
      assert front[..i] == ps[..i];
      LinkedPrefix(front, i, x, y);
    } else {
      assert ps[..i] == ps;
    }
  }

  /** The two ends of a pair are connected. */
  lemma LinkedPair(ps: seq<(nat, nat)>, i: nat)
    requires i < |ps|
    ensures Linked(ps, ps[i].0, ps[i].1)
  {
    var pre := ps[..i + 1];
    assert pre[..i] == ps[..i];
    LinkedRefl(ps[..i], ps[i].0);
    LinkedRefl(ps[..i], ps[i].1);
    LinkedPrefix(ps, i + 1, ps[i].0, ps[i].1);
  }

  /** The pairs connect every two points below `n`. */
  ghost predicate AllLinked(ps: seq<(nat, nat)>, n: nat)
  {
    forall x: nat, y: nat | x < n && y < n :: Linked(ps, x, y)
  }

  /** More pairs keep every two points connected. */
  lemma AllLinkedPrefix(ps: seq<(nat, nat)>, i: nat, n: nat)
    requires i <= |ps|
    ensures AllLinked(ps[..i], n) ==> AllLinked(ps, n)
  {
    if AllLinked(ps[..i], n) {
      forall x: nat, y: nat | x < n && y < n
        ensures Linked(ps, x, y)
      {
        LinkedPrefix(ps, i, x, y);
      }
    }
  }

  /** A partition has a single cluster exactly when the pairs connect every
      two points. */
  lemma OneCluster(cs: seq<Cluster>, n: nat, ps: seq<(nat, nat)>)
    requires Tracks(cs, n, ps) && n >= 1
    ensures |cs| == 1 <==> AllLinked(ps, n)
  {
    assert In(cs, 0);
    var i0 :| 0 <= i0 < |cs| && 0 in cs[i0];
    if |cs| == 1 {
      forall x: nat, y: nat | x < n && y < n
        ensures Linked(ps, x, y)
      {
        assert In(cs, x) && In(cs, y);
        assert x in cs[0] && y in cs[0];
      }
    }
    if AllLinked(ps, n) {
      var j := if i0 == 0 then 1 else 0;
      if j < |cs| {
        AllWithFirst(cs, n, ps, i0, j);
      }
    }
  }

  /** When every point is connected to 0, every cluster is the one of 0. */
  lemma AllWithFirst(cs: seq<Cluster>, n: nat, ps: seq<(nat, nat)>, i0: nat, j: nat)
    requires Tracks(cs, n, ps) && n >= 1 && i0 < |cs| && 0 in cs[i0] && j < |cs|
    requires AllLinked(ps, n)
    ensures j == i0
  {
    var z :| z in cs[j];
    assert Linked(ps, 0, z);
    TogetherWith(cs, n, 0, i0, z);
    OnlyCluster(cs, n, i0, j, z);
  }
}
