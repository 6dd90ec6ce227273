/** The shortest-path engine's `run` as written: a tentative-cost map, a
    min-frontier of (cost, node) entries and a finalized map. A strictly
    better cost updates the map without pushing a second frontier entry, and
    relaxation adds the edge cost to the cost popped from the frontier. */
module Dijkstra {
  import opened Graph
  import opened PrevPaths

  /** A cost together with the accumulated predecessors. */
  datatype Entry = Entry(cost: nat, prev: Prev)

  /** A frontier entry, ordered by cost first and node second. */
  datatype Item = Item(cost: nat, node: int)

  /** The engine's three structures. */
  datatype State = State(tentative: map<int, Entry>, frontier: multiset<Item>, visited: map<int, Entry>)

  predicate ItemLe(a: Item, b: Item)
  {
    a.cost < b.cost || (a.cost == b.cost && a.node <= b.node)
  }

  function Min(a: nat, b: nat): nat
  {
    if a <= b then a else b
  }

  lemma RestMember(f: multiset<Item>, x: Item, o: Item)
    requires o in f && o != x
    ensures o in f - multiset{x}
  {
    assert (f - multiset{x})[o] == f[o];
  }

  /** `m` is an entry of `f` no greater than any other. */
  predicate IsLeast(m: Item, f: multiset<Item>)
  {
    m in f && forall o | o in f :: ItemLe(m, o)
  }

  /** The least of `f` is the lesser of one entry `x` and the least of the rest. */
  lemma LeastOfRest(f: multiset<Item>, x: Item, m: Item)
    requires x in f && IsLeast(m, f - multiset{x})
    ensures IsLeast(if ItemLe(x, m) then x else m, f)
  {
    var rest := f - multiset{x};
    forall o | o in f
      ensures ItemLe(if ItemLe(x, m) then x else m, o)
    {
      if o != x {
        RestMember(f, x, o);
      }
    }
  }

  lemma LeastOfOne(f: multiset<Item>, x: Item)
    requires x in f && f - multiset{x} == multiset{}
    ensures IsLeast(x, f)
  {
    forall o | o in f
      ensures ItemLe(x, o)
    {
      if o != x {
        RestMember(f, x, o);
      }
    }
  }

  lemma {:induction false} MinExists(f: multiset<Item>)
    requires f != multiset{}
    ensures exists m :: IsLeast(m, f)
    decreases |f|
  {
    var x :| x in f;
    var rest := f - multiset{x};
    if rest == multiset{} {
      LeastOfOne(f, x);
    } else {
      MinExists(rest);
      var m :| IsLeast(m, rest);
      LeastOfRest(f, x, m);
    }
  }

  /** The entry a min-heap pops: the least (cost, node) pair. */
  function PopMin(f: multiset<Item>): (m: Item)
    requires f != multiset{}
    ensures m in f
    ensures forall o | o in f :: ItemLe(m, o)
  {
    MinExists(f);
    var m :| IsLeast(m, f);
    m
  }

  /** One iteration of the inner loop: the edge `e` out of the node `cur`,
      finalized with popped cost `cost`. Visited targets are filtered out. */
  function RelaxEdge(s: State, strategy: Strategy, cur: int, cost: nat, e: Edge): (r: State)
    ensures r.visited == s.visited
    ensures e.to in s.visited ==> r == s
    ensures e.to !in s.visited ==> r.tentative.Keys == s.tentative.Keys + {e.to}
    ensures forall n | n in s.tentative && n != e.to :: r.tentative[n] == s.tentative[n]
    // pushed only when the target is in neither map
    ensures r.frontier == if e.to in s.visited || e.to in s.tentative then s.frontier
                          else s.frontier + multiset{Item(e.cost + cost, e.to)}
    // the target's cost becomes the lesser of its old cost and `e.cost + cost`
    ensures e.to !in s.visited ==>
      r.tentative[e.to].cost == if e.to in s.tentative then Min(s.tentative[e.to].cost, e.cost + cost)
                                else e.cost + cost
    // new or strictly improved: the predecessors restart from `cur`
    ensures e.to !in s.visited && (e.to !in s.tentative || e.cost + cost < s.tentative[e.to].cost) ==>
      r.tentative[e.to].prev == Init(strategy, cur)
    // tied: `cur` is appended
    ensures e.to !in s.visited && e.to in s.tentative && e.cost + cost == s.tentative[e.to].cost ==>
      r.tentative[e.to].prev == Append(s.tentative[e.to].prev, cur)
    // worse: nothing changes
    ensures e.to in s.tentative && e.cost + cost > s.tentative[e.to].cost ==> r == s
  {
    if e.to in s.visited then s
    else
      var alt := e.cost + cost;
      if e.to in s.tentative then
        var val := s.tentative[e.to];
        if val.cost > alt then
          s.(tentative := s.tentative[e.to := Entry(alt, Init(strategy, cur))])
        else if val.cost == alt then
          s.(tentative := s.tentative[e.to := Entry(val.cost, Append(val.prev, cur))])
        else
          s
      else
        s.(frontier := s.frontier + multiset{Item(alt, e.to)},
           tentative := s.tentative[e.to := Entry(alt, Init(strategy, cur))])
  }


  /** Lines 121-122: the popped node leaves the tentative map (the `unwrap`)
      and enters the finalized map with its tentative entry. */
  function Finalize(s: State, it: Item): State
    requires it.node in s.tentative
  {
    State(s.tentative - {it.node}, s.frontier - multiset{it}, s.visited[it.node := s.tentative[it.node]])
  }

  // ---------------------------------------------------------------------------
  // Invariants of `run`

  /** The frontier holds one entry per tentative node, each entry's cost at
      least the node's tentative cost, and the two maps are disjoint. */
  ghost predicate Consistent(s: State)
  {
    && s.tentative.Keys !! s.visited.Keys
    && (forall it | it in s.frontier ::
          it.node in s.tentative && s.frontier[it] == 1 && s.tentative[it.node].cost <= it.cost)
    && (forall a, b | a in s.frontier && b in s.frontier && a.node == b.node :: a == b)
    && |s.frontier| == |s.tentative|
  }

  /** `rank` numbers the finalized nodes 0, 1, ... in finalization order. */
  ghost predicate RankOk(s: State, rank: map<int, nat>)
  {
    && rank.Keys == s.visited.Keys
    && (forall v | v in rank :: rank[v] < |rank|)
    && (forall a, b | a in rank && b in rank && a != b :: rank[a] != rank[b])
  }

  /** Popped costs never decrease: `last` is the latest, every finalized
      cost is at most its popped cost, every frontier cost at least `last`. */
  ghost predicate CostOk(start: Item, s: State, popped: map<int, nat>, last: nat)
  {
    && popped.Keys == s.visited.Keys
    && (forall v | v in s.visited :: start.cost <= s.visited[v].cost <= popped[v] <= last)
    && (forall it | it in s.frontier :: last <= it.cost)
    && (forall n | n in s.tentative :: start.cost <= s.tentative[n].cost)
  }

  ghost predicate ShapeOk(strategy: Strategy, s: State)
  {
    && (forall n | n in s.tentative :: Fits(strategy, s.tentative[n].prev) && Recorded(s.tentative[n].prev) != [])
    && (forall n | n in s.visited :: Fits(strategy, s.visited[n].prev) && Recorded(s.visited[n].prev) != [])
  }

  /** Before the first pop only the start entry exists; afterwards the start
      is finalized first, with its initial entry. */
  ghost predicate StartOk(strategy: Strategy, start: Item, s: State, rank: map<int, nat>, last: nat)
  {
    if s.visited == map[] then
      && s.tentative == map[start.node := Entry(start.cost, Init(strategy, start.node))]
      && s.frontier == multiset{start} && last == start.cost
    else
      && start.node in s.visited && start.node in rank
      && s.visited[start.node] == Entry(start.cost, Init(strategy, start.node))
      && rank[start.node] == 0
  }

  /** `p` reaches `n` over an edge whose cost, added to the cost `p` was
      popped with, is `c`. */
  ghost predicate EdgeFrom(adj: Adjacency, popped: map<int, nat>, p: int, n: int, c: nat)
    requires p in popped
  {
    exists i :: 0 <= i < |adj(p)| && adj(p)[i].to == n && popped[p] + adj(p)[i].cost == c
  }

  /** Every predecessor recorded for `n` is finalized and tied at `n`'s cost. */
  ghost predicate PredsOk(adj: Adjacency, popped: map<int, nat>, n: int, e: Entry)
  {
    forall p | p in Recorded(e.prev) :: p in popped && EdgeFrom(adj, popped, p, n, e.cost)
  }

  ghost predicate AllPredsOk(adj: Adjacency, start: Item, s: State, popped: map<int, nat>)
  {
    && (forall n | n in s.tentative && n != start.node :: PredsOk(adj, popped, n, s.tentative[n]))
    && (forall n | n in s.visited && n != start.node :: PredsOk(adj, popped, n, s.visited[n]))
  }

  /** Finalized nodes were finalized after their recorded predecessors. */
  ghost predicate RankPreds(start: Item, s: State, rank: map<int, nat>)
  {
    forall n, p | n in s.visited && n != start.node && p in Recorded(s.visited[n].prev) ::
      n in rank && p in rank && rank[p] < rank[n]
  }

  /** With unit costs no entry goes stale: every frontier entry carries its
      node's tentative cost, at most one above the last popped cost. */
  ghost predicate UnitBooks(s: State, popped: map<int, nat>, last: nat)
  {
    && (forall it | it in s.frontier :: it.node in s.tentative && it.cost == s.tentative[it.node].cost <= last + 1)
    && (forall n | n in s.tentative :: Item(s.tentative[n].cost, n) in s.frontier)
    && (forall v | v in s.visited && v in popped :: popped[v] == s.visited[v].cost)
  }

  ghost predicate Core(adj: Adjacency, nodes: set<int>, strategy: Strategy, start: Item, s: State,
                       rank: map<int, nat>, popped: map<int, nat>, last: nat)
  {
    && Consistent(s)
    && s.visited.Keys <= nodes && s.tentative.Keys <= nodes
    && RankOk(s, rank)
    && CostOk(start, s, popped, last)
    && ShapeOk(strategy, s)
    && StartOk(strategy, start, s, rank, last)
    && AllPredsOk(adj, start, s, popped)
    && RankPreds(start, s, rank)
    && (UnitCosts(adj, nodes) ==> UnitBooks(s, popped, last))
  }

  /** Edge `i` out of the finalized node `v` has been relaxed: its target is
      finalized or tentative at no more than `v`'s popped cost plus the edge. */
  ghost predicate EdgeRelaxed(adj: Adjacency, s: State, popped: map<int, nat>, v: int, i: int)
    requires v in popped && 0 <= i < |adj(v)|
  {
    var w := adj(v)[i].to;
    var bound := popped[v] + adj(v)[i].cost;
    (w in s.visited && s.visited[w].cost <= bound) || (w in s.tentative && s.tentative[w].cost <= bound)
  }

  /** All edges out of finalized nodes are relaxed, except those of `cur` from index `j` on. */
  ghost predicate RelaxedUpTo(adj: Adjacency, s: State, popped: map<int, nat>, cur: int, j: int)
  {
    forall v, i | v in popped && 0 <= i < |adj(v)| && (v != cur || i < j) :: EdgeRelaxed(adj, s, popped, v, i)
  }

  // ---------------------------------------------------------------------------
  // The table `run` returns

  /** Every predecessor recorded for a non-start node is in the table, was
      finalized before it, and has an edge to it; `rank` is the finalization order. */
  ghost predicate WellFormed(adj: Adjacency, root: int, table: map<int, Entry>, rank: map<int, nat>)
  {
    && root in table
    && Recorded(table[root].prev) == [root]
    && rank.Keys == table.Keys
    && (forall a, b | a in rank && b in rank && a != b :: rank[a] != rank[b])
    && (forall n | n in table :: Recorded(table[n].prev) != [])
    && (forall n | n in table && n != root ::
          forall p | p in Recorded(table[n].prev) :: p in table && rank[p] < rank[n] && HasEdge(adj, p, n))
  }

  /** With unit costs every recorded predecessor sits exactly one below. */
  ghost predicate UnitTable(root: int, table: map<int, Entry>)
  {
    forall n | n in table && n != root ::
      forall p | p in Recorded(table[n].prev) :: p in table && table[n].cost == table[p].cost + 1
  }

  /** Every listed cost is `c0` plus the fewest hops from the root. */
  ghost predicate HopCosts(adj: Adjacency, root: int, table: map<int, Entry>, c0: nat)
  {
    forall n | n in table :: c0 <= table[n].cost && MinHops(adj, root, n, table[n].cost - c0)
  }

  ghost predicate TableFits(strategy: Strategy, table: map<int, Entry>)
  {
    forall n | n in table :: Fits(strategy, table[n].prev)
  }

  // ---------------------------------------------------------------------------
  // Initial state

  lemma StartCore(adj: Adjacency, nodes: set<int>, strategy: Strategy, start: Item)
    requires start.node in nodes
    ensures Core(adj, nodes, strategy, start,
                 State(map[start.node := Entry(start.cost, Init(strategy, start.node))], multiset{start}, map[]),
                 map[], map[], start.cost)
  {
    var s := State(map[start.node := Entry(start.cost, Init(strategy, start.node))], multiset{start}, map[]);
    assert forall it | it in s.frontier :: it == start;
  }

  // ---------------------------------------------------------------------------
  // Popping

  /** The popped entry belongs to a tentative, not yet finalized node. */
  lemma PopFresh(s: State, it: Item)
    requires Consistent(s) && s.frontier != multiset{} && it == PopMin(s.frontier)
    ensures it.node in s.tentative && it.node !in s.visited
  {
  }

  lemma PopConsistent(s: State, it: Item)
    requires Consistent(s) && s.frontier != multiset{} && it == PopMin(s.frontier)
    ensures it.node in s.tentative && it.node !in s.visited
    ensures Consistent(Finalize(s, it))
  {
    var s' := Finalize(s, it);
    assert s.frontier[it] == 1;
    assert s'.frontier[it] == 0;
    forall o | o in s'.frontier
      ensures o in s.frontier && o != it && o.node != it.node
    {
    }
    assert s'.tentative.Keys == s.tentative.Keys - {it.node};
    assert |s'.tentative| == |s.tentative| - 1;
  }

  lemma PopCost(start: Item, s: State, popped: map<int, nat>, last: nat, it: Item)
    requires Consistent(s) && CostOk(start, s, popped, last)
    requires s.frontier != multiset{} && it == PopMin(s.frontier)
    ensures last <= it.cost
    ensures CostOk(start, Finalize(s, it), popped[it.node := it.cost], it.cost)
  {
    PopFresh(s, it);
  }

  lemma PopStart(strategy: Strategy, start: Item, s: State, rank: map<int, nat>, last: nat, it: Item)
    requires Consistent(s) && RankOk(s, rank) && StartOk(strategy, start, s, rank, last)
    requires s.frontier != multiset{} && it == PopMin(s.frontier)
    ensures StartOk(strategy, start, Finalize(s, it), rank[it.node := |rank|], it.cost)
  {
    PopFresh(s, it);
    if s.visited == map[] {
      assert it == start;
      assert |rank| == 0;
    }
  }

  lemma PopRank(s: State, rank: map<int, nat>, it: Item)
    requires Consistent(s) && RankOk(s, rank)
    requires s.frontier != multiset{} && it == PopMin(s.frontier)
    ensures RankOk(Finalize(s, it), rank[it.node := |rank|])
  {
    PopFresh(s, it);
    assert |rank[it.node := |rank|]| == |rank| + 1;
  }

  lemma PopPreds(adj: Adjacency, start: Item, s: State, popped: map<int, nat>, rank: map<int, nat>, it: Item)
    requires Consistent(s) && AllPredsOk(adj, start, s, popped) && RankPreds(start, s, rank)
    requires RankOk(s, rank) && popped.Keys == s.visited.Keys
    requires s.frontier != multiset{} && it == PopMin(s.frontier)
    ensures AllPredsOk(adj, start, Finalize(s, it), popped[it.node := it.cost])
    ensures RankPreds(start, Finalize(s, it), rank[it.node := |rank|])
  {
    PopFresh(s, it);
    var s' := Finalize(s, it);
    var cur := it.node;
    var popped' := popped[cur := it.cost];
    forall n | n in s'.visited && n != start.node
      ensures PredsOk(adj, popped', n, s'.visited[n])
    {
      var e := s'.visited[n];
      assert PredsOk(adj, popped, n, e);
      forall p | p in Recorded(e.prev)
        ensures p in popped' && EdgeFrom(adj, popped', p, n, e.cost)
      {
        assert EdgeFrom(adj, popped, p, n, e.cost);
      }
    }
    forall n | n in s'.tentative && n != start.node
      ensures PredsOk(adj, popped', n, s'.tentative[n])
    {
      var e := s'.tentative[n];
      assert PredsOk(adj, popped, n, e);
      forall p | p in Recorded(e.prev)
        ensures p in popped' && EdgeFrom(adj, popped', p, n, e.cost)
      {
        assert EdgeFrom(adj, popped, p, n, e.cost);
      }
    }
    forall n, p | n in s'.visited && n != start.node && p in Recorded(s'.visited[n].prev)
      ensures p in rank && rank[p] < |rank|
    {
      if n == cur {
        assert PredsOk(adj, popped, n, s.tentative[n]);
      }
    }
  }

  lemma PopUnitFrontier(s: State, last: nat, it: Item)
    requires Consistent(s) && s.frontier != multiset{} && it == PopMin(s.frontier)
    requires forall o | o in s.frontier :: o.node in s.tentative && o.cost == s.tentative[o.node].cost <= last + 1
    requires last <= it.cost
    ensures forall o | o in Finalize(s, it).frontier ::
      o.node in Finalize(s, it).tentative && o.cost == Finalize(s, it).tentative[o.node].cost <= it.cost + 1
  {
    PopConsistent(s, it);
    var s' := Finalize(s, it);
    forall o | o in s'.frontier
      ensures o.node in s'.tentative && o.cost == s'.tentative[o.node].cost <= it.cost + 1
    {
      assert o in s.frontier && o.node != it.node;
    }
  }

  lemma PopUnitTentative(s: State, it: Item)
    requires Consistent(s) && s.frontier != multiset{} && it == PopMin(s.frontier)
    requires forall n | n in s.tentative :: Item(s.tentative[n].cost, n) in s.frontier
    ensures forall n | n in Finalize(s, it).tentative :: Item(Finalize(s, it).tentative[n].cost, n) in Finalize(s, it).frontier
  {
    PopConsistent(s, it);
    var s' := Finalize(s, it);
    forall n | n in s'.tentative
      ensures Item(s'.tentative[n].cost, n) in s'.frontier
    {
      RestMember(s.frontier, it, Item(s.tentative[n].cost, n));
    }
  }

  lemma PopUnitVisited(s: State, popped: map<int, nat>, last: nat, it: Item)
    requires s.frontier != multiset{} && it == PopMin(s.frontier)
    requires forall o | o in s.frontier :: o.node in s.tentative && o.cost == s.tentative[o.node].cost <= last + 1
    requires forall v | v in s.visited && v in popped :: popped[v] == s.visited[v].cost
    ensures forall v | v in Finalize(s, it).visited && v in popped[it.node := it.cost] ::
      popped[it.node := it.cost][v] == Finalize(s, it).visited[v].cost
  {
    assert it.node in s.tentative && it.cost == s.tentative[it.node].cost;
  }

  lemma PopUnit(s: State, popped: map<int, nat>, last: nat, it: Item)
    requires Consistent(s) && UnitBooks(s, popped, last)
    requires s.frontier != multiset{} && it == PopMin(s.frontier) && last <= it.cost
    ensures UnitBooks(Finalize(s, it), popped[it.node := it.cost], it.cost)
  {
    PopUnitFrontier(s, last, it);
    PopUnitTentative(s, it);
    PopUnitVisited(s, popped, last, it);
  }

  lemma PopRelaxed(adj: Adjacency, s: State, popped: map<int, nat>, it: Item, c: int, j: int)
    requires Consistent(s) && popped.Keys == s.visited.Keys
    requires RelaxedUpTo(adj, s, popped, c, j) && (c in s.visited ==> j >= |adj(c)|)
    requires s.frontier != multiset{} && it == PopMin(s.frontier)
    ensures RelaxedUpTo(adj, Finalize(s, it), popped[it.node := it.cost], it.node, 0)
  {
    PopConsistent(s, it);
    var s' := Finalize(s, it);
    var popped' := popped[it.node := it.cost];
    forall v, i | v in popped' && 0 <= i < |adj(v)| && (v != it.node || i < 0)
      ensures EdgeRelaxed(adj, s', popped', v, i)
    {
      assert EdgeRelaxed(adj, s, popped, v, i);
    }
  }

  lemma PopNodes(nodes: set<int>, s: State, it: Item)
    requires s.visited.Keys <= nodes && s.tentative.Keys <= nodes && it.node in s.tentative
    ensures Finalize(s, it).visited.Keys <= nodes && Finalize(s, it).tentative.Keys <= nodes
  {
  }

  lemma PopShape(strategy: Strategy, s: State, it: Item)
    requires ShapeOk(strategy, s) && it.node in s.tentative
    ensures ShapeOk(strategy, Finalize(s, it))
  {
  }

  /** Popping the least entry and finalizing its node keeps the invariants. */
  lemma PopStep(adj: Adjacency, nodes: set<int>, strategy: Strategy, start: Item, s: State,
                rank: map<int, nat>, popped: map<int, nat>, last: nat, it: Item)
    requires Core(adj, nodes, strategy, start, s, rank, popped, last)
    requires s.frontier != multiset{} && it == PopMin(s.frontier)
    ensures it.node in s.tentative && it.node !in s.visited
    ensures Core(adj, nodes, strategy, start, Finalize(s, it), rank[it.node := |rank|],
                 popped[it.node := it.cost], it.cost)
  {
    PopConsistent(s, it);
    PopCost(start, s, popped, last, it);
    PopStart(strategy, start, s, rank, last, it);
    PopRank(s, rank, it);
    PopPreds(adj, start, s, popped, rank, it);
    PopShape(strategy, s, it);
    PopNodes(nodes, s, it);
    if UnitCosts(adj, nodes) {
      PopUnit(s, popped, last, it);
    }
  }

  // ---------------------------------------------------------------------------
  // Relaxing one edge of the finalized node `cur`

  /** The situation of the inner loop: `cur` was just finalized with popped
      cost `last`, and `e` is its `j`-th edge. */
  ghost predicate AtEdge(adj: Adjacency, s: State, popped: map<int, nat>, last: nat, cur: int, j: int, e: Edge)
  {
    && cur in s.visited && cur in popped && popped[cur] == last
    && 0 <= j < |adj(cur)| && e == adj(cur)[j]
  }

  lemma RelaxConsistent(s: State, strategy: Strategy, cur: int, last: nat, e: Edge)
    requires Consistent(s)
    ensures Consistent(RelaxEdge(s, strategy, cur, last, e))
  {
    var r := RelaxEdge(s, strategy, cur, last, e);
    if e.to !in s.visited && e.to !in s.tentative {
      var x := Item(e.cost + last, e.to);
      assert x !in s.frontier;
      forall it | it in r.frontier
        ensures it.node in r.tentative && r.frontier[it] == 1 && r.tentative[it.node].cost <= it.cost
      {
        if it != x {
          assert it in s.frontier;
        }
      }
      assert |r.tentative| == |s.tentative| + 1;
    }
  }

  lemma RelaxCost(adj: Adjacency, start: Item, s: State, strategy: Strategy, popped: map<int, nat>,
                  last: nat, cur: int, j: int, e: Edge)
    requires Consistent(s) && CostOk(start, s, popped, last) && AtEdge(adj, s, popped, last, cur, j, e)
    ensures CostOk(start, RelaxEdge(s, strategy, cur, last, e), popped, last)
  {
    var r := RelaxEdge(s, strategy, cur, last, e);
    assert start.cost <= last;
    forall n | n in r.tentative
      ensures start.cost <= r.tentative[n].cost
    {
      if n != e.to {
        assert n in s.tentative;
      }
    }
    forall it | it in r.frontier
      ensures last <= it.cost
    {
      if it != Item(e.cost + last, e.to) {
        assert it in s.frontier;
      }
    }
  }

  lemma RelaxPreds(adj: Adjacency, start: Item, s: State, strategy: Strategy, popped: map<int, nat>,
                   last: nat, cur: int, j: int, e: Edge)
    requires Consistent(s) && AllPredsOk(adj, start, s, popped) && AtEdge(adj, s, popped, last, cur, j, e)
    ensures AllPredsOk(adj, start, RelaxEdge(s, strategy, cur, last, e), popped)
  {
    var r := RelaxEdge(s, strategy, cur, last, e);
    forall n | n in r.tentative && n != start.node
      ensures PredsOk(adj, popped, n, r.tentative[n])
    {
      if n == e.to {
        RelaxPredsTarget(adj, s, strategy, popped, last, cur, j, e);
      } else {
        assert r.tentative[n] == s.tentative[n];
      }
    }
  }

  /** The relaxed target's predecessors are its old tied ones or `cur` alone, plus `cur` on a tie. */
  lemma RelaxPredsTarget(adj: Adjacency, s: State, strategy: Strategy, popped: map<int, nat>,
                         last: nat, cur: int, j: int, e: Edge)
    requires AtEdge(adj, s, popped, last, cur, j, e) && e.to !in s.visited
    requires e.to in s.tentative ==> PredsOk(adj, popped, e.to, s.tentative[e.to])
    ensures PredsOk(adj, popped, e.to, RelaxEdge(s, strategy, cur, last, e).tentative[e.to])
  {
    var en := RelaxEdge(s, strategy, cur, last, e).tentative[e.to];
    assert EdgeFrom(adj, popped, cur, e.to, e.cost + last);
    forall p | p in Recorded(en.prev)
      ensures p in popped && EdgeFrom(adj, popped, p, e.to, en.cost)
    {
    }
  }

  lemma RelaxShape(s: State, strategy: Strategy, cur: int, last: nat, e: Edge)
    requires ShapeOk(strategy, s)
    ensures ShapeOk(strategy, RelaxEdge(s, strategy, cur, last, e))
  {
    var r := RelaxEdge(s, strategy, cur, last, e);
    if e.to !in s.visited && e.to in s.tentative && e.cost + last == s.tentative[e.to].cost {
      var p := s.tentative[e.to].prev;
      assert Recorded(r.tentative[e.to].prev) != [] by {
        if p.Many? {
          assert Recorded(Append(p, cur)) == Recorded(p) + [cur];
        }
      }
    }
  }

  lemma RelaxUnit(adj: Adjacency, nodes: set<int>, start: Item, s: State, strategy: Strategy,
                  popped: map<int, nat>, last: nat, cur: int, j: int, e: Edge)
    requires Consistent(s) && CostOk(start, s, popped, last) && AtEdge(adj, s, popped, last, cur, j, e)
    requires cur in nodes && UnitCosts(adj, nodes) && UnitBooks(s, popped, last)
    ensures UnitBooks(RelaxEdge(s, strategy, cur, last, e), popped, last)
  {
    var r := RelaxEdge(s, strategy, cur, last, e);
    assert e.cost == 1;
    if e.to !in s.visited && e.to in s.tentative {
      assert Item(s.tentative[e.to].cost, e.to) in s.frontier;
      assert r == s || r.frontier == s.frontier;
    }
    if e.to !in s.visited && e.to !in s.tentative {
      forall it | it in r.frontier
        ensures it.node in r.tentative && it.cost == r.tentative[it.node].cost <= last + 1
      {
        if it != Item(e.cost + last, e.to) {
          assert it in s.frontier;
        }
      }
    }
  }

  /** No tentative cost grows and the finalized map is untouched. */
  ghost predicate NoWorse(s: State, r: State)
  {
    && r.visited == s.visited
    && forall n | n in s.tentative :: n in r.tentative && r.tentative[n].cost <= s.tentative[n].cost
  }

  lemma RelaxNoWorse(s: State, strategy: Strategy, cur: int, last: nat, e: Edge)
    ensures NoWorse(s, RelaxEdge(s, strategy, cur, last, e))
  {
  }

  lemma RelaxedNoWorse(adj: Adjacency, s: State, r: State, popped: map<int, nat>, v: int, i: int)
    requires v in popped && 0 <= i < |adj(v)| && EdgeRelaxed(adj, s, popped, v, i) && NoWorse(s, r)
    ensures EdgeRelaxed(adj, r, popped, v, i)
  {
  }

  /** The edge just relaxed is relaxed afterwards: a finalized target was
      popped no later than `cur`, any other target holds at most the new cost. */
  lemma RelaxedAtEdge(adj: Adjacency, start: Item, s: State, strategy: Strategy, popped: map<int, nat>,
                      last: nat, cur: int, j: int, e: Edge)
    requires CostOk(start, s, popped, last) && AtEdge(adj, s, popped, last, cur, j, e)
    ensures EdgeRelaxed(adj, RelaxEdge(s, strategy, cur, last, e), popped, cur, j)
  {
  }

  lemma RelaxRelaxed(adj: Adjacency, start: Item, s: State, strategy: Strategy, popped: map<int, nat>,
                     last: nat, cur: int, j: int, e: Edge)
    requires CostOk(start, s, popped, last) && AtEdge(adj, s, popped, last, cur, j, e)
    requires RelaxedUpTo(adj, s, popped, cur, j)
    ensures RelaxedUpTo(adj, RelaxEdge(s, strategy, cur, last, e), popped, cur, j + 1)
  {
    var r := RelaxEdge(s, strategy, cur, last, e);
    RelaxNoWorse(s, strategy, cur, last, e);
    forall v, i | v in popped && 0 <= i < |adj(v)| && (v != cur || i < j + 1)
      ensures EdgeRelaxed(adj, r, popped, v, i)
    {
      if v != cur || i < j {
        RelaxedNoWorse(adj, s, r, popped, v, i);
      } else {
        RelaxedAtEdge(adj, start, s, strategy, popped, last, cur, j, e);
      }
    }
  }

  /** Relaxing the `j`-th edge of `cur` keeps the invariants and extends the relaxed prefix. */
  lemma RelaxStep(adj: Adjacency, nodes: set<int>, strategy: Strategy, start: Item, s: State,
                  rank: map<int, nat>, popped: map<int, nat>, last: nat, cur: int, j: int)
    requires Core(adj, nodes, strategy, start, s, rank, popped, last) && Closed(adj, nodes)
    requires cur in s.visited && popped[cur] == last && 0 <= j < |adj(cur)|
    requires RelaxedUpTo(adj, s, popped, cur, j)
    ensures Core(adj, nodes, strategy, start, RelaxEdge(s, strategy, cur, last, adj(cur)[j]), rank, popped, last)
    ensures RelaxedUpTo(adj, RelaxEdge(s, strategy, cur, last, adj(cur)[j]), popped, cur, j + 1)
  {
    var e := adj(cur)[j];
    assert AtEdge(adj, s, popped, last, cur, j, e);
    RelaxConsistent(s, strategy, cur, last, e);
    RelaxCost(adj, start, s, strategy, popped, last, cur, j, e);
    RelaxPreds(adj, start, s, strategy, popped, last, cur, j, e);
    RelaxShape(s, strategy, cur, last, e);
    RelaxRelaxed(adj, start, s, strategy, popped, last, cur, j, e);
    if UnitCosts(adj, nodes) {
      RelaxUnit(adj, nodes, start, s, strategy, popped, last, cur, j, e);
    }
  }

  // ---------------------------------------------------------------------------
  // The finished table

  /** Every edge out of a finalized node lands on a finalized node whose cost
      is at most the popped cost of the source plus the edge. */
  ghost predicate ClosedTable(adj: Adjacency, table: map<int, Entry>, popped: map<int, nat>)
  {
    && popped.Keys == table.Keys
    && (forall v, i | v in table && 0 <= i < |adj(v)| :: EdgeKept(adj, table, popped, v, i))
  }

  ghost predicate EdgeKept(adj: Adjacency, table: map<int, Entry>, popped: map<int, nat>, v: int, i: int)
    requires v in popped && 0 <= i < |adj(v)|
  {
    adj(v)[i].to in table && table[adj(v)[i].to].cost <= popped[v] + adj(v)[i].cost
  }

  /** With the frontier empty nothing is tentative and every edge out of the table stays in it. */
  lemma Finished(adj: Adjacency, nodes: set<int>, strategy: Strategy, start: Item, s: State,
                 rank: map<int, nat>, popped: map<int, nat>, last: nat, cur: int)
    requires Core(adj, nodes, strategy, start, s, rank, popped, last)
    requires RelaxedUpTo(adj, s, popped, cur, |adj(cur)|) && s.frontier == multiset{}
    ensures s.tentative == map[]
    ensures ClosedTable(adj, s.visited, popped)
  {
    assert |s.tentative| == 0;
    forall v, i | v in s.visited && 0 <= i < |adj(v)|
      ensures EdgeKept(adj, s.visited, popped, v, i)
    {
      assert EdgeRelaxed(adj, s, popped, v, i);
    }
  }

  /** Every node of a closed table that contains `root` is reached within `k` steps only if listed. */
  lemma {:induction false} LayersInTable(adj: Adjacency, root: int, table: map<int, Entry>,
                                         popped: map<int, nat>, k: nat)
    requires root in table && ClosedTable(adj, table, popped)
    ensures Layer(adj, root, k) <= table.Keys
    decreases k
  {
    if k > 0 {
      var prev := Layer(adj, root, k - 1);
      LayersInTable(adj, root, table, popped, k - 1);
      forall m | m in Successors(adj, prev)
        ensures m in table
      {
        var n, i :| n in prev && 0 <= i < |adj(n)| && adj(n)[i].to == m;
        assert EdgeKept(adj, table, popped, n, i);
      }
    }
  }

  /** Following recorded predecessors leads back to the root, so every listed node is reachable. */
  lemma {:induction false} TableReachable(adj: Adjacency, root: int, table: map<int, Entry>,
                                          rank: map<int, nat>, n: int)
    requires WellFormed(adj, root, table, rank) && n in table
    ensures Reachable(adj, root, n)
    decreases rank[n]
  {
    if n == root {
      assert n in Layer(adj, root, 0);
    } else {
      var p := Recorded(table[n].prev)[0];
      TableReachable(adj, root, table, rank, p);
      var k: nat :| p in Layer(adj, root, k);
      assert HasEdge(adj, p, n);
      var i :| 0 <= i < |adj(p)| && adj(p)[i].to == n;
      LayerStep(adj, root, k, p, i);
    }
  }

  /** With unit costs a node listed at cost `c0 + k` is reached in `k` steps. */
  lemma {:induction false} UnitInLayer(adj: Adjacency, root: int, table: map<int, Entry>,
                                       rank: map<int, nat>, n: int)
    requires WellFormed(adj, root, table, rank) && UnitTable(root, table) && n in table
    requires forall v | v in table :: table[root].cost <= table[v].cost
    ensures n in Layer(adj, root, table[n].cost - table[root].cost)
    decreases rank[n]
  {
    if n != root {
      var p := Recorded(table[n].prev)[0];
      UnitInLayer(adj, root, table, rank, p);
      assert HasEdge(adj, p, n);
      var i :| 0 <= i < |adj(p)| && adj(p)[i].to == n;
      LayerStep(adj, root, table[p].cost - table[root].cost, p, i);
    }
  }

  /** With unit costs a node reached within `k` steps is listed at cost at most `c0 + k`. */
  lemma {:induction false} UnitLayerCost(adj: Adjacency, nodes: set<int>, root: int, table: map<int, Entry>,
                                         popped: map<int, nat>, k: nat, n: int)
    requires root in table && ClosedTable(adj, table, popped) && UnitCosts(adj, nodes) && table.Keys <= nodes
    requires forall v | v in table :: popped[v] == table[v].cost
    requires n in Layer(adj, root, k)
    ensures n in table && table[n].cost <= table[root].cost + k
    decreases k
  {
    if k > 0 && n !in Layer(adj, root, k - 1) {
      var m, i := LayerPredecessor(adj, root, k, n);
      UnitLayerCost(adj, nodes, root, table, popped, k - 1, m);
      assert m in nodes && adj(m)[i].cost == 1;
      assert EdgeKept(adj, table, popped, m, i);
    } else if k > 0 {
      UnitLayerCost(adj, nodes, root, table, popped, k - 1, n);
    }
  }

  /** With unit costs every listed cost is the start cost plus the fewest hops. */
  lemma UnitMinHops(adj: Adjacency, nodes: set<int>, root: int, table: map<int, Entry>,
                    rank: map<int, nat>, popped: map<int, nat>, n: int)
    requires WellFormed(adj, root, table, rank) && UnitTable(root, table) && ClosedTable(adj, table, popped)
    requires UnitCosts(adj, nodes) && table.Keys <= nodes && n in table
    requires forall v | v in table :: popped[v] == table[v].cost && table[root].cost <= table[v].cost
    ensures MinHops(adj, root, n, table[n].cost - table[root].cost)
  {
    UnitInLayer(adj, root, table, rank, n);
    forall j: nat | j < table[n].cost - table[root].cost
      ensures n !in Layer(adj, root, j)
    {
      if n in Layer(adj, root, j) {
        UnitLayerCost(adj, nodes, root, table, popped, j, n);
      }
    }
  }

  /** The finalized map, read as a table, is well formed. */
  lemma TableWellFormed(adj: Adjacency, strategy: Strategy, start: Item, s: State,
                        rank: map<int, nat>, popped: map<int, nat>, last: nat)
    requires StartOk(strategy, start, s, rank, last) && RankOk(s, rank) && ShapeOk(strategy, s)
    requires AllPredsOk(adj, start, s, popped) && RankPreds(start, s, rank) && s.visited != map[]
    ensures WellFormed(adj, start.node, s.visited, rank)
    ensures TableFits(strategy, s.visited)
  {
    var table := s.visited;
    forall n | n in table && n != start.node
      ensures forall p | p in Recorded(table[n].prev) :: p in table && rank[p] < rank[n] && HasEdge(adj, p, n)
    {
      forall p | p in Recorded(table[n].prev)
        ensures p in table && rank[p] < rank[n] && HasEdge(adj, p, n)
      {
        TablePred(adj, start, s, rank, popped, n, p);
      }
    }
  }

  /** A recorded predecessor of a finalized node is a finalized, earlier neighbour. */
  lemma TablePred(adj: Adjacency, start: Item, s: State, rank: map<int, nat>, popped: map<int, nat>, n: int, p: int)
    requires AllPredsOk(adj, start, s, popped) && RankPreds(start, s, rank) && rank.Keys == s.visited.Keys
    requires n in s.visited && n != start.node && p in Recorded(s.visited[n].prev)
    ensures p in s.visited && n in rank && p in rank && rank[p] < rank[n] && HasEdge(adj, p, n)
  {
    assert PredsOk(adj, popped, n, s.visited[n]);
    assert EdgeFrom(adj, popped, p, n, s.visited[n].cost);
  }

  /** With unit costs the finalized costs are the popped costs and predecessors sit one below. */
  lemma TableUnit(adj: Adjacency, start: Item, s: State, popped: map<int, nat>, last: nat)
    requires UnitBooks(s, popped, last) && AllPredsOk(adj, start, s, popped) && popped.Keys == s.visited.Keys
    requires forall v, i | v in s.visited && 0 <= i < |adj(v)| :: adj(v)[i].cost == 1
    ensures UnitTable(start.node, s.visited)
    ensures forall v | v in s.visited :: popped[v] == s.visited[v].cost
  {
    var table := s.visited;
    forall n | n in table && n != start.node
      ensures forall p | p in Recorded(table[n].prev) :: p in table && table[n].cost == table[p].cost + 1
    {
      assert PredsOk(adj, popped, n, table[n]);
      forall p | p in Recorded(table[n].prev)
        ensures p in table && table[n].cost == table[p].cost + 1
      {
        assert EdgeFrom(adj, popped, p, n, table[n].cost);
      }
    }
  }

  /** A well-formed closed table lists exactly the nodes reachable from its root. */
  lemma TableReach(adj: Adjacency, root: int, table: map<int, Entry>, rank: map<int, nat>, popped: map<int, nat>)
    requires WellFormed(adj, root, table, rank) && ClosedTable(adj, table, popped)
    ensures forall n :: n in table <==> Reachable(adj, root, n)
  {
    forall n
      ensures n in table <==> Reachable(adj, root, n)
    {
      if n in table {
        TableReachable(adj, root, table, rank, n);
      }
      if Reachable(adj, root, n) {
        var k: nat :| n in Layer(adj, root, k);
        LayersInTable(adj, root, table, popped, k);
      }
    }
  }

  lemma TableMinHops(adj: Adjacency, nodes: set<int>, root: int, table: map<int, Entry>,
                      rank: map<int, nat>, popped: map<int, nat>)
    requires WellFormed(adj, root, table, rank) && UnitTable(root, table) && ClosedTable(adj, table, popped)
    requires UnitCosts(adj, nodes) && table.Keys <= nodes
    requires forall v | v in table :: popped[v] == table[v].cost && table[root].cost <= table[v].cost
    ensures HopCosts(adj, root, table, table[root].cost)
  {
    forall n | n in table
      ensures MinHops(adj, root, n, table[n].cost - table[root].cost)
    {
      UnitMinHops(adj, nodes, root, table, rank, popped, n);
    }
  }

  /** The invariants at loop exit make the finalized map a closed, well-formed table. */
  lemma ConcludedTable(adj: Adjacency, nodes: set<int>, strategy: Strategy, start: Item, s: State,
                       rank: map<int, nat>, popped: map<int, nat>, last: nat, cur: int)
    requires Core(adj, nodes, strategy, start, s, rank, popped, last)
    requires RelaxedUpTo(adj, s, popped, cur, |adj(cur)|) && s.frontier == multiset{}
    ensures start.node in s.visited && s.visited[start.node] == Entry(start.cost, Init(strategy, start.node))
    ensures s.visited.Keys <= nodes
    ensures ClosedTable(adj, s.visited, popped)
    ensures forall n | n in s.visited :: start.cost <= s.visited[n].cost <= popped[n]
    ensures WellFormed(adj, start.node, s.visited, rank)
    ensures TableFits(strategy, s.visited)
  {
    Finished(adj, nodes, strategy, start, s, rank, popped, last, cur);
    assert s.visited != map[];
    TableWellFormed(adj, strategy, start, s, rank, popped, last);
  }

  /** With unit costs the table's costs are fewest hops. */
  lemma ConcludedUnit(adj: Adjacency, nodes: set<int>, start: Item, s: State,
                      rank: map<int, nat>, popped: map<int, nat>, last: nat)
    requires UnitCosts(adj, nodes) && UnitBooks(s, popped, last) && AllPredsOk(adj, start, s, popped)
    requires start.node in s.visited && s.visited[start.node].cost == start.cost && s.visited.Keys <= nodes
    requires ClosedTable(adj, s.visited, popped) && WellFormed(adj, start.node, s.visited, rank)
    requires forall n | n in s.visited :: start.cost <= s.visited[n].cost
    ensures UnitTable(start.node, s.visited)
    ensures HopCosts(adj, start.node, s.visited, start.cost)
  {
    TableUnit(adj, start, s, popped, last);
    TableMinHops(adj, nodes, start.node, s.visited, rank, popped);
  }

  // ---------------------------------------------------------------------------
  // `run`

  /** The invariant of the main loop: the books are consistent and every
      edge out of a finalized node has been relaxed. */
  ghost predicate Looping(adj: Adjacency, nodes: set<int>, strategy: Strategy, start: Item, s: State,
                          rank: map<int, nat>, popped: map<int, nat>, last: nat, cur: int)
  {
    Core(adj, nodes, strategy, start, s, rank, popped, last) && RelaxedUpTo(adj, s, popped, cur, |adj(cur)|)
  }

  /** Lines 98-147: the main loop, from the initial state until the frontier is empty. */
  method Explore(adj: Adjacency, ghost nodes: set<int>, strategy: Strategy, start: Item)
    returns (s: State, ghost rank: map<int, nat>, ghost popped: map<int, nat>, ghost last: nat, ghost cur: int)
    requires start.node in nodes && Closed(adj, nodes)
    ensures Looping(adj, nodes, strategy, start, s, rank, popped, last, cur) && s.frontier == multiset{}
  {
    s := State(map[start.node := Entry(start.cost, Init(strategy, start.node))], multiset{start}, map[]);
    rank, popped := map[], map[];
    last, cur := start.cost, start.node;
    StartCore(adj, nodes, strategy, start);
    while s.frontier != multiset{}
      invariant Looping(adj, nodes, strategy, start, s, rank, popped, last, cur)
      decreases nodes - s.visited.Keys
    {
      s, rank, popped, last, cur := ExploreStep(adj, nodes, strategy, start, s, rank, popped, last, cur);
    }
  }

  /** Lines 116-142: one iteration of the main loop, popping the least
      frontier entry, finalizing its node and relaxing its edges. */
  method ExploreStep(adj: Adjacency, ghost nodes: set<int>, strategy: Strategy, ghost start: Item, s0: State,
                     ghost rank0: map<int, nat>, ghost popped0: map<int, nat>, ghost last0: nat, ghost cur0: int)
    returns (s: State, ghost rank: map<int, nat>, ghost popped: map<int, nat>, ghost last: nat, ghost cur: int)
    requires Looping(adj, nodes, strategy, start, s0, rank0, popped0, last0, cur0) && Closed(adj, nodes)
    requires s0.frontier != multiset{}
    ensures Looping(adj, nodes, strategy, start, s, rank, popped, last, cur)
    ensures nodes - s.visited.Keys < nodes - s0.visited.Keys
  {
    var it := PopMin(s0.frontier);
    PopStep(adj, nodes, strategy, start, s0, rank0, popped0, last0, it);
    PopRelaxed(adj, s0, popped0, it, cur0, |adj(cur0)|);
    s := Finalize(s0, it);
    rank, popped, last, cur := rank0[it.node := |rank0|], popped0[it.node := it.cost], it.cost, it.node;
    s := RelaxNeighbours(adj, nodes, strategy, start, s, rank, popped, it.node, it.cost);
    assert it.node in nodes - s0.visited.Keys;
  }

  /** Lines 124-142: relax every edge out of the just-finalized node `cur`. */
  method RelaxNeighbours(adj: Adjacency, ghost nodes: set<int>, strategy: Strategy, ghost start: Item,
                         s0: State, ghost rank: map<int, nat>, ghost popped: map<int, nat>, cur: int, cost: nat)
    returns (s: State)
    requires Core(adj, nodes, strategy, start, s0, rank, popped, cost) && Closed(adj, nodes)
    requires cur in s0.visited && cur in popped && popped[cur] == cost
    requires RelaxedUpTo(adj, s0, popped, cur, 0)
    ensures Core(adj, nodes, strategy, start, s, rank, popped, cost)
    ensures RelaxedUpTo(adj, s, popped, cur, |adj(cur)|)
    ensures s.visited == s0.visited
  {
    s := s0;
    var edges := adj(cur);
    var j := 0;
    while j < |edges|
      invariant 0 <= j <= |edges| && edges == adj(cur)
      invariant Core(adj, nodes, strategy, start, s, rank, popped, cost)
      invariant RelaxedUpTo(adj, s, popped, cur, j)
      invariant s.visited == s0.visited
    {
      RelaxStep(adj, nodes, strategy, start, s, rank, popped, cost, cur, j);
      s := RelaxEdge(s, strategy, cur, cost, edges[j]);
      j := j + 1;
    }
  }

  /** Lines 97-150. Explores from `start` and returns the finalized table;
      `rank` records the order nodes were finalized in and `popped` the
      frontier cost each was popped with. */
  method Run(adj: Adjacency, ghost nodes: set<int>, strategy: Strategy, start: Item)
    returns (table: map<int, Entry>, ghost rank: map<int, nat>, ghost popped: map<int, nat>)
    requires start.node in nodes && Closed(adj, nodes)
    ensures start.node in table && table[start.node] == Entry(start.cost, Init(strategy, start.node))
    ensures table.Keys <= nodes
    ensures ClosedTable(adj, table, popped)
    ensures forall n | n in table :: start.cost <= table[n].cost <= popped[n]
    ensures WellFormed(adj, start.node, table, rank)
    ensures TableFits(strategy, table)
    // exactly the nodes reachable from the start are finalized
    ensures forall n :: n in table <==> Reachable(adj, start.node, n)
    // with unit edge costs every cost is the start cost plus the fewest hops
    ensures UnitCosts(adj, nodes) ==> UnitTable(start.node, table)
    ensures UnitCosts(adj, nodes) ==> HopCosts(adj, start.node, table, start.cost)
  {
    var s;
    ghost var last, cur;
    s, rank, popped, last, cur := Explore(adj, nodes, strategy, start);
    assert Core(adj, nodes, strategy, start, s, rank, popped, last);
    ConcludedTable(adj, nodes, strategy, start, s, rank, popped, last, cur);
    if UnitCosts(adj, nodes) {
      ConcludedUnit(adj, nodes, start, s, rank, popped, last);
    }
    table := s.visited;
    TableReach(adj, start.node, table, rank, popped);
  }
}
