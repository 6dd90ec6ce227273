/** The graph capability a caller supplies to the shortest-path engine: for a
    node, the list of (edge cost, neighbour) pairs one step away. Nodes are
    integers and costs are naturals; the adjacency is a total function. */
module Graph {

  /** One outgoing edge: its cost and the node it leads to. */
  datatype Edge = Edge(cost: nat, to: int)

  /** What `get_adjacent` returns for each node. */
  type Adjacency = int -> seq<Edge>

  /** `b` is one step away from `a`. */
  ghost predicate HasEdge(adj: Adjacency, a: int, b: int)
  {
    exists i :: 0 <= i < |adj(a)| && adj(a)[i].to == b
  }

  /** Every edge leaving `nodes` stays inside `nodes`. */
  ghost predicate Closed(adj: Adjacency, nodes: set<int>)
  {
    forall n, i | n in nodes && 0 <= i < |adj(n)| :: adj(n)[i].to in nodes
  }

  /** Every edge leaving `nodes` costs exactly 1. */
  ghost predicate UnitCosts(adj: Adjacency, nodes: set<int>)
  {
    forall n, i | n in nodes && 0 <= i < |adj(n)| :: adj(n)[i].cost == 1
  }

  /** The nodes one step away from some node of `from`. */
  ghost function Successors(adj: Adjacency, from: set<int>): set<int>
  {
    set n, i | n in from && 0 <= i < |adj(n)| :: adj(n)[i].to
  }

  /** The nodes reachable from `start` in at most `k` steps. */
  ghost function Layer(adj: Adjacency, start: int, k: nat): set<int>
  {
    if k == 0 then {start}
    else Layer(adj, start, k - 1) + Successors(adj, Layer(adj, start, k - 1))
  }

  ghost predicate Reachable(adj: Adjacency, start: int, n: int)
  {
    exists k: nat :: n in Layer(adj, start, k)
  }

  /** `k` is the fewest number of steps that lead from `start` to `n`. */
  ghost predicate MinHops(adj: Adjacency, start: int, n: int, k: nat)
  {
    n in Layer(adj, start, k) && forall j: nat | j < k :: n !in Layer(adj, start, j)
  }

  /** An end-first walk: each node is one step away from the node after it. */
  ghost predicate BackWalk(adj: Adjacency, w: seq<int>)
  {
    forall i | 0 <= i < |w| - 1 :: HasEdge(adj, w[i + 1], w[i])
  }

  lemma {:induction false} LayerMonotone(adj: Adjacency, start: int, j: nat, k: nat)
    requires j <= k
    ensures Layer(adj, start, j) <= Layer(adj, start, k)
    decreases k - j
  {
    if j < k {
      LayerMonotone(adj, start, j, k - 1);
    }
  }

  /** One more step from layer `k` lands in layer `k + 1`. */
  lemma LayerStep(adj: Adjacency, start: int, k: nat, n: int, i: int)
    requires n in Layer(adj, start, k) && 0 <= i < |adj(n)|
    ensures adj(n)[i].to in Layer(adj, start, k + 1)
  {
  }

  /** A node first reached in layer `k` has a neighbour-before in layer `k - 1`. */
  lemma LayerPredecessor(adj: Adjacency, start: int, k: nat, m: int) returns (n: int, i: int)
    requires k > 0 && m in Layer(adj, start, k) && m !in Layer(adj, start, k - 1)
    ensures n in Layer(adj, start, k - 1) && 0 <= i < |adj(n)| && adj(n)[i].to == m
  {
    n, i :| n in Layer(adj, start, k - 1) && 0 <= i < |adj(n)| && adj(n)[i].to == m;
  }
}
