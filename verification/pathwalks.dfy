/** Reading paths back out of the table `run` returns: `extract_path` over the
    single-predecessor table, `extract_all_paths` and `count_all_paths` over
    the all-predecessors table. A walk that reaches the root without meeting
    `start` recurses forever in the program (the root is its own
    predecessor) and a missing key panics; both are `None` here. */
module PathWalks {
  import opened Wrappers
  import opened Graph
  import opened PrevPaths
  import opened Dijkstra

  /** The first recorded predecessor of a non-root node. */
  function Pred(table: map<int, Entry>, n: int): int
    requires n in table && Recorded(table[n].prev) != []
  {
    Recorded(table[n].prev)[0]
  }

  /** Only the root is its own predecessor. */
  lemma SelfPredIsRoot(adj: Adjacency, root: int, table: map<int, Entry>, rank: map<int, nat>, n: int)
    requires WellFormed(adj, root, table, rank) && n in table
    ensures Pred(table, n) == n <==> n == root
  {
  }

  /** The chain of first predecessors from `end` down to the root, end first. */
  ghost function Chain(adj: Adjacency, root: int, table: map<int, Entry>, rank: map<int, nat>, end: int): (c: seq<int>)
    requires WellFormed(adj, root, table, rank) && end in table
    ensures |c| >= 1 && c[0] == end && c[|c| - 1] == root
    decreases rank[end]
  {
    if end == root then [root] else [end] + Chain(adj, root, table, rank, Pred(table, end))
  }

  // ---------------------------------------------------------------------------
  // extract_path

  /** Lines 152-166: the path from `end` back to (but without) `start`, end first. */
  function ExtractPath(ghost adj: Adjacency, ghost root: int, start: int, end: int,
                       table: map<int, Entry>, ghost rank: map<int, nat>): (r: Option<seq<int>>)
    requires WellFormed(adj, root, table, rank) && TableFits(SingleBest, table)
    // it returns exactly when `start` lies on the chain of predecessors from `end`
    ensures start != end ==> (r.Some? <==> end in table && start in Chain(adj, root, table, rank, end))
    // and then it is the chain up to `start`
    ensures r.Some? && start == end ==> r.value == []
    ensures r.Some? && start != end ==>
      end in table && |r.value| < |Chain(adj, root, table, rank, end)| &&
      r.value + [start] == Chain(adj, root, table, rank, end)[..|r.value| + 1]
    decreases if end in rank then rank[end] else 0
  {
    if start == end then Some([])
    else if end !in table then None
    else if table[end].prev.node == end then None   // the call would repeat itself forever
    else
      var p := table[end].prev.node;
      SelfPredIsRoot(adj, root, table, rank, end);
      assert Pred(table, end) == p;
      ChainMember(adj, root, table, rank, start, end);
      match ExtractPath(adj, root, start, p, table, rank)
      case None => None
      case Some(rest) =>
        ExtractCons(adj, root, table, rank, start, end, rest);
        Some([end] + rest)
  }

  /** Below a non-root `end`, the chain goes on from its predecessor. */
  lemma ChainMember(adj: Adjacency, root: int, table: map<int, Entry>, rank: map<int, nat>, start: int, end: int)
    requires WellFormed(adj, root, table, rank) && end in table && end != root && start != end
    ensures Pred(table, end) in table
    ensures Chain(adj, root, table, rank, end) == [end] + Chain(adj, root, table, rank, Pred(table, end))
    ensures start in Chain(adj, root, table, rank, end) <==> start in Chain(adj, root, table, rank, Pred(table, end))
  {
  }

  /** A path up to `start` from the predecessor, with `end` put in front, is
      a path up to `start` from `end`. */
  lemma ExtractCons(adj: Adjacency, root: int, table: map<int, Entry>, rank: map<int, nat>, start: int, end: int, rest: seq<int>)
    requires WellFormed(adj, root, table, rank) && end in table && end != root && start != end
    requires Pred(table, end) in table
    requires start == Pred(table, end) ==> rest == []
    requires start != Pred(table, end) ==>
      |rest| < |Chain(adj, root, table, rank, Pred(table, end))| &&
      rest + [start] == Chain(adj, root, table, rank, Pred(table, end))[..|rest| + 1]
    ensures |[end] + rest| < |Chain(adj, root, table, rank, end)|
    ensures ([end] + rest) + [start] == Chain(adj, root, table, rank, end)[..|[end] + rest| + 1]
  {
    var c := Chain(adj, root, table, rank, Pred(table, end));
    assert Chain(adj, root, table, rank, end) == [end] + c;
    assert ([end] + rest) + [start] == [end] + (rest + [start]);
  }

  /** The chain is a walk of the graph, read backwards. */
  lemma {:induction false} ChainWalk(adj: Adjacency, root: int, table: map<int, Entry>, rank: map<int, nat>, end: int)
    requires WellFormed(adj, root, table, rank) && end in table
    ensures BackWalk(adj, Chain(adj, root, table, rank, end))
    decreases rank[end]
  {
    if end != root {
      var p := Pred(table, end);
      ChainWalk(adj, root, table, rank, p);
      var c := Chain(adj, root, table, rank, p);
      assert HasEdge(adj, p, end);
      forall i | 0 <= i < |[end] + c| - 1
        ensures HasEdge(adj, ([end] + c)[i + 1], ([end] + c)[i])
      {
        if i > 0 {
          assert ([end] + c)[i + 1] == c[i] && ([end] + c)[i] == c[i - 1];
        }
      }
    }
  }

  /** With unit costs the chain drops by exactly one per step. */
  lemma {:induction false} ChainCosts(adj: Adjacency, root: int, table: map<int, Entry>, rank: map<int, nat>,
                                      end: int, i: nat)
    requires WellFormed(adj, root, table, rank) && UnitTable(root, table) && end in table
    requires i < |Chain(adj, root, table, rank, end)|
    ensures Chain(adj, root, table, rank, end)[i] in table
    ensures table[Chain(adj, root, table, rank, end)[i]].cost + i == table[end].cost
    decreases rank[end]
  {
    if i > 0 {
      ChainCosts(adj, root, table, rank, Pred(table, end), i - 1);
    }
  }

  /** Lines 135-137 of src/bin/day10p1.rs: from the root every listed node has
      a path, it is a walk, and with unit costs its length is the cost gained. */
  lemma ExtractFromRoot(adj: Adjacency, root: int, end: int, table: map<int, Entry>, rank: map<int, nat>)
    requires WellFormed(adj, root, table, rank) && TableFits(SingleBest, table) && end in table
    ensures ExtractPath(adj, root, root, end, table, rank).Some?
    ensures BackWalk(adj, ExtractPath(adj, root, root, end, table, rank).value + [root])
    ensures UnitTable(root, table) ==>
      |ExtractPath(adj, root, root, end, table, rank).value| == table[end].cost - table[root].cost
  {
    var c := Chain(adj, root, table, rank, end);
    var r := ExtractPath(adj, root, root, end, table, rank);
    assert root in c;
    if root == end {
      assert r.value == [];
    } else {
      ChainWalk(adj, root, table, rank, end);
      ChainLast(adj, root, table, rank, end);
      assert (r.value + [root])[|r.value|] == c[|r.value|];
      assert r.value + [root] == c;
      if UnitTable(root, table) {
        ChainCosts(adj, root, table, rank, end, |c| - 1);
      }
    }
  }

  /** The root appears on a chain only at its end. */
  lemma {:induction false} ChainLast(adj: Adjacency, root: int, table: map<int, Entry>, rank: map<int, nat>, end: int)
    requires WellFormed(adj, root, table, rank) && end in table
    ensures forall i | 0 <= i < |Chain(adj, root, table, rank, end)| - 1 :: Chain(adj, root, table, rank, end)[i] != root
    decreases rank[end]
  {
    if end != root {
      var p := Pred(table, end);
      ChainLast(adj, root, table, rank, p);
      var c := Chain(adj, root, table, rank, p);
      assert Chain(adj, root, table, rank, end) == [end] + c;
    }
  }

  // ---------------------------------------------------------------------------
  // extract_all_paths

  /** `w` steps from each node to one of its recorded predecessors and meets
      `start` only at its last node. */
  ghost predicate PredWalk(table: map<int, Entry>, start: int, w: seq<int>)
  {
    && |w| >= 1 && w[|w| - 1] == start
    && forall i | 0 <= i < |w| - 1 :: w[i] != start && w[i] in table && w[i + 1] in Recorded(table[w[i]].prev)
  }

  /** Only the root lists itself among its predecessors. */
  lemma SelfListedIsRoot(adj: Adjacency, root: int, table: map<int, Entry>, rank: map<int, nat>, n: int)
    requires WellFormed(adj, root, table, rank) && n in table
    ensures n in Recorded(table[n].prev) <==> n == root
  {
  }

  /** Every element of `ps` extends `prefix` by the tail of a predecessor walk from `end`. */
  ghost predicate Extends(table: map<int, Entry>, start: int, end: int, prefix: seq<int>, ps: seq<seq<int>>)
  {
    forall p | p in ps :: |p| >= |prefix| && p[..|prefix|] == prefix && PredWalk(table, start, [end] + p[|prefix|..])
  }

  /** Lines 168-187: every path from `end` back to `start`, each behind `prefix`. */
  function AllPathsAux(ghost adj: Adjacency, ghost root: int, start: int, end: int,
                       table: map<int, Entry>, ghost rank: map<int, nat>, prefix: seq<int>): (r: Option<seq<seq<int>>>)
    requires WellFormed(adj, root, table, rank)
    ensures r.Some? ==> Extends(table, start, end, prefix, r.value)
    decreases if end in rank then rank[end] else 0, 1
  {
    if start == end then
      assert prefix[..|prefix|] == prefix;
      Some([prefix])
    else if end !in table then None
    else if end in Recorded(table[end].prev) then None   // the call would repeat itself forever
    else
      SelfListedIsRoot(adj, root, table, rank, end);
      AllPathsOver(adj, root, start, end, Recorded(table[end].prev), table, rank, prefix)
  }

  /** The loop of lines 178-183 over the predecessors `preds` of `end`. */
  function AllPathsOver(ghost adj: Adjacency, ghost root: int, start: int, end: int, preds: seq<int>,
                        table: map<int, Entry>, ghost rank: map<int, nat>, prefix: seq<int>): (r: Option<seq<seq<int>>>)
    requires WellFormed(adj, root, table, rank) && end in table && end != start && end != root
    requires forall q | q in preds :: q in Recorded(table[end].prev)
    ensures r.Some? ==> Extends(table, start, end, prefix, r.value)
    decreases rank[end], 0, |preds|
  {
    if preds == [] then Some([])
    else
      var q := preds[0];
      match AllPathsAux(adj, root, start, q, table, rank, prefix + [q])
      case None => None
      case Some(ps) =>
        match AllPathsOver(adj, root, start, end, preds[1..], table, rank, prefix)
        case None => None
        case Some(qs) =>
          ExtendsStep(table, start, end, q, prefix, ps);
          Some(ps + qs)
  }

  /** Paths found behind `prefix + [q]` from a predecessor `q` are paths from `end` behind `prefix`. */
  lemma ExtendsStep(table: map<int, Entry>, start: int, end: int, q: int, prefix: seq<int>, ps: seq<seq<int>>)
    requires end in table && end != start && q in Recorded(table[end].prev)
    requires Extends(table, start, q, prefix + [q], ps)
    ensures Extends(table, start, end, prefix, ps)
  {
    forall p | p in ps
      ensures |p| >= |prefix| && p[..|prefix|] == prefix && PredWalk(table, start, [end] + p[|prefix|..])
    {
      var n := |prefix|;
      assert p[..n + 1] == prefix + [q];
      assert p[..n] == p[..n + 1][..n];
      assert p[n] == q;
      var w := [q] + p[n + 1..];
      assert p[n..] == w;
      assert PredWalk(table, start, w);
      var w' := [end] + w;
      forall i | 0 <= i < |w'| - 1
        ensures w'[i] != start && w'[i] in table && w'[i + 1] in Recorded(table[w'[i]].prev)
      {
        if i > 0 {
          assert w'[i] == w[i - 1] && w'[i + 1] == w[i];
        }
      }
    }
  }

  /** Lines 189-195: every shortest path from `end` back to `start`, end first. */
  function ExtractAllPaths(ghost adj: Adjacency, ghost root: int, start: int, end: int,
                           table: map<int, Entry>, ghost rank: map<int, nat>): (r: Option<seq<seq<int>>>)
    requires WellFormed(adj, root, table, rank)
    ensures r.Some? ==> forall p | p in r.value :: PredWalk(table, start, p) && p[0] == end
  {
    var r := AllPathsAux(adj, root, start, end, table, rank, [end]);
    if r.Some? then
      assert forall p | p in r.value :: p == [end] + p[1..];
      r
    else r
  }

  /** Every predecessor walk from `end` is found. */
  lemma {:induction false} AllPathsComplete(adj: Adjacency, root: int, start: int, end: int,
                                            table: map<int, Entry>, rank: map<int, nat>, prefix: seq<int>, w: seq<int>)
    requires WellFormed(adj, root, table, rank) && PredWalk(table, start, w) && w[0] == end
    requires AllPathsAux(adj, root, start, end, table, rank, prefix).Some?
    ensures prefix + w[1..] in AllPathsAux(adj, root, start, end, table, rank, prefix).value
    decreases if end in rank then rank[end] else 0
  {
    if start == end {
      assert w == [end];
      assert prefix + w[1..] == prefix;
    } else {
      assert |w| >= 2;
      var q := w[1];
      SelfListedIsRoot(adj, root, table, rank, end);
      var preds := Recorded(table[end].prev);
      OverContains(adj, root, start, end, preds, table, rank, prefix, q);
      PredWalkTail(table, start, w);
      AllPathsComplete(adj, root, start, q, table, rank, prefix + [q], w[1..]);
      PrefixShift(prefix, w);
    }
  }

  /** A predecessor walk that has not yet met `start` goes on as one from its second node. */
  lemma PredWalkTail(table: map<int, Entry>, start: int, w: seq<int>)
    requires PredWalk(table, start, w) && |w| >= 2
    ensures PredWalk(table, start, w[1..])
    ensures w[0] in table && w[1] in Recorded(table[w[0]].prev)
  {
    var t := w[1..];
    forall i | 0 <= i < |t| - 1
      ensures t[i] != start && t[i] in table && t[i + 1] in Recorded(table[t[i]].prev)
    {
      assert t[i] == w[i + 1] && t[i + 1] == w[i + 2];
    }
  }

  lemma PrefixShift(prefix: seq<int>, w: seq<int>)
    requires |w| >= 2
    ensures (prefix + [w[1]]) + w[1..][1..] == prefix + w[1..]
  {
    assert w[1..] == [w[1]] + w[1..][1..];
  }

  /** The paths found from one predecessor are among those the loop collects. */
  lemma {:induction false} OverContains(adj: Adjacency, root: int, start: int, end: int, preds: seq<int>,
                                        table: map<int, Entry>, rank: map<int, nat>, prefix: seq<int>, q: int)
    requires WellFormed(adj, root, table, rank) && end in table && end != start && end != root
    requires forall x | x in preds :: x in Recorded(table[end].prev)
    requires q in preds && AllPathsOver(adj, root, start, end, preds, table, rank, prefix).Some?
    ensures AllPathsAux(adj, root, start, q, table, rank, prefix + [q]).Some?
    ensures forall p | p in AllPathsAux(adj, root, start, q, table, rank, prefix + [q]).value ::
      p in AllPathsOver(adj, root, start, end, preds, table, rank, prefix).value
    decreases |preds|
  {
    if preds[0] != q {
      OverContains(adj, root, start, end, preds[1..], table, rank, prefix, q);
    }
  }

  /** From the root nothing aborts: every listed node has its list of paths. */
  lemma {:induction false} AllPathsFromRoot(adj: Adjacency, root: int, end: int,
                                            table: map<int, Entry>, rank: map<int, nat>, prefix: seq<int>)
    requires WellFormed(adj, root, table, rank) && end in table
    ensures AllPathsAux(adj, root, root, end, table, rank, prefix).Some?
    decreases rank[end], 1
  {
    if end != root {
      SelfListedIsRoot(adj, root, table, rank, end);
      OverFromRoot(adj, root, end, Recorded(table[end].prev), table, rank, prefix);
    }
  }

  lemma {:induction false} OverFromRoot(adj: Adjacency, root: int, end: int, preds: seq<int>,
                                        table: map<int, Entry>, rank: map<int, nat>, prefix: seq<int>)
    requires WellFormed(adj, root, table, rank) && end in table && end != root
    requires forall x | x in preds :: x in Recorded(table[end].prev)
    ensures AllPathsOver(adj, root, root, end, preds, table, rank, prefix).Some?
    decreases rank[end], 0, |preds|
  {
    if preds != [] {
      AllPathsFromRoot(adj, root, preds[0], table, rank, prefix + [preds[0]]);
      OverFromRoot(adj, root, end, preds[1..], table, rank, prefix);
    }
  }

  // ---------------------------------------------------------------------------
  // count_all_paths

  /** How many paths lead from `end` back to `start`, without the memo. */
  ghost function PathCount(adj: Adjacency, root: int, start: int, end: int,
                           table: map<int, Entry>, rank: map<int, nat>): Option<nat>
    requires WellFormed(adj, root, table, rank)
    decreases if end in rank then rank[end] else 0, 1
  {
    if start == end then Some(1)
    else if end !in table || end in Recorded(table[end].prev) then None
    else
      SelfListedIsRoot(adj, root, table, rank, end);
      CountOver(adj, root, start, end, Recorded(table[end].prev), table, rank)
  }

  ghost function CountOver(adj: Adjacency, root: int, start: int, end: int, preds: seq<int>,
                           table: map<int, Entry>, rank: map<int, nat>): Option<nat>
    requires WellFormed(adj, root, table, rank) && end in table && end != root
    requires forall q | q in preds :: q in Recorded(table[end].prev)
    decreases rank[end], 0, |preds|
  {
    if preds == [] then Some(0)
    else
      match PathCount(adj, root, start, preds[0], table, rank)
      case None => None
      case Some(c) =>
        match CountOver(adj, root, start, end, preds[1..], table, rank)
        case None => None
        case Some(d) => Some(c + d)
  }

  /** The count is the number of paths `extract_all_paths` lists. */
  lemma {:induction false} CountIsLength(adj: Adjacency, root: int, start: int, end: int,
                                         table: map<int, Entry>, rank: map<int, nat>, prefix: seq<int>)
    requires WellFormed(adj, root, table, rank)
    ensures PathCount(adj, root, start, end, table, rank).Some? <==>
            AllPathsAux(adj, root, start, end, table, rank, prefix).Some?
    ensures PathCount(adj, root, start, end, table, rank).Some? ==>
            PathCount(adj, root, start, end, table, rank).value == |AllPathsAux(adj, root, start, end, table, rank, prefix).value|
    decreases if end in rank then rank[end] else 0, 1
  {
    if start != end && end in table && end !in Recorded(table[end].prev) {
      SelfListedIsRoot(adj, root, table, rank, end);
      OverIsLength(adj, root, start, end, Recorded(table[end].prev), table, rank, prefix);
    }
  }

  lemma {:induction false} OverIsLength(adj: Adjacency, root: int, start: int, end: int, preds: seq<int>,
                                        table: map<int, Entry>, rank: map<int, nat>, prefix: seq<int>)
    requires WellFormed(adj, root, table, rank) && end in table && end != start && end != root
    requires forall q | q in preds :: q in Recorded(table[end].prev)
    ensures CountOver(adj, root, start, end, preds, table, rank).Some? <==>
            AllPathsOver(adj, root, start, end, preds, table, rank, prefix).Some?
    ensures CountOver(adj, root, start, end, preds, table, rank).Some? ==>
            CountOver(adj, root, start, end, preds, table, rank).value ==
            |AllPathsOver(adj, root, start, end, preds, table, rank, prefix).value|
    decreases rank[end], 0, |preds|
  {
    if preds != [] {
      CountIsLength(adj, root, start, preds[0], table, rank, prefix + [preds[0]]);
      OverIsLength(adj, root, start, end, preds[1..], table, rank, prefix);
    }
  }

  /** The memo after a call: counts keyed by `(start, node)`. */
  datatype Counted = Counted(count: Option<nat>, memo: map<(int, int), nat>)

  function Bound(rank: map<int, nat>, n: int): nat
  {
    if n in rank then rank[n] + 1 else 0
  }

  /** Every memo entry is keyed by `start` and a listed node, and those
      finalized before `bound` hold their full count. */
  ghost predicate MemoSound(adj: Adjacency, root: int, start: int, table: map<int, Entry>,
                            rank: map<int, nat>, memo: map<(int, int), nat>, bound: nat)
    requires WellFormed(adj, root, table, rank)
  {
    forall k | k in memo :: k.0 == start && k.1 in table &&
      (rank[k.1] < bound ==> PathCount(adj, root, start, k.1, table, rank) == Some(memo[k]))
  }

  /** Entries for nodes finalized at or after `bound` are left alone. */
  ghost predicate MemoFrame(rank: map<int, nat>, before: map<(int, int), nat>, after: map<(int, int), nat>, bound: nat)
  {
    forall k | k in after && k.1 in rank && rank[k.1] >= bound :: k in before && before[k] == after[k]
  }

  /** Lines 197-216. The memo gets the partial count after every predecessor;
      the finished count overwrites it once the loop ends. */
  function CountAux(ghost adj: Adjacency, ghost root: int, start: int, end: int, table: map<int, Entry>,
                    ghost rank: map<int, nat>, memo: map<(int, int), nat>): (r: Counted)
    requires WellFormed(adj, root, table, rank)
    requires MemoSound(adj, root, start, table, rank, memo, Bound(rank, end))
    ensures r.count == PathCount(adj, root, start, end, table, rank)
    ensures r.count.Some? ==> MemoSound(adj, root, start, table, rank, r.memo, Bound(rank, end))
    ensures r.count.Some? ==> MemoFrame(rank, memo, r.memo, Bound(rank, end))
    decreases if end in rank then rank[end] else 0, 1
  {
    if start == end then Counted(Some(1), memo)
    else if (start, end) in memo then Counted(Some(memo[(start, end)]), memo)
    else if end !in table then Counted(None, memo)
    else if end in Recorded(table[end].prev) then Counted(None, memo)   // the call would repeat itself forever
    else
      SelfListedIsRoot(adj, root, table, rank, end);
      var r := CountLoop(adj, root, start, end, Recorded(table[end].prev), table, rank, 0, memo);
      assert forall x | x in table :: rank[x] < rank[end] + 1 ==> x == end || rank[x] < rank[end];
      r
  }

  /** The loop of lines 209-213 over the predecessors `preds` still to visit,
      with `count` the sum so far. */
  function CountLoop(ghost adj: Adjacency, ghost root: int, start: int, end: int, preds: seq<int>,
                     table: map<int, Entry>, ghost rank: map<int, nat>, count: nat,
                     memo: map<(int, int), nat>): (r: Counted)
    requires WellFormed(adj, root, table, rank) && end in table && end != start && end != root
    requires forall q | q in preds :: q in Recorded(table[end].prev)
    requires MemoSound(adj, root, start, table, rank, memo, rank[end])
    requires (start, end) in memo ==> memo[(start, end)] == count
    ensures r.count.Some? <==> CountOver(adj, root, start, end, preds, table, rank).Some?
    ensures r.count.Some? ==> r.count.value == count + CountOver(adj, root, start, end, preds, table, rank).value
    ensures r.count.Some? ==> MemoSound(adj, root, start, table, rank, r.memo, rank[end])
    ensures r.count.Some? ==> ((start, end) in r.memo ==> r.memo[(start, end)] == r.count.value)
    ensures r.count.Some? ==> MemoFrame(rank, memo, r.memo, rank[end] + 1)
    decreases rank[end], 0, |preds|
  {
    if preds == [] then Counted(Some(count), memo)
    else
      var q := preds[0];
      var sub := CountAux(adj, root, start, q, table, rank, memo);
      match sub.count
      case None => Counted(None, sub.memo)
      case Some(c) =>
        var total := count + c;
        var next := sub.memo[(start, end) := total];
        CountLoop(adj, root, start, end, preds[1..], table, rank, total, next)
  }

  /** Lines 218-225: counting with a fresh memo gives the number of paths
      `extract_all_paths` lists. */
  function CountAllPaths(ghost adj: Adjacency, ghost root: int, start: int, end: int,
                         table: map<int, Entry>, ghost rank: map<int, nat>): (r: Option<nat>)
    requires WellFormed(adj, root, table, rank)
    ensures r.Some? <==> ExtractAllPaths(adj, root, start, end, table, rank).Some?
    ensures r.Some? ==> r.value == |ExtractAllPaths(adj, root, start, end, table, rank).value|
  {
    CountIsLength(adj, root, start, end, table, rank, [end]);
    CountAux(adj, root, start, end, table, rank, map[]).count
  }
}
