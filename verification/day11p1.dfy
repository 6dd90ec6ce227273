/** Devices and their outputs: count the ways from one device to another.
    The search takes devices from the front of a queue and puts every output
    of a device at the back, counting each time it takes the end device. */
module Day11P1 {
  import opened Wrappers

  type Device = string

  /** Lines 29-45: each device's outputs, in input order. */
  type Junctions = map<Device, seq<Device>>

  /** A device the search expands: it has outputs and is not the end. */
  predicate Expands(g: Junctions, end: Device, n: Device)
  {
    n in g && n != end
  }

  /** Every output of a ranked, expanded device is ranked lower than the
      device. A search that only meets ranked devices therefore meets no
      cycle; devices it never meets need no rank. */
  ghost predicate Ranked(g: Junctions, end: Device, rank: map<Device, nat>)
  {
    forall n | n in rank && n in g && n != end :: forall o | o in g[n] :: o in rank && rank[o] < rank[n]
  }

  function Rank(rank: map<Device, nat>, n: Device): nat
  {
    if n in rank then rank[n] else 0
  }

  /** A device the search may hold: if it is expanded, it has a rank. */
  predicate Ok(g: Junctions, end: Device, rank: map<Device, nat>, n: Device)
  {
    Expands(g, end, n) ==> n in rank
  }

  /** The paths found and the devices taken from the queue. */
  datatype Tally = Tally(paths: Option<nat>, taken: nat)

  function AddOpt(a: Option<nat>, b: Option<nat>): (r: Option<nat>)
    ensures r.Some? <==> a.Some? && b.Some?
    ensures r.Some? ==> r.value == a.value + b.value
  {
    match (a, b)
    case (Some(x), Some(y)) => Some(x + y)
    case _ => None
  }

  lemma AddOptComm(a: Option<nat>, b: Option<nat>)
    ensures AddOpt(a, b) == AddOpt(b, a)
  {
    if a.Some? && b.Some? {
      assert AddOpt(a, b) == Some(a.value + b.value);
    }
  }

  lemma AddOptSome(a: nat, b: nat)
    ensures AddOpt(Some(a), Some(b)) == Some(a + b)
  {
  }

  lemma AddOptZero(a: Option<nat>)
    ensures AddOpt(Some(0), a) == a
  {
  }

  function Plus(a: Tally, b: Tally): Tally
  {
    Tally(AddOpt(a.paths, b.paths), a.taken + b.taken)
  }

  lemma PlusAssoc(a: Tally, b: Tally, c: Tally)
    ensures Plus(a, Plus(b, c)) == Plus(Plus(a, b), c)
  {
  }

  lemma PlusZero(a: Tally)
    ensures Plus(Tally(Some(0), 0), a) == a
  {
  }

  /** What the search does from `n` alone: the end device is one path (line
      67), a device with no entry panics on the `unwrap` of line 69, which is
      `None`, and any other device adds up its outputs (lines 69-71). Each
      device taken counts once. */
  function Explore(g: Junctions, end: Device, rank: map<Device, nat>, n: Device): (t: Tally)
    requires Ranked(g, end, rank) && Ok(g, end, rank, n)
    ensures t.taken >= 1
    decreases Rank(rank, n), 1, 0
  {
    if n == end then Tally(Some(1), 1)
    else if n !in g then Tally(None, 1)
    else
      var outs := ExploreAll(g, end, rank, n, 0);
      Tally(outs.paths, outs.taken + 1)
  }

  /** The outputs of `n` from the `k`-th on, explored one after the other. */
  function ExploreAll(g: Junctions, end: Device, rank: map<Device, nat>, n: Device, k: nat): Tally
    requires Ranked(g, end, rank) && Expands(g, end, n) && n in rank && k <= |g[n]|
    decreases Rank(rank, n), 0, |g[n]| - k
  {
    if k == |g[n]| then Tally(Some(0), 0)
    else
      assert g[n][k] in g[n];
      Plus(Explore(g, end, rank, g[n][k]), ExploreAll(g, end, rank, n, k + 1))
  }

  /** The number of paths from `n` to the end, `None` when one of them runs
      into a device with no entry. */
  function Paths(g: Junctions, end: Device, rank: map<Device, nat>, n: Device): Option<nat>
    requires Ranked(g, end, rank) && Ok(g, end, rank, n)
  {
    Explore(g, end, rank, n).paths
  }

  /** Everything the devices of a queue lead to, front first. */
  function QueueTally(g: Junctions, end: Device, rank: map<Device, nat>, q: seq<Device>): Tally
    requires Ranked(g, end, rank) && forall x | x in q :: Ok(g, end, rank, x)
    decreases |q|
  {
    if q == [] then Tally(Some(0), 0)
    else Plus(Explore(g, end, rank, q[0]), QueueTally(g, end, rank, q[1..]))
  }

  /** Two queues one after the other lead to what each leads to. */
  lemma {:induction false} QueueAppend(g: Junctions, end: Device, rank: map<Device, nat>, a: seq<Device>, b: seq<Device>)
    requires Ranked(g, end, rank)
    requires forall x | x in a :: Ok(g, end, rank, x)
    requires forall x | x in b :: Ok(g, end, rank, x)
    ensures QueueTally(g, end, rank, a + b) == Plus(QueueTally(g, end, rank, a), QueueTally(g, end, rank, b))
    decreases |a|
  {
    if a != [] {
      assert (a + b)[0] == a[0] && (a + b)[1..] == a[1..] + b;
      assert forall x | x in a[1..] :: x in a;
      QueueAppend(g, end, rank, a[1..], b);
      PlusAssoc(Explore(g, end, rank, a[0]), QueueTally(g, end, rank, a[1..]), QueueTally(g, end, rank, b));
    } else {
      assert a + b == b;
      PlusZero(QueueTally(g, end, rank, b));
    }
  }

  /** Exploring the outputs from the `k`-th on is exploring them as a queue. */
  lemma {:induction false} ExploreAllQueue(g: Junctions, end: Device, rank: map<Device, nat>, n: Device, k: nat)
    requires Ranked(g, end, rank) && Expands(g, end, n) && n in rank && k <= |g[n]|
    ensures forall x | x in g[n][k..] :: Ok(g, end, rank, x)
    ensures ExploreAll(g, end, rank, n, k) == QueueTally(g, end, rank, g[n][k..])
    decreases |g[n]| - k
  {
    if k < |g[n]| {
      ExploreAllQueue(g, end, rank, n, k + 1);
      assert g[n][k..][1..] == g[n][k + 1..];
    }
  }

  /** An expanded device leads to what its outputs, queued in order, lead
      to, and is taken once more. */
  lemma ExploreExpands(g: Junctions, end: Device, rank: map<Device, nat>, n: Device)
    requires Ranked(g, end, rank) && Expands(g, end, n) && n in rank
    ensures forall x | x in g[n] :: Ok(g, end, rank, x)
    ensures var outs := QueueTally(g, end, rank, g[n]);
      Explore(g, end, rank, n) == Tally(outs.paths, outs.taken + 1)
  {
    ExploreAllQueue(g, end, rank, n, 0);
    assert g[n][0..] == g[n];
  }

  /** A queue leads to what its front device leads to and then what the
      rest of it leads to. */
  lemma QueueFront(g: Junctions, end: Device, rank: map<Device, nat>, q: seq<Device>)
    requires Ranked(g, end, rank) && q != [] && forall x | x in q :: Ok(g, end, rank, x)
    ensures forall x | x in q[1..] :: Ok(g, end, rank, x)
    ensures QueueTally(g, end, rank, q) == Plus(Explore(g, end, rank, q[0]), QueueTally(g, end, rank, q[1..]))
  {
    assert forall x | x in q[1..] :: x in q;
  }

  /** Taking the end device from the front counts one path. */
  lemma TakeEnd(g: Junctions, end: Device, rank: map<Device, nat>, q: seq<Device>, count: nat)
    requires Ranked(g, end, rank) && q != [] && forall x | x in q :: Ok(g, end, rank, x)
    requires q[0] == end
    ensures forall x | x in q[1..] :: Ok(g, end, rank, x)
    ensures AddOpt(Some(count + 1), QueueTally(g, end, rank, q[1..]).paths) == AddOpt(Some(count), QueueTally(g, end, rank, q).paths)
    ensures QueueTally(g, end, rank, q[1..]).taken < QueueTally(g, end, rank, q).taken
  {
    QueueFront(g, end, rank, q);
    assert Explore(g, end, rank, q[0]).paths == Some(1);
  }

  /** A device with no entry at the front makes the outcome `None`. */
  lemma TakeMissing(g: Junctions, end: Device, rank: map<Device, nat>, q: seq<Device>)
    requires Ranked(g, end, rank) && q != [] && forall x | x in q :: Ok(g, end, rank, x)
    requires q[0] != end && q[0] !in g
    ensures QueueTally(g, end, rank, q).paths == None
  {
    QueueFront(g, end, rank, q);
  }

  /** Replacing an expanded device at the front by its outputs at the back
      leads to the same paths with one device fewer to take. */
  lemma TakeExpanded(g: Junctions, end: Device, rank: map<Device, nat>, q: seq<Device>)
    requires Ranked(g, end, rank) && q != [] && forall x | x in q :: Ok(g, end, rank, x)
    requires Expands(g, end, q[0])
    ensures forall x | x in q[1..] + g[q[0]] :: Ok(g, end, rank, x)
    ensures QueueTally(g, end, rank, q[1..] + g[q[0]]).paths == QueueTally(g, end, rank, q).paths
    ensures QueueTally(g, end, rank, q[1..] + g[q[0]]).taken < QueueTally(g, end, rank, q).taken
  {
    QueueFront(g, end, rank, q);
    assert q[0] in q;
    ExploreExpands(g, end, rank, q[0]);
    QueueAppend(g, end, rank, q[1..], g[q[0]]);
    var rest, outs := QueueTally(g, end, rank, q[1..]), QueueTally(g, end, rank, g[q[0]]);
    AddOptComm(rest.paths, outs.paths);
  }

  /** Only the devices the search meets need a rank: `a` and `b` feed each
      other, but `you` reaches neither, so ranking `you` above `out` is
      enough and the search finds the one path. */
  lemma UnreachedCycle()
    ensures var g: Junctions := map["you" := ["out"], "a" := ["b"], "b" := ["a"]];
      var rank: map<Device, nat> := map["you" := 1, "out" := 0];
      Ranked(g, "out", rank) && Ok(g, "out", rank, "you") && Paths(g, "out", rank, "you") == Some(1)
  {
  }

  /** Lines 59-75: the queue search from `start`; `None` is the panic of
      line 69. The ranks are only there to show the search ends. */
  method CountAllPaths(g: Junctions, start: Device, end: Device, ghost rank: map<Device, nat>) returns (r: Option<nat>)
    requires Ranked(g, end, rank) && Ok(g, end, rank, start)
    ensures r == Paths(g, end, rank, start)
    ensures start == end ==> r == Some(1)
  {
    var count := 0;
    var queue := [start];
    assert queue[1..] == [];
    while queue != []
      invariant forall x | x in queue :: Ok(g, end, rank, x)
      invariant AddOpt(Some(count), QueueTally(g, end, rank, queue).paths) == Paths(g, end, rank, start)
      decreases QueueTally(g, end, rank, queue).taken
    {
      var input := queue[0];
      if input == end {
        TakeEnd(g, end, rank, queue, count);
        count := count + 1;
        queue := queue[1..];
      } else if input !in g {
        TakeMissing(g, end, rank, queue);
        return None;
      } else {
        TakeExpanded(g, end, rank, queue);
        queue := queue[1..] + g[input];
      }
    }
    return Some(count);
  }
}
