/** Devices, second reading: count the ways from `svr` to `out` that pass
    through both `dac` and `fft`. The search carries two flags, set on
    stepping onto `dac` and `fft`, and remembers the count of every state it
    has finished. */
module Day11P2 {
  import opened Wrappers
  import opened Day11P1

  const Out: Device := "out"
  const Dac: Device := "dac"
  const Fft: Device := "fft"
  const Svr: Device := "svr"

  /** Line 57: a device and whether `dac` and `fft` have been passed. */
  type State = (Device, bool, bool)

  /** Lines 74-76: stepping onto output `o` sets a flag when `o` is `dac`
      or `fft`, and never clears one. */
  function Step(s: State, o: Device): (t: State)
    ensures t.0 == o && (s.1 ==> t.1) && (s.2 ==> t.2)
  {
    (o, s.1 || o == Dac, s.2 || o == Fft)
  }

  /** Lines 56-83 without the memo: at `out` one way if both flags are set
      and none otherwise (lines 64-70), a device with no entry panics on the
      `unwrap` of line 73, which is `None`, and any other device adds up its
      outputs' counts (lines 72-82). */
  function Count(g: Junctions, rank: map<Device, nat>, s: State): Option<nat>
    requires Ranked(g, Out, rank) && Ok(g, Out, rank, s.0)
    decreases Rank(rank, s.0), 1, 0
  {
    if s.0 == Out then Some(if s.1 && s.2 then 1 else 0)
    else if s.0 !in g then None
    else CountFrom(g, rank, s, 0)
  }

  /** The counts of the outputs of `s` from the `k`-th on. */
  function CountFrom(g: Junctions, rank: map<Device, nat>, s: State, k: nat): Option<nat>
    requires Ranked(g, Out, rank) && Expands(g, Out, s.0) && s.0 in rank && k <= |g[s.0]|
    decreases Rank(rank, s.0), 0, |g[s.0]| - k
  {
    if k == |g[s.0]| then Some(0)
    else
      assert g[s.0][k] in g[s.0];
      AddOpt(Count(g, rank, Step(s, g[s.0][k])), CountFrom(g, rank, s, k + 1))
  }

  /** Counting with flags panics exactly when counting all paths does; it
      counts no more ways, and as many once both flags are set. */
  lemma {:induction false} CountVsPaths(g: Junctions, rank: map<Device, nat>, s: State)
    requires Ranked(g, Out, rank) && Ok(g, Out, rank, s.0)
    ensures Count(g, rank, s).Some? <==> Paths(g, Out, rank, s.0).Some?
    ensures Count(g, rank, s).Some? ==> Count(g, rank, s).value <= Paths(g, Out, rank, s.0).value
    ensures s.1 && s.2 ==> Count(g, rank, s) == Paths(g, Out, rank, s.0)
    decreases Rank(rank, s.0), 1, 0
  {
    if s.0 != Out && s.0 in g {
      CountFromVsExploreAll(g, rank, s, 0);
    }
  }

  lemma {:induction false} CountFromVsExploreAll(g: Junctions, rank: map<Device, nat>, s: State, k: nat)
    requires Ranked(g, Out, rank) && Expands(g, Out, s.0) && s.0 in rank && k <= |g[s.0]|
    ensures CountFrom(g, rank, s, k).Some? <==> ExploreAll(g, Out, rank, s.0, k).paths.Some?
    ensures CountFrom(g, rank, s, k).Some? ==> CountFrom(g, rank, s, k).value <= ExploreAll(g, Out, rank, s.0, k).paths.value
    ensures s.1 && s.2 ==> CountFrom(g, rank, s, k) == ExploreAll(g, Out, rank, s.0, k).paths
    decreases Rank(rank, s.0), 0, |g[s.0]| - k
  {
    if k < |g[s.0]| {
      var o := g[s.0][k];
      assert o in g[s.0];
      CountVsPaths(g, rank, Step(s, o));
      CountFromVsExploreAll(g, rank, s, k + 1);
    }
  }

  /** Every count the memo holds is the count of its state. */
  ghost predicate MemoOk(g: Junctions, rank: map<Device, nat>, memo: map<State, nat>)
  {
    Ranked(g, Out, rank) &&
    forall q | q in memo :: Ok(g, Out, rank, q.0) && Count(g, rank, q) == Some(memo[q])
  }

  /** Remembering a state's own count keeps the memo correct. */
  lemma MemoAdd(g: Junctions, rank: map<Device, nat>, memo: map<State, nat>, q: State, c: nat)
    requires MemoOk(g, rank, memo) && Ok(g, Out, rank, q.0) && Count(g, rank, q) == Some(c)
    ensures MemoOk(g, rank, memo[q := c]) && memo.Keys <= memo[q := c].Keys
  {
  }

  /** Adding the count of one more output, in the order of the loop. */
  lemma CountFromStep(g: Junctions, rank: map<Device, nat>, s: State, k: nat, count: nat, c: Option<nat>, total: Option<nat>)
    requires Ranked(g, Out, rank) && Expands(g, Out, s.0) && s.0 in rank && k < |g[s.0]|
    requires g[s.0][k] in g[s.0] && c == Count(g, rank, Step(s, g[s.0][k]))
    requires AddOpt(Some(count), CountFrom(g, rank, s, k)) == total
    ensures c.None? ==> total == None
    ensures c.Some? ==> AddOpt(Some(count + c.value), CountFrom(g, rank, s, k + 1)) == total
  {
  }

  /** Lines 56-83: a memo hit returns the remembered count (lines 61-63);
      otherwise the count is worked out as `Count` does. `None` is the panic
      of line 73. */
  method CountPaths(g: Junctions, s: State, memo: map<State, nat>, ghost rank: map<Device, nat>)
    returns (r: Option<nat>, memo': map<State, nat>)
    requires MemoOk(g, rank, memo) && Ok(g, Out, rank, s.0)
    ensures r == Count(g, rank, s)
    ensures MemoOk(g, rank, memo') && memo.Keys <= memo'.Keys
    decreases Rank(rank, s.0), 1
  {
    if s in memo {
      assert Count(g, rank, s) == Some(memo[s]);
      return Some(memo[s]), memo;
    }
    if s.0 == Out {
      return Some(if s.1 && s.2 then 1 else 0), memo;
    }
    if s.0 !in g {
      return None, memo;
    }
    r, memo' := CountOutputs(g, s, memo, rank);
  }

  /** Lines 72-82: add up the counts of the outputs in order, remembering
      the count of every output state (line 78). */
  method CountOutputs(g: Junctions, s: State, memo: map<State, nat>, ghost rank: map<Device, nat>)
    returns (r: Option<nat>, memo': map<State, nat>)
    requires MemoOk(g, rank, memo) && Expands(g, Out, s.0) && s.0 in rank
    ensures r == Count(g, rank, s)
    ensures MemoOk(g, rank, memo') && memo.Keys <= memo'.Keys
    decreases Rank(rank, s.0), 0
  {
    memo' := memo;
    var outs := g[s.0];
    var count := 0;
    ghost var total := CountFrom(g, rank, s, 0);
    assert Count(g, rank, s) == total;
    AddOptZero(total);
    for k := 0 to |outs|
      invariant MemoOk(g, rank, memo') && memo.Keys <= memo'.Keys
      invariant AddOpt(Some(count), CountFrom(g, rank, s, k)) == total
    {
      assert outs[k] in g[s.0];
      var next := Step(s, outs[k]);
      var c, m := CountPaths(g, next, memo', rank);
      CountFromStep(g, rank, s, k, count, c, total);
      if c.None? {
        return None, m;
      }
      MemoAdd(g, rank, m, next, c.value);
      memo' := m[next := c.value];
      count := count + c.value;
    }
    assert CountFrom(g, rank, s, |outs|) == Some(0);
    AddOptSome(count, 0);
    return Some(count), memo';
  }

  /** Lines 89-90: start at `svr` with neither flag set; `svr` itself sets
      no flag. The count is at most the number of all paths from `svr` to
      `out`. */
  method Answer(g: Junctions, ghost rank: map<Device, nat>) returns (r: Option<nat>)
    requires Ranked(g, Out, rank) && Ok(g, Out, rank, Svr)
    ensures r == Count(g, rank, (Svr, false, false))
    ensures r.Some? <==> Paths(g, Out, rank, Svr).Some?
    ensures r.Some? ==> r.value <= Paths(g, Out, rank, Svr).value
  {
    var memo;
    r, memo := CountPaths(g, (Svr, false, false), map[], rank);
    CountVsPaths(g, rank, (Svr, false, false));
  }
}
