/** Tachyon manifold, second reading: a single particle takes both ways at
    every splitter, and the answer counts the timelines, the ways it can
    leave the board. The count is computed by a recursion that remembers the
    count of every side position it has finished. */
module Day7P2 {
  import opened Wrappers
  import opened Day7P1
  import opened Bits

  /** Rows from `p` to the bottom of the board, 0 off the board. */
  function Height(b: Board, p: Pos): nat
  {
    if 0 <= p.1 < |b| then |b| - p.1 else 0
  }

  /** 1 on a splitter, so that stepping sideways off one is progress. */
  function Kind(b: Board, p: Pos): nat
  {
    if Get(b, p) == Some(Splitter) then 1 else 0
  }

  /** The two positions beside `p` in its row (line 89). */
  function Left(p: Pos): Pos
  {
    (p.0 - 1, p.1)
  }

  function Right(p: Pos): Pos
  {
    (p.0 + 1, p.1)
  }

  /** A splitter with a splitter beside it: the recursion of lines 99-107
      would come back to it before either has a count, and never ends. */
  predicate Stuck(b: Board, p: Pos)
  {
    Get(b, Left(p)) == Some(Splitter) || Get(b, Right(p)) == Some(Splitter)
  }

  /** Lines 71-110 without the memo: the number of timelines from `p`. Off
      the board is one timeline (line 81), an empty cell passes the particle
      down (line 86), a splitter adds up both sides (line 109). A start cell
      is `unreachable!` and panics (line 84), and a stuck splitter recurses
      without end: both are `None`. */
  function Timelines(b: Board, p: Pos): (r: Option<nat>)
    ensures r.Some? ==> r.value >= 1
    decreases Height(b, p), Kind(b, p)
  {
    match Get(b, p)
    case None => Some(1)
    case Some(Start) => None
    case Some(Empty) => Timelines(b, Below(p))
    case Some(Splitter) =>
      if Stuck(b, p) then None
      else
        var left :- Timelines(b, Left(p));
        var right :- Timelines(b, Right(p));
        Some(left + right)
  }

  /** Every row at most doubles the timelines, so a board of `h` rows gives
      at most `2^h`: fewer than 64 rows below the start keep the `u64` count
      of line 75 from overflowing. */
  lemma {:induction false} TimelinesBound(b: Board, p: Pos)
    requires Timelines(b, p).Some?
    ensures Timelines(b, p).value <= Pow2(Height(b, p))
    decreases Height(b, p), Kind(b, p)
  {
    match Get(b, p)
    case None =>
    case Some(Empty) =>
      TimelinesBound(b, Below(p));
      Pow2Mono(Height(b, Below(p)), Height(b, p));
    case Some(Splitter) =>
      SideBound(b, p, Left(p));
      SideBound(b, p, Right(p));
  }

  /** From beside a splitter the particle is out at once or one row lower. */
  lemma {:induction false} SideBound(b: Board, s: Pos, q: Pos)
    requires Get(b, s) == Some(Splitter) && q.1 == s.1
    requires Get(b, q) != Some(Splitter) && Timelines(b, q).Some?
    ensures 2 * Timelines(b, q).value <= Pow2(Height(b, s))
    decreases Height(b, q), 0
  {
    match Get(b, q)
    case None =>
    case Some(Empty) =>
      TimelinesBound(b, Below(q));
      assert Height(b, s) == Height(b, Below(q)) + 1;
  }

  /** Every count the memo holds is the count from that position. */
  ghost predicate MemoOk(b: Board, memo: map<Pos, nat>)
  {
    forall q | q in memo :: Timelines(b, q) == Some(memo[q])
  }

  /** Lines 77-94: move down through empty cells to the first cell that is
      not empty, or off the board. */
  method Descend(b: Board, p: Pos) returns (q: Pos)
    ensures q.0 == p.0 && p.1 <= q.1 && Get(b, q) != Some(Empty)
    ensures Timelines(b, q) == Timelines(b, p)
    ensures q.1 > p.1 ==> Height(b, q) < Height(b, p)
  {
    q := p;
    while Get(b, q) == Some(Empty)
      invariant q.0 == p.0 && p.1 <= q.1
      invariant Timelines(b, q) == Timelines(b, p)
      invariant q.1 > p.1 ==> Height(b, q) < Height(b, p)
      decreases Height(b, q)
    {
      q := Below(q);
    }
  }

  /** Lines 71-110: fall through empty cells, then take the count of each
      side from the memo or compute and remember it (lines 99-107), and add
      them up (line 109). A stuck splitter is reported as `None` instead of
      recursing without end. */
  method Fire(b: Board, p: Pos, memo: map<Pos, nat>) returns (r: Option<nat>, memo': map<Pos, nat>)
    requires MemoOk(b, memo)
    ensures r == Timelines(b, p)
    ensures MemoOk(b, memo') && memo.Keys <= memo'.Keys
    decreases Height(b, p), Kind(b, p)
  {
    memo' := memo;
    var here := Descend(b, p);
    if Get(b, here).None? {
      return Some(1), memo';
    }
    if Get(b, here) == Some(Start) || Stuck(b, here) {
      return None, memo';
    }
    var left, right := Left(here), Right(here);
    if left !in memo' {
      var v, m := Fire(b, left, memo');
      if v.None? {
        return None, m;
      }
      memo' := m[left := v.value];
    }
    if right !in memo' {
      var v, m := Fire(b, right, memo');
      if v.None? {
        return None, m;
      }
      memo' := m[right := v.value];
    }
    return Some(memo'[left] + memo'[right]), memo';
  }

  /** Lines 112-128: fire from the cell below the start with an empty memo;
      `start` is the position of the start cell (lines 62-68). */
  method Answer(b: Board, start: Pos) returns (r: Option<nat>)
    ensures r == Timelines(b, Below(start))
    ensures r.Some? ==> 1 <= r.value <= Pow2(Height(b, Below(start)))
  {
    var memo;
    r, memo := Fire(b, Below(start), map[]);
    if r.Some? {
      TimelinesBound(b, Below(start));
    }
  }
}
