/** Tachyon manifold: a beam enters below the start and moves down; a
    splitter stops it and starts two beams beside the splitter. Beams are
    simulated step by step, a beam dying when it reaches a cell some beam has
    already visited; the answer counts the splits. */
module Day7P1 {
  import opened Wrappers

  datatype Cell = Start | Empty | Splitter

  /** Rows of cells, top row first; position `(col, row)`. */
  type Board = seq<seq<Cell>>

  type Pos = (int, int)

  /** `board.get(&pos)`: the cell at a position, `None` off the board. */
  function Get(b: Board, p: Pos): (c: Option<Cell>)
    ensures c.Some? <==> 0 <= p.1 < |b| && 0 <= p.0 < |b[p.1]|
  {
    if 0 <= p.1 < |b| && 0 <= p.0 < |b[p.1]| then Some(b[p.1][p.0]) else None
  }

  function Below(p: Pos): Pos
  {
    (p.0, p.1 + 1)
  }

  /** Lines 74-78: a beam, whether it still moves, the cells it has visited
      and where it is. */
  datatype Tachyon = Tachyon(active: bool, positions: set<Pos>, cur: Pos)

  /** Lines 103-105: some beam has visited `pos`. */
  predicate AnyAt(ts: seq<Tachyon>, pos: Pos)
  {
    exists i | 0 <= i < |ts| :: pos in ts[i].positions
  }

  /** Every cell some beam has visited. */
  ghost function Claimed(ts: seq<Tachyon>): set<Pos>
  {
    set i, p | 0 <= i < |ts| && p in ts[i].positions :: p
  }

  lemma AnyAtClaimed(ts: seq<Tachyon>, pos: Pos)
    ensures AnyAt(ts, pos) <==> pos in Claimed(ts)
  {
    if pos in Claimed(ts) {
      var i :| 0 <= i < |ts| && pos in ts[i].positions;
    }
  }

  /** Lines 91-101: a new beam at `pos` unless some beam has visited it. The
      list only grows, and afterwards `pos` is visited. */
  function New(ts: seq<Tachyon>, pos: Pos): (r: seq<Tachyon>)
    ensures |ts| <= |r| <= |ts| + 1
    ensures forall i | 0 <= i < |ts| :: r[i] == ts[i]
    ensures |r| == |ts| + 1 <==> !AnyAt(ts, pos)
    ensures |r| == |ts| + 1 ==> r[|ts|] == Tachyon(true, {pos}, pos)
    ensures AnyAt(r, pos)
  {
    if AnyAt(ts, pos) then ts
    else
      var r := ts + [Tachyon(true, {pos}, pos)];
      assert r[|ts|].positions == {pos};
      assert forall i | 0 <= i < |ts| :: r[i] == ts[i];
      r
  }

  /** Afterwards `pos` is visited as well. */
  lemma NewClaimed(ts: seq<Tachyon>, pos: Pos)
    ensures Claimed(New(ts, pos)) == Claimed(ts) + {pos}
  {
    AnyAtClaimed(ts, pos);
    var r := New(ts, pos);
    if !AnyAt(ts, pos) {
      assert forall i | 0 <= i < |ts| :: r[i] == ts[i];
      assert r[|ts|].positions == {pos};
    }
  }

  /** Lines 159-161. */
  predicate AnyActive(ts: seq<Tachyon>)
  {
    exists i | 0 <= i < |ts| :: ts[i].active
  }

  /** Lines 84-88. */
  datatype Action = OutOfBounds | SplitAt(at: Pos) | MoveTo(to: Pos)

  /** Lines 116-133 for one beam: what the cell below it makes it do; a start
      cell below is `unreachable!` and panics. */
  function Decide(b: Board, t: Tachyon): (a: Option<Action>)
    ensures a.None? <==> Get(b, Below(t.cur)) == Some(Start)
    ensures a == Some(OutOfBounds) <==> Get(b, Below(t.cur)).None?
    ensures a.Some? && a.value.MoveTo? <==> Get(b, Below(t.cur)) == Some(Empty)
    ensures a.Some? && a.value.SplitAt? <==> Get(b, Below(t.cur)) == Some(Splitter)
    ensures a.Some? && a.value.MoveTo? ==> a.value.to == Below(t.cur)
    ensures a.Some? && a.value.SplitAt? ==> a.value.at == Below(t.cur)
  {
    var next := Below(t.cur);
    match Get(b, next)
    case None => Some(OutOfBounds)
    case Some(Start) => None
    case Some(Empty) => Some(MoveTo(next))
    case Some(Splitter) => Some(SplitAt(next))
  }

  /** Actions still to apply: each for an active beam, in increasing beam
      order, so applying one leaves the beams of the later ones untouched. */
  predicate Pending(ts: seq<Tachyon>, acts: seq<(nat, Action)>)
  {
    (forall j | 0 <= j < |acts| :: acts[j].0 < |ts| && ts[acts[j].0].active) &&
    forall j, k | 0 <= j < k < |acts| :: acts[j].0 < acts[k].0
  }

  /** Lines 109-134 over the first `k` beams: every action is decided on the
      list as it stood before the step. */
  function Decisions(b: Board, ts: seq<Tachyon>, k: nat): Option<seq<(nat, Action)>>
    requires k <= |ts|
    decreases k
  {
    if k == 0 then Some([])
    else
      var prev :- Decisions(b, ts, k - 1);
      if ts[k - 1].active then
        var a :- Decide(b, ts[k - 1]);
        Some(prev + [(k - 1, a)])
      else Some(prev)
  }

  /** The decisions fail exactly when an active beam has a start cell below
      it; otherwise they are pending actions for beams below `k`. */
  lemma {:induction false} DecisionsSpec(b: Board, ts: seq<Tachyon>, k: nat)
    requires k <= |ts|
    ensures Decisions(b, ts, k).None? <==> exists i | 0 <= i < k :: ts[i].active && Get(b, Below(ts[i].cur)) == Some(Start)
    ensures Decisions(b, ts, k).Some? ==> Pending(ts, Decisions(b, ts, k).value)
    ensures Decisions(b, ts, k).Some? ==> forall j | 0 <= j < |Decisions(b, ts, k).value| :: Decisions(b, ts, k).value[j].0 < k
    decreases k
  {
    if k > 0 {
      DecisionsSpec(b, ts, k - 1);
    }
  }

  /** Each action is the one its beam decides, and the actions cover every
      active beam. */
  lemma {:induction false} DecisionsAgree(b: Board, ts: seq<Tachyon>, k: nat)
    requires k <= |ts| && Decisions(b, ts, k).Some?
    ensures Pending(ts, Decisions(b, ts, k).value)
    ensures forall j | 0 <= j < |Decisions(b, ts, k).value| ::
      Decide(b, ts[Decisions(b, ts, k).value[j].0]) == Some(Decisions(b, ts, k).value[j].1)
    ensures Decisions(b, ts, k).value == [] <==> forall i | 0 <= i < k :: !ts[i].active
    decreases k
  {
    DecisionsSpec(b, ts, k);
    if k > 0 {
      DecisionsStep(b, ts, k);
      DecisionsAgree(b, ts, k - 1);
    }
  }

  /** The decisions for `k` beams are those for `k - 1` and, when beam
      `k - 1` is active, its own action. */
  lemma DecisionsStep(b: Board, ts: seq<Tachyon>, k: nat)
    requires 0 < k <= |ts| && Decisions(b, ts, k).Some?
    ensures Decisions(b, ts, k - 1).Some?
    ensures !ts[k - 1].active ==> Decisions(b, ts, k).value == Decisions(b, ts, k - 1).value
    ensures ts[k - 1].active ==> Decide(b, ts[k - 1]).Some?
    ensures ts[k - 1].active ==> Decisions(b, ts, k).value == Decisions(b, ts, k - 1).value + [(k - 1, Decide(b, ts[k - 1]).value)]
  {
  }

  /** The active beams among the first `k` whose cell below is a splitter. */
  ghost function SplitIdx(b: Board, ts: seq<Tachyon>, k: nat): set<nat>
  {
    set i: nat | i < k && i < |ts| && ts[i].active && Get(b, Below(ts[i].cur)) == Some(Splitter)
  }

  /** Lines 127 and 156: the splits of a step. */
  function CountSplits(acts: seq<(nat, Action)>): nat
    decreases |acts|
  {
    if acts == [] then 0
    else CountSplits(acts[..|acts| - 1]) + if acts[|acts| - 1].1.SplitAt? then 1 else 0
  }

  lemma CountSplitsAppend(acts: seq<(nat, Action)>, x: (nat, Action))
    ensures CountSplits(acts + [x]) == CountSplits(acts) + if x.1.SplitAt? then 1 else 0
  {
    assert (acts + [x])[..|acts|] == acts;
  }

  /** One more beam adds its index exactly when it is active above a splitter. */
  lemma SplitIdxStep(b: Board, ts: seq<Tachyon>, k: nat)
    requires k < |ts|
    ensures SplitIdx(b, ts, k + 1) ==
      SplitIdx(b, ts, k) + if ts[k].active && Get(b, Below(ts[k].cur)) == Some(Splitter) then {k} else {}
  {
  }

  lemma SplitIdxCount(b: Board, ts: seq<Tachyon>, k: nat)
    requires k < |ts|
    ensures |SplitIdx(b, ts, k + 1)| ==
      |SplitIdx(b, ts, k)| + if ts[k].active && Get(b, Below(ts[k].cur)) == Some(Splitter) then 1 else 0
  {
    SplitIdxStep(b, ts, k);
    assert k !in SplitIdx(b, ts, k);
  }

  /** A step counts one split per active beam standing above a splitter. */
  lemma {:induction false} CountSplitsIdx(b: Board, ts: seq<Tachyon>, k: nat)
    requires k <= |ts| && Decisions(b, ts, k).Some?
    ensures CountSplits(Decisions(b, ts, k).value) == |SplitIdx(b, ts, k)|
    decreases k
  {
    if k > 0 {
      var i := k - 1;
      CountSplitsIdx(b, ts, i);
      SplitIdxCount(b, ts, i);
      DecisionsStep(b, ts, k);
      var prev := Decisions(b, ts, i).value;
      if ts[i].active {
        var a := Decide(b, ts[i]).value;
        CountSplitsAppend(prev, (i, a));
        assert CountSplits(Decisions(b, ts, k).value) == CountSplits(prev) + if a.SplitAt? then 1 else 0;
      }
    }
  }

  /** The beams that still move. */
  ghost function ActiveIdx(ts: seq<Tachyon>): set<nat>
  {
    set i: nat | i < |ts| && ts[i].active
  }

  /** `ts` became `r` without losing anything: no beam removed, none forgets a
      visited cell, and a stopped beam stays as it was. */
  ghost predicate Grows(ts: seq<Tachyon>, r: seq<Tachyon>)
  {
    |ts| <= |r| &&
    forall i | 0 <= i < |ts| ::
      ts[i].positions <= r[i].positions && (!ts[i].active ==> r[i] == ts[i])
  }

  /** Each beam stands on a cell it has visited. */
  ghost predicate Wf(ts: seq<Tachyon>)
  {
    forall i | 0 <= i < |ts| :: ts[i].cur in ts[i].positions
  }

  /** Line 138 and 140: beam `n` stops. */
  function Stop(ts: seq<Tachyon>, n: nat): seq<Tachyon>
    requires n < |ts|
  {
    ts[n := ts[n].(active := false)]
  }

  /** Lines 138-142: the beam stops and new beams start left and right of the splitter. */
  function Split(ts: seq<Tachyon>, n: nat, p: Pos): seq<Tachyon>
    requires n < |ts|
  {
    New(New(Stop(ts, n), (p.0 - 1, p.1)), (p.0 + 1, p.1))
  }

  /** A split keeps every other beam and every visited cell. */
  lemma SplitGrows(ts: seq<Tachyon>, n: nat, p: Pos)
    requires n < |ts| && ts[n].active
    ensures Grows(ts, Split(ts, n, p))
    ensures forall m | 0 <= m < |ts| && m != n :: Split(ts, n, p)[m] == ts[m]
    ensures Wf(ts) ==> Wf(Split(ts, n, p))
  {
    SplitShape(ts, n, p);
  }

  /** A split stops beam `n`, keeps the others, and adds only beams standing
      on their one visited cell. */
  lemma SplitShape(ts: seq<Tachyon>, n: nat, p: Pos)
    requires n < |ts|
    ensures |ts| <= |Split(ts, n, p)|
    ensures forall m | 0 <= m < |ts| && m != n :: Split(ts, n, p)[m] == ts[m]
    ensures Split(ts, n, p)[n] == ts[n].(active := false)
    ensures forall m | |ts| <= m < |Split(ts, n, p)| :: Split(ts, n, p)[m].cur in Split(ts, n, p)[m].positions
  {
    var s1 := Stop(ts, n);
    var s2 := New(s1, (p.0 - 1, p.1));
    NewKeeps(s1, (p.0 - 1, p.1));
    NewKeeps(s2, (p.0 + 1, p.1));
  }

  /** A new beam leaves every earlier beam as it was and stands on its one
      visited cell. */
  lemma NewKeeps(ts: seq<Tachyon>, pos: Pos)
    ensures forall m | 0 <= m < |ts| :: New(ts, pos)[m] == ts[m]
    ensures forall m | |ts| <= m < |New(ts, pos)| :: New(ts, pos)[m].cur in New(ts, pos)[m].positions
  {
  }

  /** Lines 137-153: one action applied. */
  function Act(ts: seq<Tachyon>, n: nat, a: Action): (r: seq<Tachyon>)
    requires n < |ts| && ts[n].active
    ensures Grows(ts, r)
    ensures forall m | 0 <= m < |ts| && m != n :: r[m] == ts[m]
    ensures Wf(ts) ==> Wf(r)
  {
    match a
    case OutOfBounds => Stop(ts, n)
    case SplitAt(p) =>
      SplitGrows(ts, n, p);
      Split(ts, n, p)
    case MoveTo(p) =>
      if AnyAt(ts, p) then Stop(ts, n)
      else ts[n := ts[n].(cur := p, positions := ts[n].positions + {p})]
  }

  /** Lines 136-154: the actions applied in order. */
  function ApplyAll(ts: seq<Tachyon>, acts: seq<(nat, Action)>): (r: seq<Tachyon>)
    requires Pending(ts, acts)
    ensures Grows(ts, r)
    ensures Wf(ts) ==> Wf(r)
    decreases |acts|
  {
    if acts == [] then ts
    else
      var next := Act(ts, acts[0].0, acts[0].1);
      assert Pending(next, acts[1..]) by {
        forall j | 0 <= j < |acts| - 1
          ensures acts[1..][j].0 < |next| && next[acts[1..][j].0].active
        {
          assert acts[0].0 < acts[j + 1].0;
        }
      }
      ApplyAll(next, acts[1..])
  }

  /** Lines 107-157: one step, `None` on a panic. The count is the number of
      active beams above a splitter; no beam is removed or forgets a cell. */
  function Advance(b: Board, ts: seq<Tachyon>): (r: Option<(seq<Tachyon>, nat)>)
    ensures r.None? <==> exists i | 0 <= i < |ts| :: ts[i].active && Get(b, Below(ts[i].cur)) == Some(Start)
    ensures r.Some? ==> r.value.1 == |SplitIdx(b, ts, |ts|)|
    ensures r.Some? ==> Grows(ts, r.value.0) && (Wf(ts) ==> Wf(r.value.0))
  {
    DecisionsSpec(b, ts, |ts|);
    if Decisions(b, ts, |ts|).None? then Step(b, ts)
    else
      CountSplitsIdx(b, ts, |ts|);
      Step(b, ts)
  }

  /** The step itself: every action decided on the beams as they stood,
      then applied in beam order. */
  function Step(b: Board, ts: seq<Tachyon>): Option<(seq<Tachyon>, nat)>
  {
    DecisionsSpec(b, ts, |ts|);
    var acts :- Decisions(b, ts, |ts|);
    Some((ApplyAll(ts, acts), CountSplits(acts)))
  }

  /** The widest row's length. */
  function MaxWidth(b: Board): (w: nat)
    ensures forall r | 0 <= r < |b| :: |b[r]| <= w
    decreases |b|
  {
    if b == [] then 0
    else
      var w := MaxWidth(b[..|b| - 1]);
      assert forall r | 0 <= r < |b| - 1 :: b[..|b| - 1][r] == b[r];
      if |b[|b| - 1]| > w then |b[|b| - 1]| else w
  }

  /** Columns `lo .. hi` of row `r`. */
  ghost function Line(r: int, lo: int, hi: int): set<Pos>
    decreases hi - lo
  {
    if hi < lo then {} else Line(r, lo, hi - 1) + {(hi, r)}
  }

  lemma {:induction false} InLine(r: int, lo: int, hi: int, p: Pos)
    ensures p in Line(r, lo, hi) <==> p.1 == r && lo <= p.0 <= hi
    decreases hi - lo
  {
    if hi >= lo {
      InLine(r, lo, hi - 1, p);
    }
  }

  /** The first `n` rows, one column wider than the board on either side:
      every cell a beam can ever visit after the first. */
  ghost function Rows(b: Board, n: nat): set<Pos>
    decreases n
  {
    if n == 0 then {} else Rows(b, n - 1) + Line(n - 1, -1, MaxWidth(b))
  }

  lemma {:induction false} InRows(b: Board, n: nat, p: Pos)
    ensures p in Rows(b, n) <==> 0 <= p.1 < n && -1 <= p.0 <= MaxWidth(b)
    decreases n
  {
    if n > 0 {
      InRows(b, n - 1, p);
      InLine(n - 1, -1, MaxWidth(b), p);
    }
  }

  ghost function Box(b: Board): set<Pos>
  {
    Rows(b, |b|)
  }

  /** A cell of the board and its neighbours in the row lie in the box. */
  lemma NearBoard(b: Board, p: Pos, d: int)
    requires Get(b, p).Some? && -1 <= d <= 1
    ensures (p.0 + d, p.1) in Box(b)
  {
    InRows(b, |b|, (p.0 + d, p.1));
  }

  /** The cells of the box no beam has visited yet. */
  ghost function Unvisited(b: Board, ts: seq<Tachyon>): nat
  {
    |Box(b) - Claimed(ts)|
  }

  /** `r` is nearer the end of the run than `ts`: fewer unvisited cells, or as
      many and fewer active beams. */
  ghost predicate Lower(b: Board, r: seq<Tachyon>, ts: seq<Tachyon>)
  {
    Unvisited(b, r) < Unvisited(b, ts) ||
    (Unvisited(b, r) == Unvisited(b, ts) && |ActiveIdx(r)| < |ActiveIdx(ts)|)
  }

  /** Visiting a cell of the box for the first time lowers the unvisited count. */
  lemma VisitLowers(b: Board, ts: seq<Tachyon>, r: seq<Tachyon>, p: Pos)
    requires Claimed(r) == Claimed(ts) + {p}
    ensures Unvisited(b, r) <= Unvisited(b, ts)
    ensures p in Box(b) && p !in Claimed(ts) ==> Unvisited(b, r) < Unvisited(b, ts)
    ensures p in Claimed(ts) ==> Unvisited(b, r) == Unvisited(b, ts)
  {
    if p in Box(b) && p !in Claimed(ts) {
      assert Box(b) - Claimed(r) == (Box(b) - Claimed(ts)) - {p};
    } else {
      assert Box(b) - Claimed(r) == Box(b) - Claimed(ts);
    }
  }

  /** Stopping an active beam visits nothing and leaves one active beam fewer. */
  lemma StopLowers(ts: seq<Tachyon>, n: nat)
    requires n < |ts| && ts[n].active
    ensures Claimed(Stop(ts, n)) == Claimed(ts)
    ensures ActiveIdx(Stop(ts, n)) == ActiveIdx(ts) - {n}
  {
    var r := Stop(ts, n);
    forall p
      ensures p in Claimed(r) <==> p in Claimed(ts)
    {
      if p in Claimed(r) {
        var i :| 0 <= i < |r| && p in r[i].positions;
        assert p in ts[i].positions;
      }
      if p in Claimed(ts) {
        var i :| 0 <= i < |ts| && p in ts[i].positions;
        assert p in r[i].positions;
      }
    }
  }

  /** A new beam is active, and is only added at an unvisited cell. */
  lemma NewActive(ts: seq<Tachyon>, pos: Pos)
    ensures ActiveIdx(New(ts, pos)) == if AnyAt(ts, pos) then ActiveIdx(ts) else ActiveIdx(ts) + {|ts|}
    ensures AnyAt(ts, pos) <==> pos in Claimed(ts)
  {
    AnyAtClaimed(ts, pos);
    var r := New(ts, pos);
    if !AnyAt(ts, pos) {
      assert forall i | 0 <= i < |ts| :: r[i] == ts[i];
    }
  }

  /** Moving a beam down to an unvisited cell visits it and keeps the active beams. */
  lemma MoveLowers(ts: seq<Tachyon>, n: nat, p: Pos)
    requires n < |ts| && ts[n].active
    ensures var r := ts[n := ts[n].(cur := p, positions := ts[n].positions + {p})];
      Claimed(r) == Claimed(ts) + {p} && ActiveIdx(r) == ActiveIdx(ts)
  {
    var r := ts[n := ts[n].(cur := p, positions := ts[n].positions + {p})];
    forall q
      ensures q in Claimed(r) <==> q in Claimed(ts) + {p}
    {
      if q in Claimed(r) {
        var i :| 0 <= i < |r| && q in r[i].positions;
        if q != p {
          assert q in ts[i].positions;
        }
      }
      if q in Claimed(ts) {
        var i :| 0 <= i < |ts| && q in ts[i].positions;
        assert q in r[i].positions;
      }
      if q == p {
        assert q in r[n].positions;
      }
    }
  }

  /** Starting a beam at a cell of the box either visits a new cell or
      changes nothing the measure sees. */
  lemma NewLowers(b: Board, ts: seq<Tachyon>, pos: Pos)
    requires pos in Box(b)
    ensures Unvisited(b, New(ts, pos)) < Unvisited(b, ts) ||
      (Unvisited(b, New(ts, pos)) == Unvisited(b, ts) && |ActiveIdx(New(ts, pos))| == |ActiveIdx(ts)|)
  {
    NewActive(ts, pos);
    NewClaimed(ts, pos);
    VisitLowers(b, ts, New(ts, pos), pos);
  }

  /** Stopping a beam keeps the unvisited count and lowers the active count. */
  lemma StopCounts(b: Board, ts: seq<Tachyon>, n: nat)
    requires n < |ts| && ts[n].active
    ensures Unvisited(b, Stop(ts, n)) == Unvisited(b, ts)
    ensures |ActiveIdx(Stop(ts, n))| < |ActiveIdx(ts)|
  {
    StopLowers(ts, n);
    assert n in ActiveIdx(ts);
  }

  /** A split stops the beam and starts up to two, each at a new cell. */
  lemma SplitLowers(b: Board, ts: seq<Tachyon>, n: nat, p: Pos)
    requires n < |ts| && ts[n].active && Get(b, p).Some?
    ensures Lower(b, Split(ts, n, p), ts)
  {
    var s := Stop(ts, n);
    var left := New(s, (p.0 - 1, p.1));
    StopCounts(b, ts, n);
    NearBoard(b, p, -1);
    NearBoard(b, p, 1);
    NewLowers(b, s, (p.0 - 1, p.1));
    NewLowers(b, left, (p.0 + 1, p.1));
  }

  /** A move either stops the beam or takes it to a new cell. */
  lemma MoveToLowers(b: Board, ts: seq<Tachyon>, n: nat, p: Pos)
    requires n < |ts| && ts[n].active && Get(b, p).Some?
    ensures Lower(b, Act(ts, n, MoveTo(p)), ts)
  {
    if AnyAt(ts, p) {
      StopLowers(ts, n);
    } else {
      AnyAtClaimed(ts, p);
      MoveLowers(ts, n, p);
      NearBoard(b, p, 0);
      var r := ts[n := ts[n].(cur := p, positions := ts[n].positions + {p})];
      VisitLowers(b, ts, r, p);
    }
  }

  /** Each action of an active beam brings the run nearer its end. */
  lemma ActLowers(b: Board, ts: seq<Tachyon>, n: nat, a: Action)
    requires n < |ts| && ts[n].active && Decide(b, ts[n]) == Some(a)
    ensures Lower(b, Act(ts, n, a), ts)
  {
    match a
    case OutOfBounds =>
      StopLowers(ts, n);
    case SplitAt(p) =>
      SplitLowers(b, ts, n, p);
    case MoveTo(p) =>
      MoveToLowers(b, ts, n, p);
  }

  /** A step with at least one action brings the run nearer its end. */
  lemma {:induction false} ApplyLowers(b: Board, ts: seq<Tachyon>, acts: seq<(nat, Action)>)
    requires Pending(ts, acts) && acts != []
    requires forall j | 0 <= j < |acts| :: Decide(b, ts[acts[j].0]) == Some(acts[j].1)
    ensures Lower(b, ApplyAll(ts, acts), ts)
    decreases |acts|
  {
    var next := Act(ts, acts[0].0, acts[0].1);
    ActLowers(b, ts, acts[0].0, acts[0].1);
    if |acts| > 1 {
      var rest := acts[1..];
      forall j | 0 <= j < |rest|
        ensures rest[j].0 < |next| && next[rest[j].0].active && Decide(b, next[rest[j].0]) == Some(rest[j].1)
      {
        assert acts[0].0 < acts[j + 1].0;
      }
      ApplyLowers(b, next, rest);
    }
  }

  /** A step taken while some beam is active brings the run nearer its end. */
  lemma AdvanceLowers(b: Board, ts: seq<Tachyon>)
    requires AnyActive(ts) && Advance(b, ts).Some?
    ensures Lower(b, Advance(b, ts).value.0, ts)
  {
    var acts := Decisions(b, ts, |ts|).value;
    DecisionsAgree(b, ts, |ts|);
    ApplyLowers(b, ts, acts);
  }

  /** Beam `i` has stopped above a splitter: it split. */
  ghost predicate Spent(b: Board, t: Tachyon)
  {
    !t.active && Get(b, Below(t.cur)) == Some(Splitter)
  }

  /** The beams that have split. */
  ghost function SpentIdx(b: Board, ts: seq<Tachyon>): set<nat>
  {
    set i: nat | i < |ts| && Spent(b, ts[i])
  }

  /** The beams the actions split. */
  function SplitActs(acts: seq<(nat, Action)>): set<nat>
    decreases |acts|
  {
    if acts == [] then {}
    else (if acts[0].1.SplitAt? then {acts[0].0} else {}) + SplitActs(acts[1..])
  }

  lemma {:induction false} SplitActsAppend(acts: seq<(nat, Action)>, x: (nat, Action))
    ensures SplitActs(acts + [x]) == SplitActs(acts) + if x.1.SplitAt? then {x.0} else {}
    decreases |acts|
  {
    if acts != [] {
      assert (acts + [x])[1..] == acts[1..] + [x];
      SplitActsAppend(acts[1..], x);
    } else {
      assert [x][1..] == [];
    }
  }

  /** The beams a step splits are the active ones above a splitter. */
  lemma {:induction false} SplitActsIdx(b: Board, ts: seq<Tachyon>, k: nat)
    requires k <= |ts| && Decisions(b, ts, k).Some?
    ensures SplitActs(Decisions(b, ts, k).value) == SplitIdx(b, ts, k)
    decreases k
  {
    if k > 0 {
      var i := k - 1;
      SplitActsIdx(b, ts, i);
      SplitIdxStep(b, ts, i);
      var prev := Decisions(b, ts, i).value;
      if ts[i].active {
        var a := Decide(b, ts[i]).value;
        assert Decisions(b, ts, k).value == prev + [(i, a)];
        SplitActsAppend(prev, (i, a));
      } else {
        assert Decisions(b, ts, k).value == prev;
      }
    }
  }

  /** The beams `New` adds are active. */
  lemma NewUnspent(b: Board, ts: seq<Tachyon>, pos: Pos)
    ensures SpentIdx(b, New(ts, pos)) == SpentIdx(b, ts)
  {
    var r := New(ts, pos);
    forall i | 0 <= i < |ts|
      ensures r[i] == ts[i]
    {
      assert r[..|ts|][i] == ts[i];
    }
  }

  /** A split leaves the beam spent above its splitter. */
  lemma SplitSpent(b: Board, ts: seq<Tachyon>, n: nat, p: Pos)
    requires n < |ts| && ts[n].active && Get(b, Below(ts[n].cur)) == Some(Splitter)
    ensures SpentIdx(b, Split(ts, n, p)) == SpentIdx(b, ts) + {n}
  {
    var s := Stop(ts, n);
    StopSpent(b, ts, n);
    assert n !in SpentIdx(b, ts);
    assert SpentIdx(b, s) == SpentIdx(b, ts) + {n};
    TwoNewUnspent(b, s, p);
  }

  lemma TwoNewUnspent(b: Board, s: seq<Tachyon>, p: Pos)
    ensures SpentIdx(b, New(New(s, (p.0 - 1, p.1)), (p.0 + 1, p.1))) == SpentIdx(b, s)
  {
    NewUnspent(b, s, (p.0 - 1, p.1));
    NewUnspent(b, New(s, (p.0 - 1, p.1)), (p.0 + 1, p.1));
  }

  lemma StopSpent(b: Board, ts: seq<Tachyon>, n: nat)
    requires n < |ts|
    ensures SpentIdx(b, Stop(ts, n)) == SpentIdx(b, ts) - {n} + if Get(b, Below(ts[n].cur)) == Some(Splitter) then {n} else {}
  {
  }

  /** Only a split makes a beam spent. */
  lemma ActSpent(b: Board, ts: seq<Tachyon>, n: nat, a: Action)
    requires n < |ts| && ts[n].active && Decide(b, ts[n]) == Some(a)
    ensures SpentIdx(b, Act(ts, n, a)) == SpentIdx(b, ts) + if a.SplitAt? then {n} else {}
  {
    match a
    case OutOfBounds =>
      StopSpent(b, ts, n);
    case SplitAt(p) =>
      SplitSpent(b, ts, n, p);
    case MoveTo(p) =>
      if AnyAt(ts, p) {
        StopSpent(b, ts, n);
      } else {
        var r := ts[n := ts[n].(cur := p, positions := ts[n].positions + {p})];
        assert SpentIdx(b, r) == SpentIdx(b, ts);
      }
  }

  /** Applying a step's actions adds exactly the beams it splits. */
  lemma {:induction false} ApplySpent(b: Board, ts: seq<Tachyon>, acts: seq<(nat, Action)>)
    requires Pending(ts, acts)
    requires forall j | 0 <= j < |acts| :: Decide(b, ts[acts[j].0]) == Some(acts[j].1)
    ensures SpentIdx(b, ApplyAll(ts, acts)) == SpentIdx(b, ts) + SplitActs(acts)
    decreases |acts|
  {
    if acts != [] {
      var next := Act(ts, acts[0].0, acts[0].1);
      ActSpent(b, ts, acts[0].0, acts[0].1);
      var rest := acts[1..];
      forall j | 0 <= j < |rest|
        ensures rest[j].0 < |next| && next[rest[j].0].active && Decide(b, next[rest[j].0]) == Some(rest[j].1)
      {
        assert acts[0].0 < acts[j + 1].0;
      }
      ApplySpent(b, next, rest);
    }
  }

  /** A step's count is the number of beams it newly leaves split. */
  lemma AdvanceSpent(b: Board, ts: seq<Tachyon>)
    requires Advance(b, ts).Some?
    ensures |SpentIdx(b, Advance(b, ts).value.0)| == |SpentIdx(b, ts)| + Advance(b, ts).value.1
  {
    var acts := Decisions(b, ts, |ts|).value;
    DecisionsAgree(b, ts, |ts|);
    ApplySpent(b, ts, acts);
    SplitActsIdx(b, ts, |ts|);
    assert SpentIdx(b, ts) * SplitIdx(b, ts, |ts|) == {};
  }

  /** Lines 174-182 as a reference: steps from `ts` until no beam is active.
      The outcome is the number of splits of all its steps, `None` on a
      panic, and the beams as the run left them. */
  function Run(b: Board, ts: seq<Tachyon>): (Option<nat>, seq<Tachyon>)
    requires AnyActive(ts)
    decreases Unvisited(b, ts), |ActiveIdx(ts)|
  {
    match Step(b, ts)
    case None => (None, ts)
    case Some(step) =>
      AdvanceLowers(b, ts);
      if !AnyActive(step.0) then (Some(step.1), step.0)
      else
        var rest := Run(b, step.0);
        (Plus(step.1, rest.0), rest.1)
  }

  /** `n` more splits on top of a run's outcome; a panic stays a panic. */
  function Plus(n: nat, o: Option<nat>): Option<nat>
  {
    match o
    case None => None
    case Some(k) => Some(n + k)
  }

  /** Adding splits in two goes adds their sum. */
  lemma PlusPlus(m: nat, n: nat, sum: nat, o: Option<nat>)
    requires sum == m + n
    ensures Plus(m, Plus(n, o)) == Plus(sum, o)
  {
  }

  /** One step of a run: a panic ends it, a step that leaves no beam moving
      ends it with that step's splits, and any other step adds its splits
      to the rest of the run. */
  lemma RunStep(b: Board, ts: seq<Tachyon>)
    requires AnyActive(ts)
    ensures Step(b, ts).None? ==> Run(b, ts) == (None, ts)
    ensures Step(b, ts).Some? && !AnyActive(Step(b, ts).value.0) ==>
      Run(b, ts) == (Some(Step(b, ts).value.1), Step(b, ts).value.0)
    ensures Step(b, ts).Some? && AnyActive(Step(b, ts).value.0) ==>
      Run(b, ts).0 == Plus(Step(b, ts).value.1, Run(b, Step(b, ts).value.0).0) &&
      Run(b, ts).1 == Run(b, Step(b, ts).value.0).1
  {
  }

  /** `o` is what is left of a run at `ts` once `total` splits so far are
      added: the next step keeps that so when it leaves a beam moving. */
  lemma RunContinue(b: Board, o: (Option<nat>, seq<Tachyon>), ts: seq<Tachyon>, total: nat, next: seq<Tachyon>, n: nat, sum: nat)
    requires AnyActive(ts) && AnyActive(next)
    requires o.0 == Plus(total, Run(b, ts).0) && o.1 == Run(b, ts).1
    requires Step(b, ts).Some? && Step(b, ts).value.0 == next && Step(b, ts).value.1 == n
    requires sum == total + n
    ensures o.0 == Plus(sum, Run(b, next).0) && o.1 == Run(b, next).1
  {
    RunStep(b, ts);
    assert Run(b, ts).0 == Plus(n, Run(b, next).0);
    PlusPlus(total, n, sum, Run(b, next).0);
  }

  /** ... and `o` is a panic with the beams as they stood when the next step
      panics. */
  lemma RunPanic(b: Board, o: (Option<nat>, seq<Tachyon>), ts: seq<Tachyon>, total: nat)
    requires AnyActive(ts)
    requires o.0 == Plus(total, Run(b, ts).0) && o.1 == Run(b, ts).1
    requires Step(b, ts).None?
    ensures o == (None, ts)
  {
    RunStep(b, ts);
  }

  /** ... and `o` is `total` plus the step's splits, with the beams it
      leaves, when the next step leaves no beam moving. */
  lemma RunHalt(b: Board, o: (Option<nat>, seq<Tachyon>), ts: seq<Tachyon>, total: nat, next: seq<Tachyon>, n: nat)
    requires AnyActive(ts) && !AnyActive(next)
    requires o.0 == Plus(total, Run(b, ts).0) && o.1 == Run(b, ts).1
    requires Step(b, ts).Some? && Step(b, ts).value.0 == next && Step(b, ts).value.1 == n
    ensures o == (Some(total + n), next)
  {
    RunStep(b, ts);
  }

  /** A run that ends without a panic leaves no beam moving. */
  lemma {:induction false} RunStops(b: Board, ts: seq<Tachyon>)
    requires AnyActive(ts)
    ensures Run(b, ts).0.Some? ==> !AnyActive(Run(b, ts).1)
    decreases Unvisited(b, ts), |ActiveIdx(ts)|
  {
    RunStep(b, ts);
    var step := Step(b, ts);
    if step.Some? && AnyActive(step.value.0) {
      AdvanceLowers(b, ts);
      RunStops(b, step.value.0);
    }
  }

  /** A run's total is the number of beams it newly leaves stopped above a
      splitter. */
  lemma {:induction false} RunTotal(b: Board, ts: seq<Tachyon>)
    requires AnyActive(ts)
    ensures Run(b, ts).0.Some? ==>
      Run(b, ts).0.value + |SpentIdx(b, ts)| == |SpentIdx(b, Run(b, ts).1)|
    decreases Unvisited(b, ts), |ActiveIdx(ts)|
  {
    RunStep(b, ts);
    var step := Step(b, ts);
    if step.Some? {
      AdvanceSpent(b, ts);
      if AnyActive(step.value.0) {
        AdvanceLowers(b, ts);
        RunTotal(b, step.value.0);
      }
    }
  }

  /** A run panics exactly when it ends with an active beam above a start
      cell. */
  lemma {:induction false} RunPanics(b: Board, ts: seq<Tachyon>)
    requires AnyActive(ts)
    ensures Run(b, ts).0.None? <==>
      exists i | 0 <= i < |Run(b, ts).1| :: Run(b, ts).1[i].active && Get(b, Below(Run(b, ts).1[i].cur)) == Some(Start)
    decreases Unvisited(b, ts), |ActiveIdx(ts)|
  {
    RunStep(b, ts);
    var step := Step(b, ts);
    if step.Some? {
      if AnyActive(step.value.0) {
        AdvanceLowers(b, ts);
        RunPanics(b, step.value.0);
      } else {
        assert forall i | 0 <= i < |step.value.0| :: !step.value.0[i].active;
      }
    } else {
      assert Advance(b, ts).None?;
    }
  }

  /** Lines 164-187: one beam below the start, then steps until no beam is
      active, adding up the splits; `start` is the position of the start cell
      (lines 65-71). The outcome is that of `Run` from the first beam, so the
      run always ends. On success the count is the number of beams that
      stopped above a splitter, none still moving; `None` is a beam meeting
      a start cell below it. The beams as the run left them are returned
      alongside. */
  method Answer(b: Board, start: Pos) returns (r: Option<nat>, beams: seq<Tachyon>)
    ensures (r, beams) == Run(b, New([], Below(start)))
    ensures r.Some? ==> !AnyActive(beams) && r.value == |SpentIdx(b, beams)|
    ensures r.None? <==> exists i | 0 <= i < |beams| :: beams[i].active && Get(b, Below(beams[i].cur)) == Some(Start)
  {
    beams := New([], Below(start));
    ghost var first := beams;
    assert first[0].active && SpentIdx(b, first) == {};
    ghost var o := Run(b, first);
    var total: nat := 0;
    while true
      invariant AnyActive(beams)
      invariant o.0 == Plus(total, Run(b, beams).0) && o.1 == Run(b, beams).1
      decreases Unvisited(b, beams), |ActiveIdx(beams)|
    {
      var step := Step(b, beams);
      if step.None? {
        RunPanic(b, o, beams, total);
        r := None;
        break;
      }
      AdvanceLowers(b, beams);
      var (next, n) := step.value;
      if !AnyActive(next) {
        RunHalt(b, o, beams, total, next, n);
        r := Some(total + n);
        beams := next;
        break;
      }
      ghost var prev := total;
      total := total + n;
      RunContinue(b, o, beams, prev, next, n, total);
      beams := next;
    }
    RunStops(b, first);
    RunTotal(b, first);
    RunPanics(b, first);
  }
}
