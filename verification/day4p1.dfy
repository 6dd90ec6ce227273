/** Paper rolls on a grid: a roll can be reached by a forklift when fewer
    than four of its eight neighbours hold rolls; the answer counts such rolls. */
module Day4P1 {
  import opened Wrappers

  datatype Spot = Roll | Floor

  /** A position as `(column, row)`. */
  type Pos = (int, int)

  /** The parsed grid: every position read from the input and what is there. */
  type Grid = map<Pos, Spot>

  /** Lines 69-71. */
  predicate IsFloor(g: Grid, p: Pos)
  {
    p in g && g[p] == Floor
  }

  /** Lines 77-79: off the grid. */
  predicate IsEmpty(g: Grid, p: Pos)
  {
    p !in g
  }

  /** Lines 73-75: a roll, and so neither floor nor off the grid. */
  predicate IsRoll(g: Grid, p: Pos)
    ensures IsRoll(g, p) <==> !IsFloor(g, p) && !IsEmpty(g, p)
  {
    p in g && g[p] == Roll
  }

  /** The eight steps of lines 83-89, column step outer, row step inner. */
  const Offsets: seq<Pos> := [(-1, -1), (-1, 0), (-1, 1), (0, -1), (0, 1), (1, -1), (1, 0), (1, 1)]

  /** The steps are the eight distinct moves to an adjacent cell. */
  lemma OffsetsAreNeighbours(d: Pos)
    ensures d in Offsets <==> -1 <= d.0 <= 1 && -1 <= d.1 <= 1 && d != (0, 0)
    ensures forall i, j | 0 <= i < j < |Offsets| :: Offsets[i] != Offsets[j]
  {
  }

  function Shift(p: Pos, d: Pos): Pos
  {
    (p.0 + d.0, p.1 + d.1)
  }

  /** Lines 82-94: the steps of `ds` from `p` that reach floor or leave the grid. */
  function FreeCount(g: Grid, p: Pos, ds: seq<Pos>): (c: nat)
    ensures c <= |ds|
    decreases |ds|
  {
    if ds == [] then 0
    else FreeCount(g, p, ds[..|ds| - 1]) + if IsRoll(g, Shift(p, ds[|ds| - 1])) then 0 else 1
  }

  /** The steps of `ds` from `p` that reach a roll. */
  ghost function RollSteps(g: Grid, p: Pos, ds: seq<Pos>): set<Pos>
  {
    set d | d in ds && IsRoll(g, Shift(p, d))
  }

  /** The steps not counted as free are exactly those reaching a roll. */
  lemma {:induction false} FreeCountRolls(g: Grid, p: Pos, ds: seq<Pos>)
    requires forall i, j | 0 <= i < j < |ds| :: ds[i] != ds[j]
    ensures FreeCount(g, p, ds) + |RollSteps(g, p, ds)| == |ds|
    decreases |ds|
  {
    if ds != [] {
      var front := ds[..|ds| - 1];
      var last := ds[|ds| - 1];
      FreeCountRolls(g, p, front);
      assert forall i | 0 <= i < |front| :: front[i] == ds[i];
      assert last !in front;
      assert ds == front + [last];
      if IsRoll(g, Shift(p, last)) {
        assert RollSteps(g, p, ds) == RollSteps(g, p, front) + {last};
      } else {
        assert RollSteps(g, p, ds) == RollSteps(g, p, front);
      }
    }
  }

  /** The neighbours of `p` that hold rolls, as steps from `p`. */
  ghost function RollNeighbours(g: Grid, p: Pos): set<Pos>
  {
    RollSteps(g, p, Offsets)
  }

  /** Lines 81-96: five or more free neighbours, that is at most three rolls
      among the eight. */
  function CanAccess(g: Grid, p: Pos): (b: bool)
    ensures b <==> |RollNeighbours(g, p)| <= 3
  {
    OffsetsAreNeighbours((0, 0));
    FreeCountRolls(g, p, Offsets);
    FreeCount(g, p, Offsets) >= 5
  }

  /** The column, or with `byRow` the row, of a position. */
  function Coord(p: Pos, byRow: bool): int
  {
    if byRow then p.1 else p.0
  }

  /** A position of largest column (or row): every finite non-empty set has one. */
  ghost function Extreme(ps: set<Pos>, byRow: bool): (q: Pos)
    requires ps != {}
    ensures q in ps && forall p | p in ps :: Coord(p, byRow) <= Coord(q, byRow)
    decreases |ps|
  {
    var y :| y in ps;
    var rest := ps - {y};
    assert ps == rest + {y};
    if rest == {} then y
    else
      var m := Extreme(rest, byRow);
      if Coord(y, byRow) > Coord(m, byRow) then y else m
  }

  /** Lines 64-65: `keys().map(..).max().unwrap()`. */
  function MaxCoord(ps: set<Pos>, byRow: bool): (m: int)
    requires ps != {}
    ensures (exists p | p in ps :: Coord(p, byRow) == m) && forall p | p in ps :: Coord(p, byRow) <= m
  {
    var q := Extreme(ps, byRow);
    var coords := set p | p in ps :: Coord(p, byRow);
    assert Coord(q, byRow) in coords;
    var m :| m in coords && forall p | p in ps :: Coord(p, byRow) <= m;
    m
  }

  /** Lines 63-67: one past the largest column and row of any position; the
      `unwrap` of line 64 panics on an empty grid. */
  function Dims(g: Grid): (r: Option<(int, int)>)
    ensures r.None? <==> g == map[]
    ensures r.Some? ==> forall p | p in g :: p.0 < r.value.0 && p.1 < r.value.1
    ensures r.Some? ==> exists p | p in g :: p.0 == r.value.0 - 1
    ensures r.Some? ==> exists p | p in g :: p.1 == r.value.1 - 1
  {
    if g == map[] then None
    else Some((MaxCoord(g.Keys, false) + 1, MaxCoord(g.Keys, true) + 1))
  }

  /** A roll the forklift can reach. */
  predicate Hit(g: Grid, p: Pos)
  {
    IsRoll(g, p) && CanAccess(g, p)
  }

  /** Reachable rolls in rows `0 .. rows - 1` and columns `0 .. cols - 1`. */
  ghost function Hits(g: Grid, cols: int, rows: int): set<Pos>
  {
    set p | p in g && 0 <= p.0 < cols && 0 <= p.1 < rows && Hit(g, p)
  }

  /** Reachable rolls in row `row`, columns `0 .. cols - 1`. */
  ghost function RowHits(g: Grid, row: int, cols: int): set<Pos>
  {
    set p | p in g && p.1 == row && 0 <= p.0 < cols && Hit(g, p)
  }

  /** Scanning one more column adds that cell when it is a reachable roll. */
  lemma RowHitsNext(g: Grid, row: int, col: int)
    requires 0 <= col
    ensures RowHits(g, row, col + 1) == RowHits(g, row, col) + if Hit(g, (col, row)) then {(col, row)} else {}
  {
    var extra: set<Pos> := if Hit(g, (col, row)) then {(col, row)} else {};
    forall p
      ensures p in RowHits(g, row, col + 1) <==> p in RowHits(g, row, col) + extra
    {
      if p == (col, row) {
        assert p !in RowHits(g, row, col);
      }
    }
  }

  /** The count of reachable rolls grows by one exactly at a reachable roll. */
  lemma RowHitsStep(g: Grid, row: int, col: int)
    requires 0 <= col
    ensures |RowHits(g, row, col + 1)| == |RowHits(g, row, col)| + if Hit(g, (col, row)) then 1 else 0
  {
    RowHitsNext(g, row, col);
    assert (col, row) !in RowHits(g, row, col);
  }

  /** Scanning one more row adds that row's reachable rolls, none of them seen before. */
  lemma HitsStep(g: Grid, cols: int, row: int)
    requires 0 <= row
    ensures Hits(g, cols, row + 1) == Hits(g, cols, row) + RowHits(g, row, cols)
    ensures Hits(g, cols, row) * RowHits(g, row, cols) == {}
    ensures |Hits(g, cols, row + 1)| == |Hits(g, cols, row)| + |RowHits(g, row, cols)|
  {
    assert Hits(g, cols, row + 1) == Hits(g, cols, row) + RowHits(g, row, cols);
    assert Hits(g, cols, row) * RowHits(g, row, cols) == {};
  }

  /** A scan that ends at `end` has covered as far as the bound reaches. */
  lemma NoCols(g: Grid, row: int, cols: int, end: int)
    requires end == if cols >= 0 then cols else 0
    ensures RowHits(g, row, cols) == RowHits(g, row, end)
  {
  }

  lemma NoRows(g: Grid, cols: int, rows: int, end: int)
    requires end == if rows >= 0 then rows else 0
    ensures Hits(g, cols, rows) == Hits(g, cols, end)
  {
  }

  /** Lines 107-117 for one row. */
  method CountRow(g: Grid, row: int, cols: int) returns (count: nat)
    ensures count == |RowHits(g, row, cols)|
  {
    count := 0;
    var col := 0;
    while col < cols
      invariant 0 <= col <= if cols >= 0 then cols else 0
      invariant count == |RowHits(g, row, col)|
      decreases cols - col
    {
      RowHitsStep(g, row, col);
      if Hit(g, (col, row)) {
        count := count + 1;
      }
      col := col + 1;
    }
    NoCols(g, row, cols, col);
  }

  /** Lines 104-118: scan the rows and columns the dimensions span. */
  method CountHits(g: Grid, cols: int, rows: int) returns (count: nat)
    ensures count == |Hits(g, cols, rows)|
  {
    count := 0;
    var row := 0;
    while row < rows
      invariant 0 <= row <= if rows >= 0 then rows else 0
      invariant count == |Hits(g, cols, row)|
      decreases rows - row
    {
      var inRow := CountRow(g, row, cols);
      HitsStep(g, cols, row);
      count := count + inRow;
      row := row + 1;
    }
    NoRows(g, cols, rows, row);
  }

  /** Every reachable roll of the grid. */
  ghost function AllHits(g: Grid): set<Pos>
  {
    set p | p in g && Hit(g, p)
  }

  /** With no negative coordinates the scanned box holds every position. */
  lemma BoxCoversGrid(g: Grid, cols: int, rows: int)
    requires forall p | p in g :: 0 <= p.0 < cols && 0 <= p.1 < rows
    ensures Hits(g, cols, rows) == AllHits(g)
  {
  }

  /** Positions as the parser numbers them: from 0 across and down. */
  predicate FromOrigin(g: Grid)
  {
    forall p | p in g :: p.0 >= 0 && p.1 >= 0
  }

  /** Lines 99-123: the number of reachable rolls; an empty grid panics. */
  method Answer(g: Grid) returns (r: Option<nat>)
    ensures r.None? <==> g == map[]
    ensures r.Some? && FromOrigin(g) ==> r.value == |AllHits(g)|
  {
    var dims :- Dims(g);
    var count := CountHits(g, dims.0, dims.1);
    if FromOrigin(g) {
      BoxCoversGrid(g, dims.0, dims.1);
    }
    return Some(count);
  }
}
