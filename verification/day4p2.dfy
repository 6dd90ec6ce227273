/** Paper rolls, second reading: every reachable roll is removed, which may
    make more rolls reachable; rounds repeat until none is, and the answer is
    the number of rolls removed in all. */
module Day4P2 {
  import opened Wrappers
  import opened Day4P1

  /** The positions holding rolls. */
  ghost function Rolls(g: Grid): set<Pos>
  {
    set p | p in g && g[p] == Roll
  }

  /** `g` with the positions of `s` turned to floor. */
  ghost function Cleared(g: Grid, s: set<Pos>): Grid
  {
    map p | p in g :: if p in s then Floor else g[p]
  }

  /** Clearing one more position is one more map update. */
  lemma ClearedStep(g: Grid, s: set<Pos>, q: Pos)
    requires q in g
    ensures Cleared(g, s)[q := Floor] == Cleared(g, s + {q})
  {
  }

  /** Reachable rolls are rolls. */
  lemma HitsAreRolls(g: Grid, cols: int, rows: int)
    ensures Hits(g, cols, rows) <= Rolls(g)
  {
  }

  /** Clearing rolls removes exactly those rolls. */
  lemma ClearedRolls(g: Grid, s: set<Pos>)
    requires s <= Rolls(g)
    ensures Cleared(g, s).Keys == g.Keys
    ensures Rolls(Cleared(g, s)) == Rolls(g) - s
    ensures |Rolls(Cleared(g, s))| == |Rolls(g)| - |s|
  {
    assert Rolls(g) == Rolls(Cleared(g, s)) + s;
  }

  /** The positions a scan has cleared once it reaches column `col` of row `row`. */
  ghost function Done(g: Grid, cols: int, row: int, col: int): set<Pos>
  {
    Hits(g, cols, row) + RowHits(g, row, col)
  }

  /** One cell of the scan keeps the grid in step with what it has cleared. */
  lemma ClearCell(g: Grid, next: Grid, cols: int, row: int, col: int)
    requires 0 <= col && next == Cleared(g, Done(g, cols, row, col))
    ensures (if Hit(g, (col, row)) then next[(col, row) := Floor] else next) == Cleared(g, Done(g, cols, row, col + 1))
  {
    RowHitsNext(g, row, col);
    if Hit(g, (col, row)) {
      assert Done(g, cols, row, col + 1) == Done(g, cols, row, col) + {(col, row)};
      ClearedStep(g, Done(g, cols, row, col), (col, row));
    } else {
      assert Done(g, cols, row, col + 1) == Done(g, cols, row, col);
    }
  }

  /** Lines 104-117 for one row: reachable rolls of row `row`, judged on the
      unchanged grid `g`, become floor in `next`. */
  method ClearRow(g: Grid, next: Grid, row: int, cols: int) returns (after: Grid, count: nat)
    requires 0 <= row && next == Cleared(g, Hits(g, cols, row))
    ensures after == Cleared(g, Hits(g, cols, row + 1))
    ensures count == |RowHits(g, row, cols)|
  {
    after := next;
    count := 0;
    var col := 0;
    assert Done(g, cols, row, 0) == Hits(g, cols, row);
    while col < cols
      invariant 0 <= col <= if cols >= 0 then cols else 0
      invariant after == Cleared(g, Done(g, cols, row, col))
      invariant count == |RowHits(g, row, col)|
      decreases cols - col
    {
      RowHitsStep(g, row, col);
      ClearCell(g, after, cols, row, col);
      if Hit(g, (col, row)) {
        after := after[(col, row) := Floor];
        count := count + 1;
      }
      col := col + 1;
    }
    NoCols(g, row, cols, col);
    HitsStep(g, cols, row);
  }

  /** Lines 99-120: one round over the box the dimensions span. */
  method RemoveRolls(g: Grid) returns (r: Option<(Grid, nat)>)
    ensures r.None? <==> g == map[]
    ensures r.Some? ==> r.value.0 == Cleared(g, Hits(g, Dims(g).value.0, Dims(g).value.1))
    ensures r.Some? ==> r.value.1 == |Hits(g, Dims(g).value.0, Dims(g).value.1)|
    ensures r.Some? ==> r.value.0.Keys == g.Keys && |Rolls(r.value.0)| + r.value.1 == |Rolls(g)|
  {
    var dims :- Dims(g);
    var cols, rows := dims.0, dims.1;
    var next := g;
    assert Cleared(g, Hits(g, cols, 0)) == g;
    var count := 0;
    var row := 0;
    while row < rows
      invariant 0 <= row <= if rows >= 0 then rows else 0
      invariant next == Cleared(g, Hits(g, cols, row))
      invariant count == |Hits(g, cols, row)|
      decreases rows - row
    {
      var inRow;
      next, inRow := ClearRow(g, next, row, cols);
      HitsStep(g, cols, row);
      count := count + inRow;
      row := row + 1;
    }
    NoRows(g, cols, rows, row);
    HitsAreRolls(g, cols, rows);
    ClearedRolls(g, Hits(g, cols, rows));
    return Some((next, count));
  }

  /** The grid once rounds have run until one removes nothing. */
  ghost function Settle(g: Grid): (s: Grid)
    decreases |Rolls(g)|
  {
    if g == map[] then g
    else
      var h := Hits(g, Dims(g).value.0, Dims(g).value.1);
      if h == {} then g
      else
        HitsAreRolls(g, Dims(g).value.0, Dims(g).value.1);
        ClearedRolls(g, h);
        Settle(Cleared(g, h))
  }

  /** Rounds keep every position, only ever remove rolls, and stop with no
      reachable roll left in the box. */
  lemma {:induction false} SettleIsStable(g: Grid)
    requires g != map[]
    ensures Settle(g).Keys == g.Keys && Rolls(Settle(g)) <= Rolls(g)
    ensures Dims(Settle(g)) == Dims(g)
    ensures Hits(Settle(g), Dims(g).value.0, Dims(g).value.1) == {}
    decreases |Rolls(g)|
  {
    var h := Hits(g, Dims(g).value.0, Dims(g).value.1);
    if h != {} {
      HitsAreRolls(g, Dims(g).value.0, Dims(g).value.1);
      ClearedRolls(g, h);
      var next := Cleared(g, h);
      SameKeysSameDims(g, next);
      SettleIsStable(next);
    }
  }

  /** A round that removes nothing leaves a settled grid; any other round
      leaves a grid that settles the same way. */
  lemma RoundStep(g: Grid, next: Grid, count: nat)
    requires g != map[]
    requires next == Cleared(g, Hits(g, Dims(g).value.0, Dims(g).value.1))
    requires count == |Hits(g, Dims(g).value.0, Dims(g).value.1)|
    ensures count == 0 ==> next == g && Settle(g) == g
    ensures count != 0 ==> Settle(next) == Settle(g)
  {
    var h := Hits(g, Dims(g).value.0, Dims(g).value.1);
    if count == 0 {
      assert h == {};
      assert next == g;
    }
  }

  /** The dimensions depend on the positions only. */
  lemma SameKeysSameDims(g: Grid, h: Grid)
    requires g.Keys == h.Keys
    ensures Dims(g) == Dims(h)
  {
    if g != map[] {
      assert h != map[] by {
        var p :| p in g;
        assert p in h;
      }
    }
  }

  /** Lines 122-147: run rounds until one removes nothing and total what they
      removed; an empty grid panics in the first round. */
  method Answer(g: Grid) returns (r: Option<nat>)
    ensures r.None? <==> g == map[]
    ensures r.Some? ==> r.value == |Rolls(g)| - |Rolls(Settle(g))|
  {
    if g == map[] {
      var first := RemoveRolls(g);
      return None;
    }
    var data := g;
    var total := 0;
    while true
      invariant data.Keys == g.Keys && data != map[]
      invariant Settle(data) == Settle(g)
      invariant total + |Rolls(data)| == |Rolls(g)|
      decreases |Rolls(data)|
    {
      var step := RemoveRolls(data);
      var prev := data;
      data := step.value.0;
      total := total + step.value.1;
      SameKeysSameDims(prev, g);
      RoundStep(prev, data, step.value.1);
      if step.value.1 == 0 {
        break;
      }
    }
    return Some(total);
  }
}
