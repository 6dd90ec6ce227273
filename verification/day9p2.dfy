/** Red tiles, second reading: the red tiles, in order, are the corners of
    a closed outline of straight lines. The answer is the largest rectangle
    with red tiles at opposite corners that has no red or outline tile
    strictly inside it. */
module Day9P2 {
  import opened Wrappers
  import opened Sorting
  import opened Pairing
  import opened Day9P1

  function Lo(x: int, y: int): int
  {
    if x <= y then x else y
  }

  function Hi(x: int, y: int): int
  {
    if x <= y then y else x
  }

  /** Lines 47-49: `t` lies strictly inside the rectangle with corners `p`
      and `q`. */
  predicate InArea(t: Tile, p: Tile, q: Tile)
  {
    Lo(p.0, q.0) < t.0 < Hi(p.0, q.0) && Lo(p.1, q.1) < t.1 < Hi(p.1, q.1)
  }

  /** The corners may come in either order, and a tile on the border, the
      corners among them, is never inside. */
  lemma InAreaSpec(t: Tile, p: Tile, q: Tile)
    ensures InArea(t, p, q) <==> InArea(t, q, p)
    ensures (t.0 == p.0 || t.0 == q.0 || t.1 == p.1 || t.1 == q.1) ==> !InArea(t, p, q)
  {
  }

  /** Lines 51-55: a straight piece of the outline from `p1` to `p2`. */
  datatype Line = Line(p1: Tile, p2: Tile)

  /** Lines 65-76: the fold that joins each tile to the one before it. */
  function Chain(prev: Tile, rest: seq<Tile>): (r: seq<Line>)
    ensures |r| == |rest|
    ensures forall i | 0 <= i < |rest| :: r[i] == Line(if i == 0 then prev else rest[i - 1], rest[i])
    decreases |rest|
  {
    if rest == [] then []
    else [Line(prev, rest[0])] + Chain(rest[0], rest[1..])
  }

  /** Lines 63-83: the closed outline through the red tiles in order, one
      line from each tile to the next and the last back to the first.
      `rows[0]` on line 64 panics on no tiles and `lines.last().unwrap()` on
      line 79 on one tile: both are `None`. */
  function MakeLines(rows: seq<Tile>): (r: Option<seq<Line>>)
    ensures r.None? <==> |rows| < 2
    ensures r.Some? ==> |r.value| == |rows|
    ensures r.Some? ==> forall i | 0 <= i < |rows| :: r.value[i] == Line(rows[i], rows[if i + 1 < |rows| then i + 1 else 0])
  {
    if rows == [] then None
    else
      var lines := Chain(rows[0], rows[1..]);
      if lines == [] then None
      else
        var r := lines + [Line(lines[|lines| - 1].p2, lines[0].p1)];
        ClosedChain(rows, r);
        Some(r)
  }

  lemma ClosedChain(rows: seq<Tile>, r: seq<Line>)
    requires |rows| >= 2
    requires var lines := Chain(rows[0], rows[1..]); r == lines + [Line(lines[|lines| - 1].p2, lines[0].p1)]
    ensures forall i | 0 <= i < |rows| :: r[i] == Line(rows[i], rows[if i + 1 < |rows| then i + 1 else 0])
  {
    var n := |rows|;
    var lines := Chain(rows[0], rows[1..]);
    forall i | 0 <= i < n
      ensures r[i] == Line(rows[i], rows[if i + 1 < n then i + 1 else 0])
    {
      if i + 1 < n {
        assert r[i] == lines[i];
        if i > 0 {
          assert rows[1..][i - 1] == rows[i];
        }
        assert rows[1..][i] == rows[i + 1];
      } else {
        assert i == n - 1 && |lines| == n - 1;
        var k := n - 2;
        assert lines[k] == Line(if k == 0 then rows[0] else rows[1..][k - 1], rows[1..][k]);
        assert lines[0].p1 == rows[0];
      }
    }
  }

  /** The line runs along a column or along a row. */
  predicate Straight(l: Line)
  {
    l.p1.0 == l.p2.0 || l.p1.1 == l.p2.1
  }

  /** Lines 92-109: the tiles the line covers, both ends included, taken
      along the column of `p1` when both ends share it and along the row of
      `p1` otherwise. */
  function Segment(l: Line): set<Tile>
  {
    if l.p1.0 == l.p2.0 then
      set y: int | Lo(l.p1.1, l.p2.1) <= y <= Hi(l.p1.1, l.p2.1) :: (l.p1.0, y)
    else
      set x: int | Lo(l.p1.0, l.p2.0) <= x <= Hi(l.p1.0, l.p2.0) :: (x, l.p1.1)
  }

  /** The tiles between the two ends of `l`, inclusive, in both directions. */
  predicate Between(t: Tile, l: Line)
  {
    Lo(l.p1.0, l.p2.0) <= t.0 <= Hi(l.p1.0, l.p2.0) && Lo(l.p1.1, l.p2.1) <= t.1 <= Hi(l.p1.1, l.p2.1)
  }

  /** A straight line covers exactly the tiles between its ends; any line
      covers its first end. */
  lemma SegmentSpec(l: Line, t: Tile)
    ensures l.p1 in Segment(l)
    ensures Straight(l) ==> (t in Segment(l) <==> Between(t, l))
  {
    if l.p1.0 == l.p2.0 {
      assert l.p1 == (l.p1.0, l.p1.1);
    } else {
      assert l.p1 == (l.p1.0, l.p1.1);
      if Straight(l) && Between(t, l) {
        assert t == (t.0, l.p1.1);
      }
    }
    if Straight(l) && l.p1.0 == l.p2.0 && Between(t, l) {
      assert t == (l.p1.0, t.1);
    }
  }

  /** Lines 57-61. */
  datatype Tiles = Tiles(red: set<Tile>, perimeter: set<Tile>)

  /** Lines 85-116: the first end of every line is red, and every tile a
      line covers is on the perimeter; so every red tile is on it too. */
  function BuildTiles(lines: seq<Line>): (t: Tiles)
    ensures t.red <= t.perimeter
    decreases |lines|
  {
    if lines == [] then Tiles({}, {})
    else
      var l := lines[|lines| - 1];
      var rest := BuildTiles(lines[..|lines| - 1]);
      SegmentSpec(l, l.p1);
      Tiles(rest.red + {l.p1}, rest.perimeter + Segment(l))
  }

  /** The red tiles are the lines' first ends and the perimeter the tiles
      the lines cover. */
  lemma {:induction false} BuildTilesSpec(lines: seq<Line>, t: Tile)
    ensures t in BuildTiles(lines).red <==> exists i | 0 <= i < |lines| :: lines[i].p1 == t
    ensures t in BuildTiles(lines).perimeter <==> exists i | 0 <= i < |lines| :: t in Segment(lines[i])
    decreases |lines|
  {
    if lines != [] {
      var front := lines[..|lines| - 1];
      BuildTilesSpec(front, t);
      forall i | 0 <= i < |front|
        ensures front[i] == lines[i]
      {
      }
    }
  }

  /** Lines whose first ends are `starts` make `starts` the red tiles. */
  lemma RedAreStarts(lines: seq<Line>, starts: seq<Tile>, t: Tile)
    requires |lines| == |starts| && forall i | 0 <= i < |lines| :: lines[i].p1 == starts[i]
    ensures t in BuildTiles(lines).red <==> t in starts
  {
    BuildTilesSpec(lines, t);
  }

  /** On an outline, the red tiles are the input tiles. */
  lemma RedAreRows(rows: seq<Tile>, t: Tile)
    requires |rows| >= 2
    ensures t in BuildTiles(MakeLines(rows).value).red <==> t in rows
  {
    RedAreStarts(MakeLines(rows).value, rows, t);
  }

  /** Lines 140-156: a red tile or a perimeter tile lies strictly inside
      the rectangle. */
  predicate Blocked(tiles: Tiles, p: Tile, q: Tile)
  {
    (exists t | t in tiles.red :: InArea(t, p, q)) ||
    (exists t | t in tiles.perimeter :: InArea(t, p, q))
  }

  /** Since the red tiles are on the perimeter, the red check of lines
      143-148 never decides anything the perimeter check would not. */
  lemma RedCheckRedundant(tiles: Tiles, p: Tile, q: Tile)
    requires tiles.red <= tiles.perimeter
    ensures Blocked(tiles, p, q) <==> exists t | t in tiles.perimeter :: InArea(t, p, q)
  {
  }

  /** The pair's corners are tiles, and no tile lies inside its rectangle. */
  predicate Fits(rows: seq<Tile>, tiles: Tiles, c: Pair)
  {
    c.a < |rows| && c.b < |rows| && !Blocked(tiles, rows[c.a], rows[c.b])
  }

  /** Lines 138-162: the area of the first candidate that fits, or 0. */
  function FirstFit(cands: seq<Pair>, rows: seq<Tile>, tiles: Tiles): (r: int)
    ensures (r == 0 && forall k | 0 <= k < |cands| :: !Fits(rows, tiles, cands[k])) ||
      exists k | 0 <= k < |cands| :: Fits(rows, tiles, cands[k]) && r == cands[k].value &&
        forall m | 0 <= m < k :: !Fits(rows, tiles, cands[m])
    decreases |cands|
  {
    if cands == [] then 0
    else if Fits(rows, tiles, cands[0]) then cands[0].value
    else
      var r := FirstFit(cands[1..], rows, tiles);
      assert forall k | 1 <= k < |cands| :: cands[k] == cands[1..][k - 1];
      r
  }

  /** Lines 118-166: the outline's tiles, then every pair of red tiles,
      largest area first, tried in turn. */
  function Answer(rows: seq<Tile>): Option<int>
  {
    var lines :- MakeLines(rows);
    Some(FirstFit(Cands(rows), rows, BuildTiles(lines)))
  }

  /** The outline's tiles. */
  function Outline(rows: seq<Tile>): Tiles
    requires |rows| >= 2
  {
    BuildTiles(MakeLines(rows).value)
  }

  /** The candidates in the order they are tried. */
  function Cands(rows: seq<Tile>): seq<Pair>
  {
    SortDescBy(Combos(rows, Area, 0), Value)
  }

  /** The rectangle with corners `rows[i]` and `rows[j]` has nothing inside. */
  predicate Valid(rows: seq<Tile>, i: nat, j: nat)
    requires |rows| >= 2 && i < |rows| && j < |rows|
  {
    Fits(rows, Outline(rows), Pair(i, j, Area(rows[i], rows[j])))
  }

  /** Every pair of tiles is a candidate ... */
  lemma PairIndex(rows: seq<Tile>, i: nat, j: nat) returns (m: nat)
    requires i < j < |rows|
    ensures m < |Cands(rows)| && Cands(rows)[m] == Pair(i, j, Area(rows[i], rows[j]))
  {
    var all := Combos(rows, Area, 0);
    assert Pair(i, j, Area(rows[i], rows[j])) in multiset(all);
    assert Pair(i, j, Area(rows[i], rows[j])) in multiset(Cands(rows));
    m :| 0 <= m < |Cands(rows)| && Cands(rows)[m] == Pair(i, j, Area(rows[i], rows[j]));
  }

  /** ... and every candidate is a pair of tiles with its area. */
  lemma CandPair(rows: seq<Tile>, m: nat)
    requires m < |Cands(rows)|
    ensures var c := Cands(rows)[m]; c.a < c.b < |rows| && c.value == Area(rows[c.a], rows[c.b])
  {
    var all := Combos(rows, Area, 0);
    assert Cands(rows)[m] in multiset(Cands(rows));
    assert Cands(rows)[m] in multiset(all);
  }

  /** The candidates are the pairs of tiles with their areas, each pair
      among them, largest area first. */
  predicate Ranked(cands: seq<Pair>, rows: seq<Tile>)
  {
    (forall m | 0 <= m < |cands| ::
      cands[m].a < cands[m].b < |rows| && cands[m].value == Area(rows[cands[m].a], rows[cands[m].b])) &&
    (forall i, j | 0 <= i < j < |rows| :: Pair(i, j, Area(rows[i], rows[j])) in cands) &&
    (forall m, n | 0 <= m < n < |cands| :: cands[n].value <= cands[m].value)
  }

  lemma CandsRanked(rows: seq<Tile>)
    ensures Ranked(Cands(rows), rows)
  {
    var cands := Cands(rows);
    forall m | 0 <= m < |cands|
      ensures cands[m].a < cands[m].b < |rows| && cands[m].value == Area(rows[cands[m].a], rows[cands[m].b])
    {
      CandPair(rows, m);
    }
    forall i, j | 0 <= i < j < |rows|
      ensures Pair(i, j, Area(rows[i], rows[j])) in cands
    {
      var m := PairIndex(rows, i, j);
    }
    forall m, n | 0 <= m < n < |cands|
      ensures cands[n].value <= cands[m].value
    {
      DescendingAt(Combos(rows, Area, 0), Value, m, n);
    }
  }

  /** Trying ranked candidates in turn finds the largest area of a pair that
      fits, or 0 when no pair fits. */
  lemma FirstFitBest(cands: seq<Pair>, rows: seq<Tile>, tiles: Tiles)
    requires Ranked(cands, rows)
    ensures var r := FirstFit(cands, rows, tiles);
      (r == 0 && forall i, j | 0 <= i < j < |rows| :: !Fits(rows, tiles, Pair(i, j, Area(rows[i], rows[j])))) ||
      ((exists i, j | 0 <= i < j < |rows| :: Fits(rows, tiles, Pair(i, j, Area(rows[i], rows[j]))) && r == Area(rows[i], rows[j])) &&
       forall i, j | 0 <= i < j < |rows| && Fits(rows, tiles, Pair(i, j, Area(rows[i], rows[j]))) :: Area(rows[i], rows[j]) <= r)
  {
    var r := FirstFit(cands, rows, tiles);
    if forall k | 0 <= k < |cands| :: !Fits(rows, tiles, cands[k]) {
      NoneFits(cands, rows, tiles);
    } else {
      var k :| 0 <= k < |cands| && Fits(rows, tiles, cands[k]) && r == cands[k].value &&
        forall m | 0 <= m < k :: !Fits(rows, tiles, cands[m]);
      FirstFitting(cands, rows, tiles, k);
    }
  }

  /** When no candidate fits, no pair fits. */
  lemma NoneFits(cands: seq<Pair>, rows: seq<Tile>, tiles: Tiles)
    requires Ranked(cands, rows)
    requires forall k | 0 <= k < |cands| :: !Fits(rows, tiles, cands[k])
    ensures forall i, j | 0 <= i < j < |rows| :: !Fits(rows, tiles, Pair(i, j, Area(rows[i], rows[j])))
  {
    forall i, j | 0 <= i < j < |rows|
      ensures !Fits(rows, tiles, Pair(i, j, Area(rows[i], rows[j])))
    {
      assert Pair(i, j, Area(rows[i], rows[j])) in cands;
    }
  }

  /** The first ranked candidate that fits is a pair with the largest area
      among those that fit. */
  lemma FirstFitting(cands: seq<Pair>, rows: seq<Tile>, tiles: Tiles, k: nat)
    requires Ranked(cands, rows) && k < |cands| && Fits(rows, tiles, cands[k])
    requires forall m | 0 <= m < k :: !Fits(rows, tiles, cands[m])
    ensures exists i, j | 0 <= i < j < |rows| :: Fits(rows, tiles, Pair(i, j, Area(rows[i], rows[j]))) && cands[k].value == Area(rows[i], rows[j])
    ensures forall i, j | 0 <= i < j < |rows| && Fits(rows, tiles, Pair(i, j, Area(rows[i], rows[j]))) :: Area(rows[i], rows[j]) <= cands[k].value
  {
    var c := cands[k];
    assert c == Pair(c.a, c.b, Area(rows[c.a], rows[c.b]));
    forall i, j | 0 <= i < j < |rows| && Fits(rows, tiles, Pair(i, j, Area(rows[i], rows[j])))
      ensures Area(rows[i], rows[j]) <= c.value
    {
      var m :| 0 <= m < |cands| && cands[m] == Pair(i, j, Area(rows[i], rows[j]));
      assert k <= m;
    }
  }

  /** The pairs by area, largest first, tried in turn against the outline. */
  lemma OutlineBest(rows: seq<Tile>)
    requires |rows| >= 2
    ensures var tiles := Outline(rows); var r := FirstFit(Cands(rows), rows, tiles);
      (r == 0 && forall i, j | 0 <= i < j < |rows| :: !Fits(rows, tiles, Pair(i, j, Area(rows[i], rows[j])))) ||
      ((exists i, j | 0 <= i < j < |rows| :: Fits(rows, tiles, Pair(i, j, Area(rows[i], rows[j]))) && r == Area(rows[i], rows[j])) &&
       forall i, j | 0 <= i < j < |rows| && Fits(rows, tiles, Pair(i, j, Area(rows[i], rows[j]))) :: Area(rows[i], rows[j]) <= r)
  {
    CandsRanked(rows);
    FirstFitBest(Cands(rows), rows, Outline(rows));
  }

  /** The answer is the largest area of a valid rectangle between two red
      tiles, or 0 when there is none; there is an answer exactly when there
      are two tiles. */
  lemma AnswerSpec(rows: seq<Tile>)
    ensures Answer(rows).None? <==> |rows| < 2
    ensures Answer(rows).Some? ==>
      (Answer(rows).value == 0 && forall i, j | 0 <= i < j < |rows| :: !Valid(rows, i, j)) ||
      ((exists i, j | 0 <= i < j < |rows| :: Valid(rows, i, j) && Answer(rows).value == Area(rows[i], rows[j])) &&
       forall i, j | 0 <= i < j < |rows| && Valid(rows, i, j) :: Area(rows[i], rows[j]) <= Answer(rows).value)
  {
    if |rows| >= 2 {
      var tiles := Outline(rows);
      var r := FirstFit(Cands(rows), rows, tiles);
      assert Answer(rows) == Some(r);
      OutlineBest(rows);
      if exists i, j | 0 <= i < j < |rows| :: Fits(rows, tiles, Pair(i, j, Area(rows[i], rows[j]))) && r == Area(rows[i], rows[j]) {
        var i, j :| 0 <= i < j < |rows| && Fits(rows, tiles, Pair(i, j, Area(rows[i], rows[j]))) && r == Area(rows[i], rows[j]);
        assert Valid(rows, i, j);
      }
    }
  }
}
