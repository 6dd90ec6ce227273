/** Red tiles on a grid: the largest rectangle that has two red tiles at
    opposite corners. */
module Day9P1 {
  import opened Wrappers
  import opened Pairing

  type Tile = (int, int)

  function Abs(x: int): nat
  {
    if x < 0 then -x else x
  }

  /** Lines 43-45: the tiles of the rectangle with corners `p` and `q`,
      borders included; only the rectangle of a single tile has area 1. */
  function Area(p: Tile, q: Tile): (a: int)
    ensures a >= 1
    ensures a == 1 <==> p == q
  {
    var w, h := Abs(p.0 - q.0) + 1, Abs(p.1 - q.1) + 1;
    ProductOne(w, h);
    w * h
  }

  lemma ProductOne(w: nat, h: nat)
    requires w >= 1 && h >= 1
    ensures w * h >= 1 && (w * h == 1 <==> w == 1 && h == 1)
  {
    if w > 1 {
      assert w * h >= 2 * h;
    } else if h > 1 {
      assert w * h == h;
    }
  }

  /** The area does not depend on which corner comes first. */
  lemma AreaSymmetric(p: Tile, q: Tile)
    ensures Area(p, q) == Area(q, p)
  {
    assert Abs(p.0 - q.0) == Abs(q.0 - p.0) && Abs(p.1 - q.1) == Abs(q.1 - p.1);
  }

  /** `max()` of the pairs' values, `None` when there is none. */
  function Max(ps: seq<Pair>): (m: Option<int>)
    ensures m.None? <==> ps == []
    ensures m.Some? ==> exists p | p in ps :: p.value == m.value
    ensures m.Some? ==> forall p | p in ps :: p.value <= m.value
    decreases |ps|
  {
    if ps == [] then None
    else
      var last := ps[|ps| - 1];
      assert ps == ps[..|ps| - 1] + [last];
      match Max(ps[..|ps| - 1])
      case None => Some(last.value)
      case Some(m) => Some(if m < last.value then last.value else m)
  }

  /** Lines 52-58: the largest area over every pair of red tiles; the
      `unwrap` of line 58 panics when there are fewer than two tiles. */
  function Answer(rows: seq<Tile>): Option<int>
  {
    Max(Combos(rows, Area, 0))
  }

  /** The answer is the area of some pair of red tiles and no pair has a
      larger one; there is an answer exactly when there are two tiles. */
  lemma AnswerSpec(rows: seq<Tile>)
    ensures Answer(rows).None? <==> |rows| < 2
    ensures Answer(rows).Some? ==>
      (exists i, j | 0 <= i < j < |rows| :: Answer(rows).value == Area(rows[i], rows[j])) &&
      forall i, j | 0 <= i < j < |rows| :: Area(rows[i], rows[j]) <= Answer(rows).value
  {
    var all := Combos(rows, Area, 0);
    CombosExist(rows, Area);
    if Answer(rows).Some? {
      var p :| p in all && p.value == Answer(rows).value;
      assert Answer(rows).value == Area(rows[p.a], rows[p.b]);
      forall i, j | 0 <= i < j < |rows|
        ensures Area(rows[i], rows[j]) <= Answer(rows).value
      {
        assert Pair(i, j, Area(rows[i], rows[j])) in all;
      }
    }
  }
}
