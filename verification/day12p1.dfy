/** Presents under trees: each region lists how many presents of each shape
    it must hold, and a region counts when the cells of those presents do
    not exceed its own cells. */
module Day12P1 {
  import opened Wrappers

  /** Lines 27-30: a present shape on a 3x3 grid, row by row. The index it
      was listed under plays no part in the answer: shapes are looked up by
      their position in the list. */
  type Cells = c: seq<bool> | |c| == 9 witness [false, false, false, false, false, false, false, false, false]

  datatype Shape = Shape(index: int, cells: Cells)

  /** Lines 33-37: the region's size and, for each shape by position, how
      many presents of it go in. */
  datatype Region = Region(width: nat, length: nat, quantities: seq<nat>)

  /** The number of `true` cells, counted from the back. */
  function CountTrue(cs: seq<bool>): (n: nat)
    ensures n <= |cs|
  {
    if cs == [] then 0 else CountTrue(cs[..|cs| - 1]) + if cs[|cs| - 1] then 1 else 0
  }

  /** The positions of the `true` cells. */
  ghost function TrueAt(cs: seq<bool>): set<nat>
  {
    set i: nat | i < |cs| && cs[i]
  }

  /** Counting the `true` cells one by one finds exactly as many as there
      are positions holding `true`. */
  lemma {:induction false} CountTrueCells(cs: seq<bool>)
    ensures CountTrue(cs) == |TrueAt(cs)|
  {
    if cs != [] {
      var k := |cs| - 1;
      CountTrueCells(cs[..k]);
      assert forall i | 0 <= i < k :: cs[..k][i] == cs[i];
      if cs[k] {
        assert TrueAt(cs) == TrueAt(cs[..k]) + {k};
      } else {
        assert TrueAt(cs) == TrueAt(cs[..k]);
      }
    } else {
      assert TrueAt(cs) == {};
    }
  }

  /** Line 134: a shape covers as many cells as it has `#` marks, between
      none and all nine. */
  function ShapeArea(s: Shape): (a: nat)
    ensures a <= 9
    ensures a == |TrueAt(s.cells)|
  {
    CountTrueCells(s.cells);
    CountTrue(s.cells)
  }

  /** Lines 131-135: the area of every shape, by position: the number of
      its `#` cells. */
  function Areas(shapes: seq<Shape>): (r: seq<nat>)
    ensures |r| == |shapes|
    ensures forall n | 0 <= n < |r| :: r[n] == ShapeArea(shapes[n]) && r[n] <= 9
    ensures forall n | 0 <= n < |r| :: r[n] == |TrueAt(shapes[n].cells)| && r[n] <= 9
  {
    seq(|shapes|, n requires 0 <= n < |shapes| => ShapeArea(shapes[n]))
  }

  /** The sum of `areas[n] * quantities[n]` over the positions of
      `quantities`, which must all have an area. */
  function Needed(areas: seq<nat>, quantities: seq<nat>): nat
    requires |quantities| <= |areas|
  {
    if quantities == [] then 0
    else Needed(areas, quantities[..|quantities| - 1]) + areas[|quantities| - 1] * quantities[|quantities| - 1]
  }

  function Sum(xs: seq<nat>): nat
  {
    if xs == [] then 0 else Sum(xs[..|xs| - 1]) + xs[|xs| - 1]
  }

  /** Lines 139-147: the cells the region's presents cover. A quantity with
      no shape at its position panics on the index of line 144, which is
      `None`. */
  method RequiredArea(areas: seq<nat>, quantities: seq<nat>) returns (r: Option<nat>)
    ensures r.None? <==> |quantities| > |areas|
    ensures r.Some? ==> r.value == Needed(areas, quantities)
  {
    var total := 0;
    for n := 0 to |quantities|
      invariant n <= |areas| && total == Needed(areas, quantities[..n])
    {
      if n >= |areas| {
        return None;
      }
      assert quantities[..n + 1][..n] == quantities[..n];
      total := total + areas[n] * quantities[n];
    }
    assert quantities[..|quantities|] == quantities;
    return Some(total);
  }

  /** No shape covers more than nine cells, so the presents cover at most
      nine cells each. */
  lemma {:induction false} NeededBound(areas: seq<nat>, quantities: seq<nat>)
    requires |quantities| <= |areas|
    requires forall n | 0 <= n < |areas| :: areas[n] <= 9
    ensures Needed(areas, quantities) <= 9 * Sum(quantities)
    decreases |quantities|
  {
    if quantities != [] {
      var k := |quantities| - 1;
      NeededBound(areas, quantities[..k]);
      assert areas[k] * quantities[k] <= 9 * quantities[k];
    }
  }

  /** Lines 148-151: a region counts when its presents need no more cells
      than it has. */
  predicate Fits(areas: seq<nat>, region: Region)
    requires |region.quantities| <= |areas|
  {
    Needed(areas, region.quantities) <= region.width * region.length
  }

  /** A region that fits still fits once it is made wider or longer. */
  lemma FitsLarger(areas: seq<nat>, region: Region, width: nat, length: nat)
    requires |region.quantities| <= |areas| && Fits(areas, region)
    requires region.width <= width && region.length <= length
    ensures Fits(areas, Region(width, length, region.quantities))
  {
    assert region.width * region.length <= width * region.length <= width * length;
  }

  /** Every region can be measured: none lists a quantity without a shape. */
  predicate Measurable(areas: seq<nat>, regions: seq<Region>)
  {
    forall i | 0 <= i < |regions| :: |regions[i].quantities| <= |areas|
  }

  /** The positions of the regions that fit. */
  ghost function FitAt(areas: seq<nat>, regions: seq<Region>, k: nat): set<nat>
    requires Measurable(areas, regions)
  {
    set i: nat | i < k && i < |regions| && Fits(areas, regions[i])
  }

  /** One more region adds its position exactly when it fits. */
  lemma FitAtStep(areas: seq<nat>, regions: seq<Region>, k: nat)
    requires Measurable(areas, regions) && k < |regions|
    ensures |FitAt(areas, regions, k + 1)| == |FitAt(areas, regions, k)| + if Fits(areas, regions[k]) then 1 else 0
  {
    if Fits(areas, regions[k]) {
      assert FitAt(areas, regions, k + 1) == FitAt(areas, regions, k) + {k};
    } else {
      assert FitAt(areas, regions, k + 1) == FitAt(areas, regions, k);
    }
  }

  /** Lines 131-154: the number of regions that fit, or `None` when some
      region lists a quantity with no shape (the panic of line 144). */
  method Answer(shapes: seq<Shape>, regions: seq<Region>) returns (r: Option<nat>)
    ensures r.None? <==> !Measurable(Areas(shapes), regions)
    ensures r.Some? ==> r.value == |FitAt(Areas(shapes), regions, |regions|)| && r.value <= |regions|
  {
    var areas := Areas(shapes);
    var count := 0;
    for k := 0 to |regions|
      invariant forall i | 0 <= i < k :: |regions[i].quantities| <= |areas|
      invariant Measurable(areas, regions) ==> count == |FitAt(areas, regions, k)|
      invariant count <= k
    {
      var region := regions[k];
      var needed := RequiredArea(areas, region.quantities);
      if needed.None? {
        return None;
      }
      if Measurable(areas, regions) {
        FitAtStep(areas, regions, k);
      }
      if needed.value <= region.width * region.length {
        count := count + 1;
      }
    }
    return Some(count);
  }
}
