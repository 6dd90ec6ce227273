/** The worksheet read column by column, left to right: each character
    column holds one number, its digits read top to bottom; problems are
    separated by columns blank in every row, and each problem adds up or
    multiplies out its column numbers. */
module Day6P2 {
  import opened Wrappers
  import opened Decimal
  import opened Day6P1

  /** Lines 94-98: a digit character or a blank. */
  datatype Cell = Blank | Digit(d: nat)

  /** Rows of cells, top row first. */
  type Sheet = seq<seq<Cell>>

  /** The cell at `(col, row)`; positions past a row's end read as blank. */
  function CellAt(sheet: Sheet, row: nat, col: nat): Cell
    requires row < |sheet|
  {
    if col < |sheet[row]| then sheet[row][col] else Blank
  }

  /** Line 67: column `col` is blank in every row. */
  predicate BlankColumn(sheet: Sheet, col: nat)
  {
    forall row | 0 <= row < |sheet| :: CellAt(sheet, row, col) == Blank
  }

  predicate Increasing(xs: seq<nat>)
  {
    forall i, j | 0 <= i < j < |xs| :: xs[i] < xs[j]
  }

  /** Lines 60-72: the blank columns below `cols`, in increasing order. */
  function FindBreaks(sheet: Sheet, cols: nat): (b: seq<nat>)
    ensures Increasing(b)
    ensures forall i | 0 <= i < |b| :: b[i] < cols
    ensures forall c: nat :: c in b <==> c < cols && BlankColumn(sheet, c)
    decreases cols
  {
    if cols == 0 then []
    else FindBreaks(sheet, cols - 1) + if BlankColumn(sheet, cols - 1) then [cols - 1] else []
  }

  /** Lines 109-117: the fold over the breaks from `start`, each break closing
      a half-open segment, and a last segment ending at `cols`. */
  function Segments(start: nat, breaks: seq<nat>, cols: nat): (r: seq<(nat, nat)>)
    ensures |r| == |breaks| + 1
    ensures r[0].0 == start && r[|breaks|].1 == cols
    ensures forall i | 0 <= i < |breaks| :: r[i].1 == breaks[i] && r[i + 1].0 == breaks[i] + 1
    decreases |breaks|
  {
    if breaks == [] then [(start, cols)]
    else [(start, breaks[0])] + Segments(breaks[0] + 1, breaks[1..], cols)
  }

  /** The breaks the way `find_breaks` returns them for `cols` columns. */
  predicate GoodBreaks(breaks: seq<nat>, cols: nat)
  {
    Increasing(breaks) && forall i | 0 <= i < |breaks| :: breaks[i] < cols
  }

  /** Each segment starts no later than it ends, inside `0 .. cols`. */
  lemma SegmentsInside(breaks: seq<nat>, cols: nat, i: nat)
    requires GoodBreaks(breaks, cols) && i <= |breaks|
    ensures Segments(0, breaks, cols)[i].0 <= Segments(0, breaks, cols)[i].1 <= cols
  {
    var r := Segments(0, breaks, cols);
    if i < |breaks| {
      assert r[i].1 == breaks[i] < cols;
      if i > 0 {
        assert r[i].0 == breaks[i - 1] + 1;
        assert breaks[i - 1] < breaks[i];
      }
    } else if i > 0 {
      assert r[i].0 == breaks[i - 1] + 1;
    }
  }

  /** A later segment starts past the end of an earlier one (and past the
      break between them). */
  lemma SegmentsOrdered(breaks: seq<nat>, cols: nat, i: nat, j: nat)
    requires GoodBreaks(breaks, cols) && i < j <= |breaks|
    ensures Segments(0, breaks, cols)[i].1 < Segments(0, breaks, cols)[j].0
  {
    var r := Segments(0, breaks, cols);
    assert r[i].1 == breaks[i];
    assert r[j].0 == breaks[j - 1] + 1;
    if i < j - 1 {
      assert breaks[i] < breaks[j - 1];
    }
  }

  /** The first break above `c`, or the number of breaks when there is none. */
  function FirstAbove(breaks: seq<nat>, c: nat, k: nat): (i: nat)
    requires k <= |breaks|
    ensures k <= i <= |breaks|
    ensures i < |breaks| ==> c < breaks[i]
    ensures forall j | k <= j < i :: breaks[j] <= c
    decreases |breaks| - k
  {
    if k == |breaks| || c < breaks[k] then k else FirstAbove(breaks, c, k + 1)
  }

  /** `c` lies in segment `i`. */
  predicate InSegment(segs: seq<(nat, nat)>, i: nat, c: nat)
    requires i < |segs|
  {
    segs[i].0 <= c < segs[i].1
  }

  /** Every column below `cols` that is not a break lies in a segment. */
  lemma NonBreakCovered(breaks: seq<nat>, cols: nat, c: nat)
    requires GoodBreaks(breaks, cols) && c < cols && c !in breaks
    ensures exists i | 0 <= i <= |breaks| :: InSegment(Segments(0, breaks, cols), i, c)
  {
    var r := Segments(0, breaks, cols);
    var i := FirstAbove(breaks, c, 0);
    if i > 0 {
      assert breaks[i - 1] <= c;
      assert breaks[i - 1] != c;
    }
    if i < |breaks| {
      assert r[i].1 == breaks[i];
    }
    assert InSegment(r, i, c);
  }

  /** No column lies in two segments. */
  lemma SegmentsDisjoint(breaks: seq<nat>, cols: nat, c: nat, i: nat, j: nat)
    requires GoodBreaks(breaks, cols) && i < j <= |breaks|
    ensures !(InSegment(Segments(0, breaks, cols), i, c) && InSegment(Segments(0, breaks, cols), j, c))
  {
    SegmentsOrdered(breaks, cols, i, j);
  }

  /** A break lies in no segment. */
  lemma BreakUncovered(breaks: seq<nat>, cols: nat, k: nat, i: nat)
    requires GoodBreaks(breaks, cols) && k < |breaks| && i <= |breaks|
    ensures !InSegment(Segments(0, breaks, cols), i, breaks[k])
  {
    var r := Segments(0, breaks, cols);
    if i <= k {
      assert r[i].1 <= breaks[k] by {
        if i < k {
          assert breaks[i] < breaks[k];
        }
      }
    } else {
      assert r[i].0 > breaks[k] by {
        if i - 1 > k {
          assert breaks[k] < breaks[i - 1];
        }
      }
    }
  }

  /** Lines 126-130 for the first `rows` rows: the digits of column `col`,
      top to bottom, blanks skipped. */
  function ColumnDigits(sheet: Sheet, col: nat, rows: nat): (ds: seq<nat>)
    requires rows <= |sheet|
    ensures ds == [] <==> forall row | 0 <= row < rows :: CellAt(sheet, row, col) == Blank
    decreases rows
  {
    if rows == 0 then []
    else
      ColumnDigits(sheet, col, rows - 1) +
      match CellAt(sheet, rows - 1, col)
      case Blank => []
      case Digit(d) => [d]
  }

  /** Line 131: the column's digits parsed; `None` is the panic of `unwrap` on
      an empty string, which happens exactly on a blank column. */
  function ColumnNumber(sheet: Sheet, col: nat): (r: Option<nat>)
    ensures r.None? <==> BlankColumn(sheet, col)
    ensures r.Some? ==> r.value == Value(ColumnDigits(sheet, col, |sheet|))
  {
    var ds := ColumnDigits(sheet, col, |sheet|);
    if ds == [] then None else Some(Value(ds))
  }

  /** The numbers of the columns `lo .. hi - 1`, left to right. */
  function SegmentNumbers(sheet: Sheet, lo: nat, hi: nat): seq<nat>
    decreases hi
  {
    if hi <= lo then []
    else SegmentNumbers(sheet, lo, hi - 1) + [Value(ColumnDigits(sheet, hi - 1, |sheet|))]
  }

  /** The reference answer over the first `n` segments: each segment's
      numbers added up or multiplied out by its operator, and summed. */
  ghost function Total(sheet: Sheet, ops: seq<Op>, segs: seq<(nat, nat)>, n: nat): nat
    requires n <= |segs| && n <= |ops|
    decreases n
  {
    if n == 0 then 0
    else
      var ns := SegmentNumbers(sheet, segs[n - 1].0, segs[n - 1].1);
      Total(sheet, ops, segs, n - 1) + if ops[n - 1] == Add then Sum(ns) else Product(ns)
  }

  /** The checks of lines 78-88, 106 and 118: rows of one length, at least one
      row, and one operator per segment. */
  predicate WellShaped(sheet: Sheet, ops: seq<Op>)
  {
    sheet != [] && Rectangular(sheet) && 1 <= |ops| &&
    |FindBreaks(sheet, |sheet[0]|)| == |ops| - 1
  }

  /** No column inside a segment is blank, so every column number parses. */
  lemma SegmentNotBlank(sheet: Sheet, cols: nat, i: nat, c: nat)
    requires i <= |FindBreaks(sheet, cols)|
    requires InSegment(Segments(0, FindBreaks(sheet, cols), cols), i, c)
    ensures !BlankColumn(sheet, c)
  {
    var breaks := FindBreaks(sheet, cols);
    SegmentsInside(breaks, cols, i);
    if BlankColumn(sheet, c) {
      assert c in breaks;
      var k :| 0 <= k < |breaks| && breaks[k] == c;
      BreakUncovered(breaks, cols, k, i);
      assert false;
    }
  }

  lemma SegmentNumbersStep(sheet: Sheet, lo: nat, col: nat, ns: seq<nat>, n: Option<nat>)
    requires lo <= col && ns == SegmentNumbers(sheet, lo, col) && n == ColumnNumber(sheet, col) && n.Some?
    ensures ns + [n.value] == SegmentNumbers(sheet, lo, col + 1)
  {
  }

  /** Lines 123-134 for one segment: the column numbers, left to right. */
  method ReadSegment(sheet: Sheet, lo: nat, hi: nat) returns (colNums: seq<nat>)
    requires forall c | lo <= c < hi :: ColumnNumber(sheet, c).Some?
    ensures colNums == SegmentNumbers(sheet, lo, hi)
  {
    colNums := [];
    if hi <= lo {
      return;
    }
    var col := lo;
    while col < hi
      invariant lo <= col <= hi
      invariant colNums == SegmentNumbers(sheet, lo, col)
    {
      var n := ColumnNumber(sheet, col);
      SegmentNumbersStep(sheet, lo, col, colNums, n);
      colNums := colNums + [n.value];
      col := col + 1;
    }
  }

  /** Lines 74-147: the shape checks (any failing one panics), the breaks and
      segments, then every segment's fold summed. */
  method Answer(sheet: Sheet, ops: seq<Op>) returns (r: Option<nat>)
    ensures r.None? <==> !WellShaped(sheet, ops)
    ensures r.Some? ==>
      r.value == Total(sheet, ops, Segments(0, FindBreaks(sheet, |sheet[0]|), |sheet[0]|), |ops|)
  {
    if !LengthsAgree(sheet, None) || sheet == [] {
      return None;
    }
    var cols := |sheet[0]|;
    var breaks := FindBreaks(sheet, cols);
    if |ops| == 0 || |breaks| != |ops| - 1 {
      return None;
    }
    var segs := Segments(0, breaks, cols);
    var count := 0;
    for i := 0 to |segs|
      invariant count == Total(sheet, ops, segs, i)
    {
      forall c | segs[i].0 <= c < segs[i].1
        ensures ColumnNumber(sheet, c).Some?
      {
        SegmentNotBlank(sheet, cols, i, c);
      }
      var colNums := ReadSegment(sheet, segs[i].0, segs[i].1);
      var val := Fold(ops[i], colNums);
      FoldIsSumOrProduct(ops[i], colNums);
      count := count + val;
    }
    return Some(count);
  }
}
