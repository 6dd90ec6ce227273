/** Fresh ingredients, second reading: the answer is how many IDs the ranges
    hold together. Overlapping ranges are trimmed one at a time until no two
    share an ID, then their widths are added up. */
module Day5P2 {
  import opened Wrappers
  import opened Ranges

  /** The IDs from `lo` to `hi`, both included. */
  ghost function Interval(lo: nat, hi: int): set<nat>
    decreases hi - lo
  {
    if hi < lo then {} else Interval(lo, hi - 1) + {hi as nat}
  }

  lemma {:induction false} InInterval(lo: nat, hi: int, x: nat)
    ensures x in Interval(lo, hi) <==> lo <= x <= hi
    decreases hi - lo
  {
    if hi >= lo {
      InInterval(lo, hi - 1, x);
    }
  }

  lemma {:induction false} IntervalSize(lo: nat, hi: int)
    ensures |Interval(lo, hi)| == if hi >= lo then hi - lo + 1 else 0
    decreases hi - lo
  {
    if hi >= lo {
      IntervalSize(lo, hi - 1);
      InInterval(lo, hi - 1, hi as nat);
    }
  }

  /** The IDs a range holds. */
  ghost function Members(r: Range): set<nat>
  {
    Interval(r.start, r.end)
  }

  /** Lines 142-143: how many IDs a range holds, nothing when it is empty. */
  function Width(r: Range): nat
  {
    if r.end >= r.start then r.end - r.start + 1 else 0
  }

  /** The IDs some range of the list holds. */
  ghost function Covered(ranges: seq<Range>): set<nat>
    decreases |ranges|
  {
    if ranges == [] then {}
    else Covered(ranges[..|ranges| - 1]) + Members(ranges[|ranges| - 1])
  }

  /** The covered IDs are exactly those `in_range` accepts. */
  lemma {:induction false} CoveredIsInRange(ranges: seq<Range>, x: nat)
    ensures x in Covered(ranges) <==> InRange(ranges, x)
    decreases |ranges|
  {
    if ranges != [] {
      var front := ranges[..|ranges| - 1];
      CoveredIsInRange(front, x);
      InInterval(ranges[|ranges| - 1].start, ranges[|ranges| - 1].end, x);
      assert forall i | 0 <= i < |front| :: front[i] == ranges[i];
    }
  }

  /** Lines 140-145: the widths of the ranges, added up. */
  function Count(ranges: seq<Range>): nat
    decreases |ranges|
  {
    if ranges == [] then 0
    else Count(ranges[..|ranges| - 1]) + Width(ranges[|ranges| - 1])
  }

  /** Replacing one range changes the count by the change in its width. */
  lemma {:induction false} CountUpdate(ranges: seq<Range>, i: nat, r: Range)
    requires i < |ranges|
    ensures Count(ranges[i := r]) + Width(ranges[i]) == Count(ranges) + Width(r)
    decreases |ranges|
  {
    var last := |ranges| - 1;
    if i == last {
      assert ranges[i := r][..last] == ranges[..last];
    } else {
      CountUpdate(ranges[..last], i, r);
      assert ranges[i := r][..last] == ranges[..last][i := r];
    }
  }

  /** No ID lies in two ranges (empty ranges hold none). */
  predicate Apart(r: Range, s: Range)
  {
    r.start > r.end || s.start > s.end || r.end < s.start || s.end < r.start
  }

  predicate Disjoint(ranges: seq<Range>)
  {
    forall i, j | 0 <= i < j < |ranges| :: Apart(ranges[i], ranges[j])
  }

  /** Over ranges sharing no ID the count is the number of IDs covered. */
  lemma {:induction false} CountDisjoint(ranges: seq<Range>)
    requires Disjoint(ranges)
    ensures Count(ranges) == |Covered(ranges)|
    decreases |ranges|
  {
    if ranges != [] {
      var last := |ranges| - 1;
      var front := ranges[..last];
      assert forall i | 0 <= i < |front| :: front[i] == ranges[i];
      CountDisjoint(front);
      IntervalSize(ranges[last].start, ranges[last].end);
      forall x | x in Covered(front)
        ensures x !in Members(ranges[last])
      {
        LastApart(ranges, x);
      }
      assert Covered(front) * Members(ranges[last]) == {};
    }
  }

  /** Over ranges sharing no ID, the last range holds none of the others' IDs. */
  lemma LastApart(ranges: seq<Range>, x: nat)
    requires Disjoint(ranges) && ranges != [] && x in Covered(ranges[..|ranges| - 1])
    ensures x !in Members(ranges[|ranges| - 1])
  {
    var last := |ranges| - 1;
    var front := ranges[..last];
    CoveredIsInRange(front, x);
    var i :| 0 <= i < |front| && front[i].start <= x <= front[i].end;
    assert front[i] == ranges[i];
    assert Apart(ranges[i], ranges[last]);
    InInterval(ranges[last].start, ranges[last].end, x);
  }

  /** Line 56: `x` lies in `r` past its start. */
  predicate StartInside(r: Range, x: nat)
  {
    r.start < x <= r.end
  }

  /** Line 66: `x` lies in `r` before its end. */
  predicate EndInside(r: Range, x: nat)
  {
    r.start <= x < r.end
  }

  /** Lines 53-61 from position `k` on. */
  function StartTrimFrom(x: nat, ranges: seq<Range>, k: nat): (r: Option<nat>)
    requires k <= |ranges|
    ensures r.None? <==> forall i | k <= i < |ranges| :: !StartInside(ranges[i], x)
    ensures r.Some? ==> exists i | k <= i < |ranges| ::
      StartInside(ranges[i], x) && r.value == ranges[i].end + 1 &&
      forall j | k <= j < i :: !StartInside(ranges[j], x)
    decreases |ranges| - k
  {
    if k == |ranges| then None
    else if StartInside(ranges[k], x) then Some(ranges[k].end + 1)
    else StartTrimFrom(x, ranges, k + 1)
  }

  /** Lines 53-61: one past the end of the first range holding `x` past its
      start, if any. */
  function StartTrim(x: nat, ranges: seq<Range>): (r: Option<nat>)
    ensures r.None? <==> forall i | 0 <= i < |ranges| :: !StartInside(ranges[i], x)
    ensures r.Some? ==> exists i | 0 <= i < |ranges| ::
      StartInside(ranges[i], x) && r.value == ranges[i].end + 1 &&
      forall j | 0 <= j < i :: !StartInside(ranges[j], x)
  {
    StartTrimFrom(x, ranges, 0)
  }

  /** Lines 63-71 from position `k` on; the outer `None` is the unsigned
      underflow of `start - 1` at line 67, which panics. */
  function EndTrimFrom(x: nat, ranges: seq<Range>, k: nat): (r: Option<Option<nat>>)
    requires k <= |ranges|
    ensures r == Some(None) <==> forall i | k <= i < |ranges| :: !EndInside(ranges[i], x)
    ensures r != Some(None) ==> exists i | k <= i < |ranges| ::
      EndInside(ranges[i], x) && (forall j | k <= j < i :: !EndInside(ranges[j], x)) &&
      if ranges[i].start == 0 then r.None? else r == Some(Some(ranges[i].start - 1))
    decreases |ranges| - k
  {
    if k == |ranges| then Some(None)
    else if EndInside(ranges[k], x) then
      if ranges[k].start == 0 then None else Some(Some(ranges[k].start - 1))
    else EndTrimFrom(x, ranges, k + 1)
  }

  /** Lines 63-71: one before the start of the first range holding `x` before
      its end, if any; `None` when that start is 0 and the subtraction panics. */
  function EndTrim(x: nat, ranges: seq<Range>): (r: Option<Option<nat>>)
    ensures r == Some(None) <==> forall i | 0 <= i < |ranges| :: !EndInside(ranges[i], x)
    ensures r != Some(None) ==> exists i | 0 <= i < |ranges| ::
      EndInside(ranges[i], x) && (forall j | 0 <= j < i :: !EndInside(ranges[j], x)) &&
      if ranges[i].start == 0 then r.None? else r == Some(Some(ranges[i].start - 1))
  {
    EndTrimFrom(x, ranges, 0)
  }

  /** Lines 74-83 from position `k` on, `found` recording an earlier match. */
  function OverlapFrom(x: nat, y: nat, ranges: seq<Range>, k: nat, found: bool): (b: bool)
    requires k <= |ranges|
    ensures b <==> (if found then 1 else 0) + multiset(ranges[k..])[Range(x, y)] >= 2
    decreases |ranges| - k
  {
    if k == |ranges| then false
    else
      assert ranges[k..] == [ranges[k]] + ranges[k + 1..];
      if ranges[k] == Range(x, y) then
        if found then true else OverlapFrom(x, y, ranges, k + 1, true)
      else OverlapFrom(x, y, ranges, k + 1, found)
  }

  /** Lines 73-84: the range `x-y` occurs at least twice in the list. */
  function FullOverlap(x: nat, y: nat, ranges: seq<Range>): (b: bool)
    ensures b <==> multiset(ranges)[Range(x, y)] >= 2
  {
    assert ranges[0..] == ranges;
    OverlapFrom(x, y, ranges, 0, false)
  }

  /** A value occurring twice occurs at some other position too. */
  lemma TwiceElsewhere(ranges: seq<Range>, i: nat)
    requires i < |ranges| && multiset(ranges)[ranges[i]] >= 2
    ensures exists j | 0 <= j < |ranges| :: j != i && ranges[j] == ranges[i]
  {
    var v := ranges[i];
    assert ranges == ranges[..i] + [v] + ranges[i + 1..];
    assert multiset(ranges) == multiset(ranges[..i]) + multiset{v} + multiset(ranges[i + 1..]);
    if v in ranges[..i] {
      var j :| 0 <= j < i && ranges[..i][j] == v;
      assert ranges[j] == v;
    } else {
      assert v in multiset(ranges[i + 1..]);
      var j :| 0 <= j < |ranges| - i - 1 && ranges[i + 1..][j] == v;
      assert ranges[i + 1 + j] == v;
    }
  }

  /** A value at two positions occurs twice. */
  lemma TwoPositions(ranges: seq<Range>, i: nat, j: nat)
    requires i < j < |ranges| && ranges[i] == ranges[j]
    ensures multiset(ranges)[ranges[i]] >= 2
  {
    var v := ranges[i];
    assert ranges == ranges[..j] + [v] + ranges[j + 1..];
    assert ranges[..j][i] == v;
    assert multiset(ranges) == multiset(ranges[..j]) + multiset{v} + multiset(ranges[j + 1..]);
  }

  /** Lines 98-131 for one range `r`, against the list `tmp` as the pass
      began: `Some(None)` leaves it as it is, `Some(Some(n))` trims it to `n`,
      `None` is the panic of `end_range_trim`. */
  function Adjust(r: Range, tmp: seq<Range>): (a: Option<Option<Range>>)
    ensures a.None? ==> exists j | 0 <= j < |tmp| :: tmp[j].start == 0
    ensures a.Some? && a.value.Some? ==>
      r.start <= r.end && r.start <= a.value.value.start && a.value.value.end <= r.end &&
      Width(a.value.value) < Width(r)
    ensures a == Some(None) && r.start <= r.end ==>
      (forall j | 0 <= j < |tmp| :: !StartInside(tmp[j], r.start) && !EndInside(tmp[j], r.end)) &&
      multiset(tmp)[r] < 2
  {
    if r.start > r.end then Some(None)
    else
      match StartTrim(r.start, tmp)
      case Some(s) => Some(Some(Range(s, r.end)))
      case None =>
        match EndTrim(r.end, tmp)
        case None => None
        case Some(Some(e)) => Some(Some(Range(r.start, e)))
        case Some(None) =>
          if FullOverlap(r.start, r.end, tmp) then Some(Some(Range(r.end + 1, r.end)))
          else Some(None)
  }

  /** An ID a trim takes from the range at `i` is still held by a different
      range: a range is never trimmed against itself or an empty range. */
  lemma TrimmedIsElsewhere(tmp: seq<Range>, i: nat, n: Range, x: nat)
    requires i < |tmp| && Adjust(tmp[i], tmp) == Some(Some(n))
    requires tmp[i].start <= x <= tmp[i].end && !(n.start <= x <= n.end)
    ensures exists k | 0 <= k < |tmp| :: k != i && tmp[k].start <= x <= tmp[k].end
  {
    var r := tmp[i];
    if StartTrim(r.start, tmp).Some? {
      var k :| 0 <= k < |tmp| && StartInside(tmp[k], r.start) && StartTrim(r.start, tmp).value == tmp[k].end + 1;
      assert k != i && tmp[k].start <= x <= tmp[k].end;
    } else if EndTrim(r.end, tmp).Some? && EndTrim(r.end, tmp).value.Some? {
      var k :| 0 <= k < |tmp| && EndInside(tmp[k], r.end) && tmp[k].start != 0 &&
        EndTrim(r.end, tmp) == Some(Some(tmp[k].start - 1));
      assert k != i && tmp[k].start <= x <= tmp[k].end;
    } else {
      TwiceElsewhere(tmp, i);
    }
  }

  /** A trim keeps what `in_range` accepts. */
  lemma TrimKeepsInRange(tmp: seq<Range>, i: nat, n: Range, x: nat)
    requires i < |tmp| && Adjust(tmp[i], tmp) == Some(Some(n))
    ensures InRange(tmp[i := n], x) <==> InRange(tmp, x)
  {
    var next := tmp[i := n];
    if InRange(tmp, x) {
      var k :| 0 <= k < |tmp| && tmp[k].start <= x <= tmp[k].end;
      if k == i && !(n.start <= x <= n.end) {
        TrimmedIsElsewhere(tmp, i, n, x);
        var k' :| 0 <= k' < |tmp| && k' != i && tmp[k'].start <= x <= tmp[k'].end;
        assert next[k'] == tmp[k'];
      } else {
        assert next[k].start <= x <= next[k].end;
      }
    }
    if InRange(next, x) {
      var k :| 0 <= k < |next| && next[k].start <= x <= next[k].end;
      assert tmp[k].start <= x <= tmp[k].end;
    }
  }

  /** A trim keeps the set of IDs covered. */
  lemma TrimKeepsCovered(tmp: seq<Range>, i: nat, n: Range)
    requires i < |tmp| && Adjust(tmp[i], tmp) == Some(Some(n))
    ensures Covered(tmp[i := n]) == Covered(tmp)
  {
    forall x: nat
      ensures x in Covered(tmp[i := n]) <==> x in Covered(tmp)
    {
      CoveredIsInRange(tmp[i := n], x);
      CoveredIsInRange(tmp, x);
      TrimKeepsInRange(tmp, i, n, x);
    }
  }

  /** The scan of lines 97-132 from position `k`: the first range that
      changes, `None` inside when none does, or the panic met on the way. */
  function ScanFrom(tmp: seq<Range>, k: nat): (s: Option<Option<nat>>)
    requires k <= |tmp|
    ensures s == Some(None) ==> forall i | k <= i < |tmp| :: Adjust(tmp[i], tmp) == Some(None)
    ensures s.Some? && s.value.Some? ==>
      k <= s.value.value < |tmp| && Adjust(tmp[s.value.value], tmp).Some? &&
      Adjust(tmp[s.value.value], tmp).value.Some?
    ensures s.Some? && s.value.Some? ==> forall j | k <= j < s.value.value :: Adjust(tmp[j], tmp) == Some(None)
    ensures s.None? ==> exists j | 0 <= j < |tmp| :: tmp[j].start == 0
    decreases |tmp| - k
  {
    if k == |tmp| then Some(None)
    else
      var a := Adjust(tmp[k], tmp);
      if a.None? then None
      else if a.value.Some? then Some(Some(k))
      else
        ScanFrom(tmp, k + 1)
  }

  /** Lines 95-132: one pass. `Some(None)` when no range changes
      (`found_overlap` stays false); otherwise the list with its first
      changing range trimmed; `None` on a panic. */
  function Pass(ranges: seq<Range>): (p: Option<Option<seq<Range>>>)
    ensures p.None? ==> exists j | 0 <= j < |ranges| :: ranges[j].start == 0
    ensures p.Some? && p.value.Some? ==> |p.value.value| == |ranges|
  {
    var found :- ScanFrom(ranges, 0);
    if found.None? then Some(None)
    else
      var i := found.value;
      Some(Some(ranges[i := Adjust(ranges[i], ranges).value.value]))
  }

  /** A pass that changes a range keeps the covered IDs, lowers the count and
      never lowers a start. */
  lemma PassShrinks(ranges: seq<Range>)
    requires Pass(ranges).Some? && Pass(ranges).value.Some?
    ensures Covered(Pass(ranges).value.value) == Covered(ranges)
    ensures Count(Pass(ranges).value.value) < Count(ranges)
    ensures forall i | 0 <= i < |ranges| :: ranges[i].start <= Pass(ranges).value.value[i].start
  {
    var i := ScanFrom(ranges, 0).value.value;
    var n := Adjust(ranges[i], ranges).value.value;
    TrimKeepsCovered(ranges, i, n);
    CountUpdate(ranges, i, n);
  }

  /** Two ranges no trim applies to share no ID. */
  lemma PairApart(ranges: seq<Range>, i: nat, j: nat)
    requires i < j < |ranges|
    requires Adjust(ranges[i], ranges) == Some(None) && Adjust(ranges[j], ranges) == Some(None)
    ensures Apart(ranges[i], ranges[j])
  {
    var a, b := ranges[i], ranges[j];
    if a.start <= a.end && b.start <= b.end && a.start <= b.end && b.start <= a.end {
      if a.start < b.start {
        assert StartInside(a, b.start);
      } else if b.start < a.start {
        assert StartInside(b, a.start);
      } else if a.end < b.end {
        assert EndInside(b, a.end);
      } else if b.end < a.end {
        assert EndInside(a, b.end);
      } else {
        TwoPositions(ranges, i, j);
      }
    }
  }

  /** When a pass changes nothing, no two ranges share an ID. */
  lemma SettledIsDisjoint(ranges: seq<Range>)
    requires Pass(ranges) == Some(None)
    ensures Disjoint(ranges)
  {
    assert ScanFrom(ranges, 0) == Some(None);
    forall i, j | 0 <= i < j < |ranges|
      ensures Apart(ranges[i], ranges[j])
    {
      PairApart(ranges, i, j);
    }
  }

  /** Lines 86-147: trim until a pass changes nothing, then count. The answer
      is the number of IDs the ranges hold together; a panic needs a range
      starting at 0. */
  method Answer(ranges: seq<Range>) returns (r: Option<nat>)
    ensures r.Some? ==> r.value == |Covered(ranges)|
    ensures r.None? ==> exists j | 0 <= j < |ranges| :: ranges[j].start == 0
  {
    var cur := ranges;
    while true
      invariant |cur| == |ranges| && Covered(cur) == Covered(ranges)
      invariant forall i | 0 <= i < |cur| :: ranges[i].start <= cur[i].start
      decreases Count(cur)
    {
      var pass := Pass(cur);
      if pass.None? {
        var j :| 0 <= j < |cur| && cur[j].start == 0;
        assert ranges[j].start == 0;
        return None;
      }
      if pass.value.None? {
        break;
      }
      PassShrinks(cur);
      cur := pass.value.value;
    }
    SettledIsDisjoint(cur);
    CountDisjoint(cur);
    return Some(Count(cur));
  }
}
