/** Fresh ingredients: an ingredient ID is fresh when some inclusive range of
    the database holds it; the answer counts the fresh IDs in the list. */
module Day5P1 {
  import opened Ranges

  /** Membership asks only whether some range holds the ID, so reordering or
      repeating the ranges does not change it. */
  lemma InRangeOrderFree(a: seq<Range>, b: seq<Range>, x: nat)
    requires forall r :: r in a <==> r in b
    ensures InRange(a, x) == InRange(b, x)
  {
    if InRange(a, x) {
      var i :| 0 <= i < |a| && a[i].start <= x <= a[i].end;
      assert a[i] in b;
      var j :| 0 <= j < |b| && b[j] == a[i];
    }
    if InRange(b, x) {
      var i :| 0 <= i < |b| && b[i].start <= x <= b[i].end;
      assert b[i] in a;
      var j :| 0 <= j < |a| && a[j] == b[i];
    }
  }

  /** A range whose start lies past its end holds nothing, so adding it
      changes no answer. */
  lemma EmptyRangeInert(ranges: seq<Range>, r: Range, x: nat)
    requires r.start > r.end
    ensures InRange(ranges + [r], x) == InRange(ranges, x)
  {
    if InRange(ranges + [r], x) {
      var i :| 0 <= i < |ranges + [r]| && (ranges + [r])[i].start <= x <= (ranges + [r])[i].end;
      assert i < |ranges| && (ranges + [r])[i] == ranges[i];
    }
    if InRange(ranges, x) {
      var i :| 0 <= i < |ranges| && ranges[i].start <= x <= ranges[i].end;
      assert (ranges + [r])[i] == ranges[i];
    }
  }

  /** The positions of the list holding fresh IDs. */
  ghost function FreshAt(ranges: seq<Range>, ingredients: seq<nat>, n: nat): set<int>
  {
    set i | 0 <= i < n && i < |ingredients| && InRange(ranges, ingredients[i])
  }

  /** One more ingredient adds its position exactly when it is fresh. */
  lemma FreshAtStep(ranges: seq<Range>, ingredients: seq<nat>, n: nat)
    requires n < |ingredients|
    ensures |FreshAt(ranges, ingredients, n + 1)| == |FreshAt(ranges, ingredients, n)| + if InRange(ranges, ingredients[n]) then 1 else 0
  {
    if InRange(ranges, ingredients[n]) {
      assert FreshAt(ranges, ingredients, n + 1) == FreshAt(ranges, ingredients, n) + {n};
    } else {
      assert FreshAt(ranges, ingredients, n + 1) == FreshAt(ranges, ingredients, n);
    }
  }

  /** Lines 62-68: the number of listed ingredients (counted with repeats)
      that some range holds. */
  method Answer(ranges: seq<Range>, ingredients: seq<nat>) returns (count: nat)
    ensures count == |FreshAt(ranges, ingredients, |ingredients|)|
    ensures count <= |ingredients|
  {
    count := 0;
    for k := 0 to |ingredients|
      invariant count == |FreshAt(ranges, ingredients, k)| && count <= k
    {
      FreshAtStep(ranges, ingredients, k);
      if InRange(ranges, ingredients[k]) {
        count := count + 1;
      }
    }
  }
}
