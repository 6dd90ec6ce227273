/** Gift-shop product IDs, second reading: an ID is invalid when its digits
    are some number written two or more times (`121212`); the answer sums the
    distinct invalid IDs inside the given ranges. */
module Day2P2 {
  import opened Wrappers
  import opened Decimal
  import opened Ranges
  import opened Day2P1

  /** Lines 61-64: the number of digits of the largest range end; the
      `unwrap` of line 62 panics when there are no ranges. */
  function MaxDigits(ranges: seq<Range>): (r: Option<nat>)
    ensures r.None? <==> ranges == []
    ensures r.Some? ==> forall i | 0 <= i < |ranges| :: NumDigits(ranges[i].end) <= r.value
    ensures r.Some? ==> exists i | 0 <= i < |ranges| :: NumDigits(ranges[i].end) == r.value
  {
    if ranges == [] then None
    else
      var m := MaxEnd(ranges);
      assert forall i | 0 <= i < |ranges| :: NumDigits(ranges[i].end) <= NumDigits(m) by {
        forall i | 0 <= i < |ranges| {
          NumDigitsMono(ranges[i].end, m);
        }
      }
      Some(NumDigits(m))
  }

  /** Lines 73-80: the digits of `val` printed `reps` times, read back; the
      parse of line 79 fails on the empty string, so `reps` is at least 1. */
  function Replicated(val: nat, reps: nat): nat
    requires reps >= 1
  {
    Value(Repeat(Digits(val), reps))
  }

  /** Two copies are the first reading's doubled ID. */
  lemma ReplicatedTwice(val: nat)
    ensures Replicated(val, 2) == Doubled(val)
  {
    assert Repeat(Digits(val), 2) == Digits(val) + Digits(val);
  }

  /** Each further copy shifts the earlier ones past its digits. */
  lemma ReplicatedStep(val: nat, reps: nat)
    requires reps >= 2
    ensures Replicated(val, reps) == Replicated(val, reps - 1) * Pow10(NumDigits(val)) + val
  {
    var ds := Digits(val);
    assert Repeat(ds, reps) == Repeat(ds, reps - 1) + ds;
    ValueAppend(Repeat(ds, reps - 1), ds);
    ValueOfDigits(val);
  }

  lemma MulMono(a: nat, b: nat, c: nat)
    requires a < b && c >= 1
    ensures a * c < b * c
  {
  }

  /** Among numbers of one width, more is more after any number of copies. */
  lemma {:induction false} SameWidthIncreasing(v: nat, w: nat, reps: nat)
    requires v < w && reps >= 1 && NumDigits(v) == NumDigits(w)
    ensures Replicated(v, reps) < Replicated(w, reps)
    decreases reps
  {
    if reps == 1 {
      assert Repeat(Digits(v), 1) == Digits(v);
      assert Repeat(Digits(w), 1) == Digits(w);
      ValueOfDigits(v);
      ValueOfDigits(w);
    } else {
      SameWidthIncreasing(v, w, reps - 1);
      ReplicatedStep(v, reps);
      ReplicatedStep(w, reps);
      MulMono(Replicated(v, reps - 1), Replicated(w, reps - 1), Pow10(NumDigits(v)));
    }
  }

  /** More copies of a wider number make more digits. */
  lemma WiderRepeat(v: nat, w: nat, reps: nat)
    requires NumDigits(v) < NumDigits(w) && reps >= 1
    ensures |Repeat(Digits(v), reps)| < |Repeat(Digits(w), reps)|
  {
    RepeatLength(Digits(v), reps);
    RepeatLength(Digits(w), reps);
    MulMono(NumDigits(v), NumDigits(w), reps);
  }

  /** For a fixed number of copies the iterator of lines 83-91 yields growing IDs. */
  lemma ReplicatedIncreasing(v: nat, w: nat, reps: nat)
    requires v < w && reps >= 1
    ensures Replicated(v, reps) < Replicated(w, reps)
  {
    NumDigitsMono(v, w);
    if NumDigits(v) == NumDigits(w) {
      SameWidthIncreasing(v, w, reps);
    } else {
      LeadingDigit(w);
      RepeatHead(Digits(w), reps);
      RepeatDigits(Digits(v), reps);
      WiderRepeat(v, w, reps);
      LongerIsLarger(Repeat(Digits(v), reps), Repeat(Digits(w), reps));
    }
  }

  /** An ID is never below the number it repeats. */
  lemma ReplicatedAtLeast(val: nat, reps: nat)
    requires reps >= 1
    ensures val <= Replicated(val, reps)
  {
    if reps == 1 {
      assert Repeat(Digits(val), 1) == Digits(val);
      ValueOfDigits(val);
    } else {
      ReplicatedStep(val, reps);
    }
  }

  /** The digits of a replicated ID are the copies themselves, so there are
      at least as many digits as copies. */
  lemma CopiesAtMostDigits(val: nat, reps: nat)
    requires val >= 1 && reps >= 1
    ensures reps <= NumDigits(Replicated(val, reps))
  {
    var r := Repeat(Digits(val), reps);
    LeadingDigit(val);
    RepeatHead(Digits(val), reps);
    RepeatDigits(Digits(val), reps);
    RepeatLength(Digits(val), reps);
    DigitsOfValue(r);
    MulAtLeast(reps, NumDigits(val));
  }

  lemma MulAtLeast(a: nat, b: nat)
    requires b >= 1
    ensures a <= a * b
  {
  }

  /** `x` is some positive number written `reps` times. */
  ghost predicate IsReplicate(x: nat, reps: nat)
    requires reps >= 1
  {
    exists v: nat | v >= 1 :: x == Replicated(v, reps)
  }

  /** Lines 99-113 for one number of copies: the in-range IDs the iterator
      yields from 1 on, up to the first one past every range. */
  method Collect(ranges: seq<Range>, reps: nat) returns (found: set<nat>)
    requires reps >= 1
    ensures forall x :: x in found <==> InRange(ranges, x) && IsReplicate(x, reps)
  {
    var val := 1;
    found := {};
    while !OutOfRange(ranges, Replicated(val, reps))
      invariant 1 <= val <= MaxEnd(ranges) + 1
      invariant forall x :: x in found <==>
        InRange(ranges, x) && exists v: nat | 1 <= v < val :: x == Replicated(v, reps)
      decreases MaxEnd(ranges) + 1 - val
    {
      ReplicatedAtLeast(val, reps);
      var item := Replicated(val, reps);
      if InRange(ranges, item) {
        found := found + {item};
      }
      val := val + 1;
    }
    forall x
      ensures x in found <==> InRange(ranges, x) && IsReplicate(x, reps)
    {
      CollectStops(ranges, reps, val, x);
    }
  }

  /** What the loop of `Collect` has gathered at its stop is everything. */
  lemma CollectStops(ranges: seq<Range>, reps: nat, val: nat, x: nat)
    requires reps >= 1 && val >= 1 && OutOfRange(ranges, Replicated(val, reps))
    ensures (InRange(ranges, x) && exists v: nat | 1 <= v < val :: x == Replicated(v, reps))
        <==> (InRange(ranges, x) && IsReplicate(x, reps))
  {
    if InRange(ranges, x) && IsReplicate(x, reps) {
      var v: nat :| v >= 1 && x == Replicated(v, reps);
      if v >= val {
        if v > val {
          ReplicatedIncreasing(val, v, reps);
        }
        assert false;
      }
    }
    if InRange(ranges, x) && exists v: nat | 1 <= v < val :: x == Replicated(v, reps) {
      var v: nat :| 1 <= v < val && x == Replicated(v, reps);
      ReplicatedAtLeast(v, reps);
    }
  }

  /** An in-range replicate has no more copies than the largest end has digits. */
  lemma CopiesBounded(ranges: seq<Range>, x: nat, reps: nat, digits: nat)
    requires MaxDigits(ranges) == Some(digits)
    requires reps >= 1 && InRange(ranges, x) && IsReplicate(x, reps)
    ensures reps <= digits
  {
    var v: nat :| v >= 1 && x == Replicated(v, reps);
    CopiesAtMostDigits(v, reps);
    var i :| 0 <= i < |ranges| && ranges[i].start <= x <= ranges[i].end;
    NumDigitsMono(x, ranges[i].end);
  }

  /** `x` is some positive number written two or more times. */
  ghost predicate IsRepeated(x: nat)
  {
    exists reps: nat | reps >= 2 :: IsReplicate(x, reps)
  }

  /** The reference answer's set: every repeated ID some range holds. */
  ghost predicate Invalid(ranges: seq<Range>, x: nat)
  {
    InRange(ranges, x) && IsRepeated(x)
  }

  /** The sum of a finite set of numbers, in no particular order. */
  ghost function SetSum(s: set<nat>): nat
    decreases |s|
  {
    if s == {} then 0 else var x :| x in s; x + SetSum(s - {x})
  }

  /** Any element can be taken first. */
  lemma {:induction false} SetSumRemove(s: set<nat>, x: nat)
    requires x in s
    ensures SetSum(s) == x + SetSum(s - {x})
    decreases |s|
  {
    var y :| y in s && SetSum(s) == y + SetSum(s - {y});
    if y != x {
      SetSumRemove(s - {y}, x);
      SetSumRemove(s - {x}, y);
      assert s - {y} - {x} == s - {x} - {y};
    }
  }

  /** Lines 93-122: the distinct invalid IDs for 2 up to `max_digits` copies,
      summed; no ranges make `max_digits` panic. */
  method Answer(ranges: seq<Range>) returns (r: Option<nat>)
    ensures r.None? <==> ranges == []
    ensures r.Some? ==> r.value == SetSum(set x | 0 <= x <= MaxEnd(ranges) && Invalid(ranges, x))
  {
    var digits :- MaxDigits(ranges);
    var total: set<nat> := {};
    var reps := 2;
    while reps <= digits
      invariant 2 <= reps
      invariant forall x :: x in total <==>
        InRange(ranges, x) && exists k: nat | 2 <= k < reps :: IsReplicate(x, k)
    {
      var found := Collect(ranges, reps);
      total := total + found;
      reps := reps + 1;
    }
    TotalIsInvalid(ranges, digits, reps, total);
    var sum := SumOf(total);
    return Some(sum);
  }

  /** After the last number of copies the union holds exactly the invalid IDs. */
  lemma TotalIsInvalid(ranges: seq<Range>, digits: nat, reps: nat, total: set<nat>)
    requires MaxDigits(ranges) == Some(digits) && 2 <= reps && reps > digits
    requires forall x :: x in total <==>
      InRange(ranges, x) && exists k: nat | 2 <= k < reps :: IsReplicate(x, k)
    ensures total == set x | 0 <= x <= MaxEnd(ranges) && Invalid(ranges, x)
  {
    forall x
      ensures x in total <==> 0 <= x <= MaxEnd(ranges) && Invalid(ranges, x)
    {
      if 0 <= x <= MaxEnd(ranges) && Invalid(ranges, x) {
        var k: nat :| k >= 2 && IsReplicate(x, k);
        CopiesBounded(ranges, x, k, digits);
      }
    }
  }

  /** Line 120: add up the elements of `s`. */
  method SumOf(s: set<nat>) returns (sum: nat)
    ensures sum == SetSum(s)
  {
    sum := 0;
    var rest := s;
    while rest != {}
      invariant sum + SetSum(rest) == SetSum(s)
      decreases |rest|
    {
      var x :| x in rest;
      SetSumRemove(rest, x);
      sum := sum + x;
      rest := rest - {x};
    }
  }
}
