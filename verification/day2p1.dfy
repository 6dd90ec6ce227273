/** Gift-shop product IDs: an ID is invalid when its digits are some number
    written twice (`6464`); the answer sums the invalid IDs inside the given
    ranges. */
module Day2P1 {
  import opened Decimal
  import opened Ranges

  /** Lines 67-73: the digits of `val` printed twice, read back as a number. */
  function Doubled(val: nat): nat
  {
    Value(Digits(val) + Digits(val))
  }

  /** Writing `val` twice shifts it past its own digits and adds it again. */
  lemma DoubledValue(val: nat)
    ensures Doubled(val) == val * (Pow10(NumDigits(val)) + 1)
  {
    var ds := Digits(val);
    var p := Pow10(|ds|);
    ValueAppend(ds, ds);
    ValueOfDigits(val);
    assert Doubled(val) == val * p + val;
    Distribute(val, p);
  }

  lemma Distribute(a: nat, b: nat)
    ensures a * b + a == a * (b + 1)
  {
  }

  /** The IDs the iterator of lines 76-84 yields grow strictly. */
  lemma DoubledIncreasing(v: nat, w: nat)
    requires v < w
    ensures Doubled(v) < Doubled(w)
  {
    DoubledValue(v);
    DoubledValue(w);
    NumDigitsMono(v, w);
    if NumDigits(v) == NumDigits(w) {
      MulLess(v, w, Pow10(NumDigits(v)) + 1);
    } else {
      LeadingDigit(w);
      RepeatDigits(Digits(v), 2);
      assert Repeat(Digits(v), 2) == Digits(v) + Digits(v);
      LongerIsLarger(Digits(v) + Digits(v), Digits(w) + Digits(w));
    }
  }

  lemma DoubledMono(v: nat, w: nat)
    requires v <= w
    ensures Doubled(v) <= Doubled(w)
  {
    if v < w {
      DoubledIncreasing(v, w);
    }
  }

  lemma MulLess(a: nat, b: nat, c: nat)
    requires a < b && c >= 1
    ensures a * c < b * c
  {
  }

  /** An ID is never below the number it doubles. */
  lemma DoubledAtLeast(val: nat)
    ensures val <= Doubled(val)
  {
    DoubledValue(val);
  }

  /** The reference answer: the invalid IDs built from `1 .. hi - 1` that lie
      in some range, summed. */
  function InvalidSum(ranges: seq<Range>, hi: nat): nat
    decreases hi
  {
    if hi <= 1 then 0
    else InvalidSum(ranges, hi - 1) + if InRange(ranges, Doubled(hi - 1)) then Doubled(hi - 1) else 0
  }

  /** Once a doubled ID is past every range, no larger one adds to the sum. */
  lemma {:induction false} InvalidSumStops(ranges: seq<Range>, lo: nat, hi: nat)
    requires 1 <= lo <= hi && OutOfRange(ranges, Doubled(lo))
    ensures InvalidSum(ranges, hi) == InvalidSum(ranges, lo)
    decreases hi
  {
    if hi > lo {
      InvalidSumStops(ranges, lo, hi - 1);
      var last := hi - 1;
      DoubledMono(lo, last);
      OutOfRangeIsFinal(ranges, Doubled(lo), Doubled(last));
      InvalidSumSkip(ranges, hi);
    }
  }

  /** An ID in no range adds nothing. */
  lemma InvalidSumSkip(ranges: seq<Range>, hi: nat)
    requires hi > 1 && !InRange(ranges, Doubled(hi - 1))
    ensures InvalidSum(ranges, hi) == InvalidSum(ranges, hi - 1)
  {
  }

  /** No number past the largest end doubles into a range, so the sum up to
      there is the sum of all invalid IDs. */
  lemma InvalidSumComplete(ranges: seq<Range>, hi: nat)
    requires hi >= MaxEnd(ranges) + 1
    ensures InvalidSum(ranges, hi) == InvalidSum(ranges, MaxEnd(ranges) + 1)
  {
    DoubledAtLeast(MaxEnd(ranges) + 1);
    InvalidSumStops(ranges, MaxEnd(ranges) + 1, hi);
  }

  /** A number whose double is not past every range is below the largest end. */
  lemma BelowMaxEnd(ranges: seq<Range>, val: nat)
    requires !OutOfRange(ranges, Doubled(val))
    ensures val < MaxEnd(ranges) + 1
  {
    DoubledAtLeast(val);
    var i :| 0 <= i < |ranges| && Doubled(val) <= ranges[i].end;
  }

  /** Lines 89-101: sum the in-range IDs the iterator yields from 1 on,
      stopping at the first one past every range. */
  method Answer(ranges: seq<Range>) returns (sum: nat)
    ensures sum == InvalidSum(ranges, MaxEnd(ranges) + 1)
  {
    var val := 1;
    sum := 0;
    while !OutOfRange(ranges, Doubled(val))
      invariant 1 <= val <= MaxEnd(ranges) + 1
      invariant sum == InvalidSum(ranges, val)
      decreases MaxEnd(ranges) + 1 - val
    {
      BelowMaxEnd(ranges, val);
      var item := Doubled(val);
      if InRange(ranges, item) {
        sum := sum + item;
      }
      val := val + 1;
    }
    InvalidSumStops(ranges, val, MaxEnd(ranges) + 1);
  }
}
