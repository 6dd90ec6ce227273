/** Battery banks: each bank is a row of single-digit joltages; turning on two
    batteries yields the two-digit number they spell, and the answer sums the
    largest such number of every bank. */
module Day3P1 {
  import opened Wrappers
  import opened Decimal

  /** `b[lo..hi].iter().enumerate().rev().max_by_key(..)`: `max_by_key` keeps
      the last maximum it meets, and the reversed walk meets the earliest
      index last, so the pick is the first position of the window's maximum. */
  function FirstMax(b: seq<nat>, lo: nat, hi: nat): (i: nat)
    requires lo < hi <= |b|
    ensures lo <= i < hi
    ensures forall j | lo <= j < hi :: b[j] <= b[i]
    ensures forall j | lo <= j < i :: b[j] < b[i]
    decreases hi - lo
  {
    if lo + 1 == hi then lo
    else
      var k := FirstMax(b, lo + 1, hi);
      if b[lo] >= b[k] then lo else k
  }

  /** Lines 47-67: the largest digit before the last position, then the
      largest digit after it. A bank of fewer than two digits makes the slice
      of line 50 empty (or its bound underflow) and the `unwrap` panic. */
  function FindLargest(b: seq<nat>): (r: Option<seq<nat>>)
    ensures r.None? <==> |b| < 2
    ensures r.Some? ==> |r.value| == 2
    ensures r.Some? ==> exists i, j | 0 <= i < j < |b| :: r.value == [b[i], b[j]]
  {
    if |b| < 2 then None
    else
      var i := FirstMax(b, 0, |b| - 1);
      var j := FirstMax(b, i + 1, |b|);
      Some([b[i], b[j]])
  }

  /** The two digits read as a number, as lines 75-79 print and parse them. */
  function Joltage(pair: seq<nat>): nat
  {
    Value(pair)
  }

  lemma JoltageOfPair(x: nat, y: nat)
    ensures Joltage([x, y]) == 10 * x + y
  {
    assert [x][..0] == [];
    assert Value([x]) == x;
    assert [x, y][..1] == [x];
  }

  /** No two batteries in order spell a larger number than the pick. */
  lemma FindLargestIsBest(b: seq<nat>, i: nat, j: nat)
    requires IsDigits(b) && i < j < |b|
    ensures FindLargest(b).Some?
    ensures 10 * b[i] + b[j] <= Joltage(FindLargest(b).value)
  {
    var m1 := FirstMax(b, 0, |b| - 1);
    var m2 := FirstMax(b, m1 + 1, |b|);
    JoltageOfPair(b[m1], b[m2]);
    if b[i] == b[m1] {
      assert m1 <= i;
    }
  }

  /** The sum of the picks over all banks. */
  function TotalJoltage(banks: seq<seq<nat>>): (r: Option<nat>)
    ensures r.None? <==> exists k | 0 <= k < |banks| :: |banks[k]| < 2
    decreases |banks|
  {
    if banks == [] then Some(0)
    else
      var last := |banks| - 1;
      var before :- TotalJoltage(banks[..last]);
      var pick :- FindLargest(banks[last]);
      Some(before + Joltage(pick))
  }

  /** Lines 70-87: each bank's pick, summed in order. */
  method Answer(banks: seq<seq<nat>>) returns (r: Option<nat>)
    ensures r == TotalJoltage(banks)
  {
    var sum := 0;
    for k := 0 to |banks|
      invariant TotalJoltage(banks[..k]) == Some(sum)
    {
      assert banks[..k + 1][..k] == banks[..k];
      var pick := FindLargest(banks[k]);
      if pick.None? {
        return None;
      }
      sum := sum + Joltage(pick.value);
    }
    assert banks[..|banks|] == banks;
    return Some(sum);
  }
}
