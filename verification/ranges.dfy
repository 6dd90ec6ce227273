/** Inclusive ranges of unsigned numbers and membership in a list of them. */
module Ranges {

  /** An inclusive range, `start-end`; one with `start > end` holds nothing. */
  datatype Range = Range(start: nat, end: nat)

  /** `in_range` (src/bin/day2p1.rs lines 48-55, src/bin/day5p1.rs lines 53-55):
      some range holds `val`, searched in order. */
  function InRange(ranges: seq<Range>, val: nat): (b: bool)
    ensures b <==> exists i | 0 <= i < |ranges| :: ranges[i].start <= val <= ranges[i].end
    decreases |ranges|
  {
    if ranges == [] then false
    else if ranges[0].start <= val <= ranges[0].end then true
    else
      assert forall i | 1 <= i < |ranges| :: ranges[i] == ranges[1..][i - 1];
      InRange(ranges[1..], val)
  }

  /** `out_of_range` (src/bin/day2p1.rs lines 57-59): `val` lies beyond the end
      of every range. */
  predicate OutOfRange(ranges: seq<Range>, val: nat)
  {
    forall i | 0 <= i < |ranges| :: val > ranges[i].end
  }

  /** Past every range is in none, and stays past every range going up. */
  lemma OutOfRangeIsFinal(ranges: seq<Range>, val: nat, later: nat)
    requires OutOfRange(ranges, val) && val <= later
    ensures OutOfRange(ranges, later) && !InRange(ranges, later)
  {
  }

  /** The largest range end; 0 for no ranges. */
  function MaxEnd(ranges: seq<Range>): (m: nat)
    ensures forall i | 0 <= i < |ranges| :: ranges[i].end <= m
    ensures ranges != [] ==> exists i | 0 <= i < |ranges| :: ranges[i].end == m
    decreases |ranges|
  {
    if ranges == [] then 0
    else
      var rest := MaxEnd(ranges[1..]);
      assert forall i | 1 <= i < |ranges| :: ranges[i] == ranges[1..][i - 1];
      if ranges[0].end >= rest then ranges[0].end else rest
  }
}
