/** Battery banks, second reading: twelve batteries per bank. The program
    picks them greedily, each from the widest window that still leaves enough
    batteries for the picks after it. */
module Day3P2 {
  import opened Wrappers
  import opened Decimal
  import Day3P1

  /** The picks of lines 53-64 from position `cur` on with `k` picks to go:
      the window ends where exactly `k - 1` batteries remain after it. */
  function Greedy(b: seq<nat>, cur: nat, k: nat): (r: seq<nat>)
    requires cur + k <= |b|
    ensures |r| == k
    decreases k
  {
    if k == 0 then []
    else
      var i := Day3P1.FirstMax(b, cur, |b| - k + 1);
      [b[i]] + Greedy(b, i + 1, k - 1)
  }

  /** The positions `Greedy` picks. */
  function GreedyIndices(b: seq<nat>, cur: nat, k: nat): (idx: seq<nat>)
    requires cur + k <= |b|
    ensures |idx| == k
    decreases k
  {
    if k == 0 then []
    else
      var i := Day3P1.FirstMax(b, cur, |b| - k + 1);
      [i] + GreedyIndices(b, i + 1, k - 1)
  }

  /** `s` is `b` at the strictly increasing positions `idx`. */
  ghost predicate SubseqAt(b: seq<nat>, idx: seq<nat>, s: seq<nat>)
  {
    && |idx| == |s|
    && (forall t | 0 <= t < |idx| :: idx[t] < |b| && s[t] == b[idx[t]])
    && (forall t, u | 0 <= t < u < |idx| :: idx[t] < idx[u])
  }

  /** The picks keep their order in the bank, from `cur` on. */
  lemma {:induction false} GreedySubseq(b: seq<nat>, cur: nat, k: nat)
    requires cur + k <= |b|
    ensures SubseqAt(b, GreedyIndices(b, cur, k), Greedy(b, cur, k))
    ensures forall t | 0 <= t < k :: cur <= GreedyIndices(b, cur, k)[t]
    decreases k
  {
    if k > 0 {
      var i := Day3P1.FirstMax(b, cur, |b| - k + 1);
      GreedySubseq(b, i + 1, k - 1);
      SubseqCons(b, i, GreedyIndices(b, i + 1, k - 1), Greedy(b, i + 1, k - 1));
    }
  }

  /** A position before all of a subsequence's positions extends it. */
  lemma SubseqCons(b: seq<nat>, i: nat, idx: seq<nat>, s: seq<nat>)
    requires i < |b| && SubseqAt(b, idx, s)
    requires forall t | 0 <= t < |idx| :: i + 1 <= idx[t]
    ensures SubseqAt(b, [i] + idx, [b[i]] + s)
    ensures forall t | 0 <= t < |idx| + 1 :: i <= ([i] + idx)[t]
  {
    var idx', s' := [i] + idx, [b[i]] + s;
    assert forall t | 1 <= t < |idx'| :: idx'[t] == idx[t - 1] && s'[t] == s[t - 1];
  }

  /** Strictly increasing positions spread at least one apart. */
  lemma {:induction false} IndexSpread(b: seq<nat>, idx: seq<nat>, s: seq<nat>, t: nat)
    requires SubseqAt(b, idx, s) && t < |idx|
    ensures idx[0] + t <= idx[t]
    decreases t
  {
    if t > 0 {
      IndexSpread(b, idx, s, t - 1);
    }
  }

  /** No subsequence of `k` batteries from `cur` on comes first in dictionary
      order before the greedy picks. */
  lemma {:induction false} GreedyIsBest(b: seq<nat>, cur: nat, k: nat, idx: seq<nat>, s: seq<nat>)
    requires cur + k <= |b| && SubseqAt(b, idx, s) && |s| == k
    requires forall t | 0 <= t < k :: cur <= idx[t]
    ensures LexGe(Greedy(b, cur, k), s)
    decreases k
  {
    if k > 0 {
      var i := Day3P1.FirstMax(b, cur, |b| - k + 1);
      IndexSpread(b, idx, s, k - 1);
      assert s[0] <= b[i];
      if b[i] == s[0] {
        SubseqTail(b, idx, s);
        GreedyIsBest(b, i + 1, k - 1, idx[1..], s[1..]);
      }
    }
  }

  /** Dropping the first pick leaves a subsequence after it. */
  lemma SubseqTail(b: seq<nat>, idx: seq<nat>, s: seq<nat>)
    requires SubseqAt(b, idx, s) && idx != []
    ensures SubseqAt(b, idx[1..], s[1..])
    ensures forall t | 0 <= t < |idx| - 1 :: idx[0] + 1 <= idx[1..][t]
  {
    assert forall t | 0 <= t < |idx| - 1 :: idx[1..][t] == idx[t + 1] && s[1..][t] == s[t + 1];
  }

  /** The greedy picks spell the largest number of any `k` batteries kept in order. */
  lemma GreedyIsLargest(b: seq<nat>, k: nat, idx: seq<nat>, s: seq<nat>)
    requires IsDigits(b) && k <= |b| && SubseqAt(b, idx, s) && |s| == k
    ensures Value(s) <= Value(Greedy(b, 0, k))
  {
    GreedyIsBest(b, 0, k, idx, s);
    GreedySubseq(b, 0, k);
    PicksAreDigits(b, GreedyIndices(b, 0, k), Greedy(b, 0, k));
    PicksAreDigits(b, idx, s);
    LexGeValue(Greedy(b, 0, k), s);
  }

  lemma PicksAreDigits(b: seq<nat>, idx: seq<nat>, s: seq<nat>)
    requires IsDigits(b) && SubseqAt(b, idx, s)
    ensures IsDigits(s)
  {
  }

  /** The first reading's two picks are the greedy picks for two batteries. */
  lemma PairIsGreedy(b: seq<nat>)
    requires |b| >= 2
    ensures Day3P1.FindLargest(b) == Some(Greedy(b, 0, 2))
  {
    GreedyPair(b, 2);
  }

  lemma GreedyPair(b: seq<nat>, k: nat)
    requires k == 2 && |b| >= k
    ensures Day3P1.FindLargest(b) == Some(Greedy(b, 0, k))
  {
    var i := Day3P1.FirstMax(b, 0, |b| - 1);
    var j := Day3P1.FirstMax(b, i + 1, |b|);
    var rest := Greedy(b, i + 1, k - 1);
    assert Greedy(b, j + 1, k - 2) == [];
    assert rest == [b[j]] + Greedy(b, j + 1, k - 2);
    assert rest == [b[j]];
    assert |b| - k + 1 == |b| - 1;
    assert Greedy(b, 0, k) == [b[i]] + rest;
    assert [b[i]] + [b[j]] == [b[i], b[j]];
    assert Day3P1.FindLargest(b) == Some([b[i], b[j]]);
  }

  /** One pass of the loop of lines 53-64 moves one pick into the result. */
  lemma PickStep(b: seq<nat>, result: seq<nat>, cur: nat, left: nat, m: nat)
    requires 0 < left && cur + left <= |b|
    requires cur + m == Day3P1.FirstMax(b, cur, |b| - left + 1)
    ensures result + Greedy(b, cur, left) == (result + [b[cur + m]]) + Greedy(b, cur + m + 1, left - 1)
  {
  }

  /** Lines 48-67: `num_batteries` window picks; more picks than batteries
      underflow the window end of line 55 or empty the window, and the
      `unwrap` of line 61 panics. */
  method FindLargest(b: seq<nat>, num: nat) returns (r: Option<seq<nat>>)
    ensures r.None? <==> num > |b|
    ensures r.Some? ==> r.value == Greedy(b, 0, num)
  {
    if num > |b| {
      return None;
    }
    var result := [];
    var cur: nat := 0;
    for n := 0 to num
      invariant cur + (num - n) <= |b|
      invariant result + Greedy(b, cur, num - n) == Greedy(b, 0, num)
    {
      var sidx := cur;
      var eidx := |b| - (num - n) + 1;
      var m: nat := Day3P1.FirstMax(b, sidx, eidx) - sidx;
      PickStep(b, result, cur, num - n, m);
      result := result + [b[sidx + m]];
      cur := cur + m + 1;
    }
    return Some(result);
  }

  const Batteries: nat := 12

  /** The sum over all banks of the number the picks spell. */
  function BankTotal(banks: seq<seq<nat>>, num: nat): (r: Option<nat>)
    ensures r.None? <==> exists k | 0 <= k < |banks| :: |banks[k]| < num
    decreases |banks|
  {
    if banks == [] then Some(0)
    else
      var last := |banks| - 1;
      var before :- BankTotal(banks[..last], num);
      if |banks[last]| < num then None
      else Some(before + Value(Greedy(banks[last], 0, num)))
  }

  lemma BankTotalStep(banks: seq<seq<nat>>, k: nat, num: nat, sum: nat)
    requires k < |banks| && |banks[k]| >= num && BankTotal(banks[..k], num) == Some(sum)
    ensures BankTotal(banks[..k + 1], num) == Some(sum + Value(Greedy(banks[k], 0, num)))
  {
    var pre := banks[..k + 1];
    assert pre[..k] == banks[..k] && pre[k] == banks[k];
  }

  /** Lines 70-89: each bank's twelve picks, summed in order. */
  method Answer(banks: seq<seq<nat>>) returns (r: Option<nat>)
    ensures r == BankTotal(banks, Batteries)
  {
    r := SumPicks(banks, Batteries);
  }

  /** Lines 73-84 for `num` picks per bank. */
  method SumPicks(banks: seq<seq<nat>>, num: nat) returns (r: Option<nat>)
    ensures r == BankTotal(banks, num)
  {
    var sum := 0;
    for k := 0 to |banks|
      invariant BankTotal(banks[..k], num) == Some(sum)
    {
      var pick := FindLargest(banks[k], num);
      if pick.None? {
        return None;
      }
      BankTotalStep(banks, k, num, sum);
      sum := sum + Value(pick.value);
    }
    assert banks[..|banks|] == banks;
    return Some(sum);
  }
}
