/** Integers read as two's-complement bit strings: bit `k`, and the
    exclusive-or with `1 << k` the light-toggling puzzle uses. Division here
    is Euclidean, so `s / 2` is an arithmetic right shift for every `s`. */
module Bits {

  function Pow2(k: nat): (r: nat)
    ensures r >= 1
  {
    if k == 0 then 1 else 2 * Pow2(k - 1)
  }

  /** More bits never give a smaller power of two. */
  lemma {:induction false} Pow2Mono(m: nat, n: nat)
    requires m <= n
    ensures Pow2(m) <= Pow2(n)
    decreases n
  {
    if m < n {
      Pow2Mono(m, n - 1);
    }
  }

  /** Bit `k` of `s` is set. */
  predicate Bit(s: int, k: nat)
    decreases k
  {
    if k == 0 then s % 2 == 1 else Bit(s / 2, k - 1)
  }

  /** `s ^ (1 << k)`. */
  function Toggle(s: int, k: nat): (r: int)
    ensures forall j: nat :: Bit(r, j) == (Bit(s, j) != (j == k))
    decreases k
  {
    if k == 0 then
      var r := if s % 2 == 1 then s - 1 else s + 1;
      assert r / 2 == s / 2;
      r
    else
      var t := Toggle(s / 2, k - 1);
      var r := 2 * t + s % 2;
      assert r / 2 == t && r % 2 == s % 2;
      assert forall j: nat | j > 0 :: Bit(r, j) == Bit(t, j - 1);
      r
  }

  /** Two integers that differ have a bit that tells them apart. */
  lemma {:induction false} Differ(a: int, b: int) returns (j: nat)
    requires a != b
    ensures Bit(a, j) != Bit(b, j)
    decreases if a < b then b - a else a - b
  {
    if a % 2 != b % 2 {
      j := 0;
    } else {
      var i := Differ(a / 2, b / 2);
      j := i + 1;
    }
  }

  /** Integers with the same bits are equal. */
  lemma SameBits(a: int, b: int)
    requires forall j: nat :: Bit(a, j) == Bit(b, j)
    ensures a == b
  {
    if a != b {
      var j := Differ(a, b);
    }
  }

  /** A value in `[0, 2^w)` has no bit at or above `w`. */
  lemma {:induction false} HighBitsClear(s: int, w: nat, j: nat)
    requires 0 <= s < Pow2(w) && j >= w
    ensures !Bit(s, j)
    decreases w
  {
    if w == 0 {
      assert s == 0;
      ZeroBits(j);
    } else if j > 0 {
      HighBitsClear(s / 2, w - 1, j - 1);
    }
  }

  lemma {:induction false} ZeroBits(j: nat)
    ensures !Bit(0, j)
    decreases j
  {
    if j > 0 {
      ZeroBits(j - 1);
    }
  }

  /** Toggling a bit below `w` stays in `[0, 2^w)`. */
  lemma {:induction false} ToggleInRange(s: int, k: nat, w: nat)
    requires 0 <= s < Pow2(w) && k < w
    ensures 0 <= Toggle(s, k) < Pow2(w)
    decreases k
  {
    if k > 0 {
      ToggleInRange(s / 2, k - 1, w - 1);
    }
  }

  /** Toggling twice restores the value. */
  lemma ToggleTwice(s: int, k: nat)
    ensures Toggle(Toggle(s, k), k) == s
  {
    SameBits(Toggle(Toggle(s, k), k), s);
  }
}
