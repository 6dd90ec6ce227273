/** Decimal digit strings: `to_string` of an unsigned integer, `parse` of a
    string of digits, and the concatenation of copies of a digit string. */
module Decimal {

  function Pow10(n: nat): (r: nat)
    ensures r >= 1
    decreases n
  {
    if n == 0 then 1 else 10 * Pow10(n - 1)
  }

  /** Each entry is a decimal digit. */
  predicate IsDigits(ds: seq<nat>)
  {
    forall i | 0 <= i < |ds| :: ds[i] < 10
  }

  /** The form `to_string` produces: no leading zero except for 0 itself. */
  predicate Canonical(ds: seq<nat>)
  {
    ds != [] && IsDigits(ds) && (ds[0] == 0 ==> |ds| == 1)
  }

  /** `to_string`: the decimal digits of `v`, most significant first. */
  function Digits(v: nat): (ds: seq<nat>)
    ensures Canonical(ds)
    ensures ds[|ds| - 1] == v % 10
    decreases v
  {
    if v < 10 then [v] else Digits(v / 10) + [v % 10]
  }

  /** `parse`: the number a digit string denotes. */
  function Value(ds: seq<nat>): nat
    decreases |ds|
  {
    if ds == [] then 0 else Value(ds[..|ds| - 1]) * 10 + ds[|ds| - 1]
  }

  function NumDigits(v: nat): nat
  {
    |Digits(v)|
  }

  /** Printing then parsing gives the number back. */
  lemma {:induction false} ValueOfDigits(v: nat)
    ensures Value(Digits(v)) == v
    decreases v
  {
    if v >= 10 {
      ValueOfDigits(v / 10);
      var ds := Digits(v);
      assert ds[..|ds| - 1] == Digits(v / 10);
    }
  }

  /** Parsing then printing gives a canonical digit string back. */
  lemma {:induction false} DigitsOfValue(ds: seq<nat>)
    requires Canonical(ds)
    ensures Digits(Value(ds)) == ds
    decreases |ds|
  {
    if |ds| > 1 {
      var front := ds[..|ds| - 1];
      assert Canonical(front) by {
        assert front[0] == ds[0];
      }
      DigitsOfValue(front);
      ValueAtLeast(front);
      assert Value(ds) / 10 == Value(front);
      assert Value(ds) % 10 == ds[|ds| - 1];
    }
  }

  /** Digits after `a` shift its value by a power of ten. */
  lemma {:induction false} ValueAppend(a: seq<nat>, b: seq<nat>)
    ensures Value(a + b) == Value(a) * Pow10(|b|) + Value(b)
    decreases |b|
  {
    if b == [] {
      assert a + b == a;
    } else {
      var front := b[..|b| - 1];
      assert (a + b)[..|a + b| - 1] == a + front;
      ValueAppend(a, front);
      calc {
        Value(a + b);
        Value(a + front) * 10 + b[|b| - 1];
        (Value(a) * Pow10(|front|) + Value(front)) * 10 + b[|b| - 1];
        { MulAssoc(Value(a), Pow10(|front|), 10); }
        Value(a) * Pow10(|b|) + Value(b);
      }
    }
  }

  lemma MulAssoc(a: nat, b: nat, c: nat)
    ensures (a * b) * c == a * (c * b)
  {
  }

  /** A string of `n` digits denotes less than `10^n`. */
  lemma {:induction false} ValueBelow(ds: seq<nat>)
    requires IsDigits(ds)
    ensures Value(ds) < Pow10(|ds|)
    decreases |ds|
  {
    if ds != [] {
      ValueBelow(ds[..|ds| - 1]);
    }
  }

  /** With a leading non-zero digit it denotes at least `10^(n-1)`. */
  lemma {:induction false} ValueAtLeast(ds: seq<nat>)
    requires ds != [] && ds[0] != 0
    ensures Value(ds) >= Pow10(|ds| - 1)
    decreases |ds|
  {
    if |ds| > 1 {
      var front := ds[..|ds| - 1];
      assert front[0] == ds[0];
      ValueAtLeast(front);
    }
  }

  /** `n` digits hold exactly the numbers from `10^(n-1)` up to `10^n - 1`. */
  lemma NumDigitsBounds(v: nat)
    ensures v < Pow10(NumDigits(v))
    ensures v >= 1 ==> v >= Pow10(NumDigits(v) - 1)
  {
    ValueOfDigits(v);
    ValueBelow(Digits(v));
    if v >= 1 {
      ValueAtLeast(Digits(v));
    }
  }

  /** `k` copies of `ds`, one after another. */
  function Repeat(ds: seq<nat>, k: nat): seq<nat>
    decreases k
  {
    if k == 0 then [] else Repeat(ds, k - 1) + ds
  }

  lemma {:induction false} RepeatLength(ds: seq<nat>, k: nat)
    ensures |Repeat(ds, k)| == k * |ds|
    decreases k
  {
    if k > 0 {
      RepeatLength(ds, k - 1);
    }
  }

  lemma {:induction false} RepeatDigits(ds: seq<nat>, k: nat)
    requires IsDigits(ds)
    ensures IsDigits(Repeat(ds, k))
    decreases k
  {
    if k > 0 {
      RepeatDigits(ds, k - 1);
      var r := Repeat(ds, k);
      forall i | 0 <= i < |r|
        ensures r[i] < 10
      {
        if i >= |Repeat(ds, k - 1)| {
          assert r[i] == ds[i - |Repeat(ds, k - 1)|];
        }
      }
    }
  }

  lemma {:induction false} RepeatHead(ds: seq<nat>, k: nat)
    requires ds != [] && k >= 1
    ensures Repeat(ds, k)[0] == ds[0]
    decreases k
  {
    if k > 1 {
      RepeatHead(ds, k - 1);
    }
  }

  lemma {:induction false} Pow10Mono(a: nat, b: nat)
    requires a <= b
    ensures Pow10(a) <= Pow10(b)
    decreases b
  {
    if a < b {
      Pow10Mono(a, b - 1);
    }
  }

  /** A positive number is printed without a leading zero. */
  lemma LeadingDigit(v: nat)
    requires v >= 1
    ensures Digits(v)[0] != 0
  {
    ValueOfDigits(v);
  }

  /** A digit string is smaller than any longer one without a leading zero. */
  lemma LongerIsLarger(a: seq<nat>, b: seq<nat>)
    requires IsDigits(a) && b != [] && b[0] != 0 && |a| < |b|
    ensures Value(a) < Value(b)
  {
    ValueBelow(a);
    ValueAtLeast(b);
    Pow10Mono(|a|, |b| - 1);
  }

  /** Larger numbers never have fewer digits. */
  lemma NumDigitsMono(v: nat, w: nat)
    requires v <= w
    ensures NumDigits(v) <= NumDigits(w)
  {
    if NumDigits(w) < NumDigits(v) {
      LeadingDigit(v);
      LongerIsLarger(Digits(w), Digits(v));
      ValueOfDigits(v);
      ValueOfDigits(w);
    }
  }

  /** `r` is at least `s` in dictionary order (both of one length). */
  predicate LexGe(r: seq<nat>, s: seq<nat>)
    requires |r| == |s|
    decreases |r|
  {
    r == [] || r[0] > s[0] || (r[0] == s[0] && LexGe(r[1..], s[1..]))
  }

  /** The leading digit weighs a power of ten. */
  lemma ValueHead(r: seq<nat>)
    requires r != []
    ensures Value(r) == r[0] * Pow10(|r| - 1) + Value(r[1..])
  {
    var head := [r[0]];
    assert r == head + r[1..];
    assert head[..0] == [];
    assert Value(head) == r[0];
    ValueAppend(head, r[1..]);
  }

  /** Among digit strings of one length, dictionary order is numeric order. */
  lemma {:induction false} LexGeValue(r: seq<nat>, s: seq<nat>)
    requires |r| == |s| && IsDigits(r) && IsDigits(s) && LexGe(r, s)
    ensures Value(s) <= Value(r)
    decreases |r|
  {
    if r != [] {
      ValueHead(r);
      ValueHead(s);
      var p := Pow10(|r| - 1);
      if r[0] > s[0] {
        ValueBelow(s[1..]);
        HeadDominates(r[0], s[0], p, Value(r[1..]), Value(s[1..]));
      } else {
        LexGeValue(r[1..], s[1..]);
      }
    }
  }

  lemma HeadDominates(a: nat, b: nat, p: nat, x: nat, y: nat)
    requires a > b && y < p
    ensures b * p + y < a * p + x
  {
    assert a * p >= (b + 1) * p;
  }
}
