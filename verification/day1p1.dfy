/** The safe dial: positions 0 to 99, turned left or right by a distance
    from a start of 50; the answer counts the turns that leave it at 0. */
module Day1P1 {

  /** One instruction: turn towards lower (`Left`) or higher (`Right`) numbers. */
  datatype Turn = Left(n: nat) | Right(n: nat)

  const Size: nat := 100
  const StartPos: nat := 50

  predicate OnDial(pos: int)
  {
    0 <= pos < Size
  }

  /** Lines 76-83: the new position, by floor modulus. */
  function Apply(pos: int, t: Turn): (r: int)
    requires OnDial(pos)
    ensures OnDial(r)
  {
    match t
    case Left(n) => (pos - n) % Size
    case Right(n) => (pos + n) % Size
  }

  /** One click of the dial, wrapping from 0 to 99 and from 99 to 0. */
  function Click(pos: int, left: bool): (r: int)
    requires OnDial(pos)
    ensures OnDial(r)
  {
    if left then (if pos == 0 then Size - 1 else pos - 1)
    else (if pos == Size - 1 then 0 else pos + 1)
  }

  /** The dial after `n` single clicks in one direction. */
  function Clicks(pos: int, left: bool, n: nat): (r: int)
    requires OnDial(pos)
    ensures OnDial(r)
    decreases n
  {
    if n == 0 then pos else Click(Clicks(pos, left, n - 1), left)
  }

  /** A turn by `n` is `n` single clicks. */
  lemma {:induction false} ApplyIsClicks(pos: int, t: Turn)
    requires OnDial(pos)
    ensures Apply(pos, t) == Clicks(pos, t.Left?, t.n)
    decreases t.n
  {
    if t.n > 0 {
      var shorter := if t.Left? then Left(t.n - 1) else Right(t.n - 1);
      ApplyIsClicks(pos, shorter);
      var x := if t.Left? then pos - (t.n - 1) else pos + (t.n - 1);
      assert Apply(pos, shorter) == x % Size;
      ClickMod(x, t.Left?);
    }
  }

  /** One click from a reduced value is the reduction of one step. */
  lemma ClickMod(x: int, left: bool)
    ensures Click(x % Size, left) == (if left then x - 1 else x + 1) % Size
  {
    ModSum(x, if left then -1 else 1);
  }

  /** Turning back by the same distance restores the position. */
  lemma LeftRightInverse(pos: int, n: nat)
    requires OnDial(pos)
    ensures Apply(Apply(pos, Left(n)), Right(n)) == pos
    ensures Apply(Apply(pos, Right(n)), Left(n)) == pos
  {
    ModSum(pos - n, n);
    ModSum(pos + n, -(n as int));
  }

  /** Adding to a floor-reduced value commutes with the reduction. */
  lemma ModSum(a: int, b: int)
    ensures (a % Size + b) % Size == (a + b) % Size
  {
    var q := a / Size;
    assert a == q * Size + a % Size;
    assert a + b == q * Size + (a % Size + b);
    ModShift(a % Size + b, q);
  }

  lemma ModShift(x: int, q: int)
    ensures (q * Size + x) % Size == x % Size
  {
  }

  /** Lines 85-87. */
  predicate Check(pos: int)
  {
    pos == 0
  }

  /** How many of `turns`, applied in order from `pos`, leave the dial at 0. */
  function ZeroStops(pos: int, turns: seq<Turn>): (c: nat)
    requires OnDial(pos)
    ensures c <= |turns|
    decreases |turns|
  {
    if turns == [] then 0
    else
      var next := Apply(pos, turns[0]);
      (if Check(next) then 1 else 0) + ZeroStops(next, turns[1..])
  }

  /** The dial after all of `turns`. */
  function Final(pos: int, turns: seq<Turn>): (r: int)
    requires OnDial(pos)
    ensures OnDial(r)
    decreases |turns|
  {
    if turns == [] then pos else Final(Apply(pos, turns[0]), turns[1..])
  }

  /** Stops split over a concatenation. */
  lemma {:induction false} ZeroStopsAppend(pos: int, a: seq<Turn>, b: seq<Turn>)
    requires OnDial(pos)
    ensures ZeroStops(pos, a + b) == ZeroStops(pos, a) + ZeroStops(Final(pos, a), b)
    decreases |a|
  {
    if a != [] {
      assert a + b != [] && (a + b)[0] == a[0] && (a + b)[1..] == a[1..] + b;
      ZeroStopsAppend(Apply(pos, a[0]), a[1..], b);
    } else {
      assert a + b == b;
    }
  }

  /** Lines 90-104: starting at 50, count the turns after which the dial reads 0. */
  method Answer(turns: seq<Turn>) returns (count: nat)
    ensures count == ZeroStops(StartPos, turns)
  {
    var pos := StartPos;
    count := 0;
    var i := 0;
    while i < |turns|
      invariant 0 <= i <= |turns| && OnDial(pos)
      invariant count + ZeroStops(pos, turns[i..]) == ZeroStops(StartPos, turns)
    {
      assert turns[i..][0] == turns[i] && turns[i..][1..] == turns[i + 1..];
      pos := Apply(pos, turns[i]);
      if Check(pos) {
        count := count + 1;
      }
      i := i + 1;
    }
  }
}
