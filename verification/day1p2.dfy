/** The safe dial, second reading: every click that lands on 0 counts,
    including those passed during a long turn. */
module Day1P2 {
  import opened Day1P1

  /** The dial's new position and the zero landings counted for one turn. */
  datatype Moved = Moved(pos: int, passes: nat)

  // ---------------------------------------------------------------------------
  // What a turn should count: single clicks that land on 0

  /** How many of the first `n` single clicks from `pos` land on 0. */
  function ZeroClicks(pos: int, left: bool, n: nat): (c: nat)
    requires OnDial(pos)
    ensures c <= n
    decreases n
  {
    if n == 0 then 0
    else ZeroClicks(pos, left, n - 1) + if Clicks(pos, left, n) == 0 then 1 else 0
  }

  /** Lowering `x` by one crosses a multiple of the dial size exactly when `x` is one. */
  lemma FloorStep(x: int)
    ensures (x - 1) / Size == x / Size - (if x % Size == 0 then 1 else 0)
  {
  }

  /** Zero landings in closed form: the multiples of 100 in `[pos - n, pos - 1]`
      turning left, in `[pos + 1, pos + n]` turning right. */
  lemma {:induction false} ZeroClicksCount(pos: int, left: bool, n: nat)
    requires OnDial(pos)
    ensures left ==> ZeroClicks(pos, left, n) == (pos - 1) / Size - (pos - n - 1) / Size
    ensures !left ==> ZeroClicks(pos, left, n) == (pos + n) / Size - pos / Size
    decreases n
  {
    if n > 0 {
      ZeroClicksCount(pos, left, n - 1);
      var t := if left then Left(n) else Right(n);
      ApplyIsClicks(pos, t);
      if left {
        FloorStep(pos - n);
      } else {
        FloorStep(pos + n);
      }
    }
  }

  // ---------------------------------------------------------------------------
  // The program's count

  /** Lines 84-91: turning left to `pos - n`, `tmp.div_euclid(-100)` counts
      the multiples of 100 in `[pos - n, 0]` when `pos - n` is negative, one
      fewer when starting at 0. Dafny's `/` is Euclidean too, so the
      decrement of line 89 follows at least one counted multiple. */
  function LeftPassed(pos: int, n: nat): (c: nat)
    requires OnDial(pos)
  {
    var tmp := pos - n;
    if tmp < 0 then tmp / -100 - (if pos == 0 then 1 else 0) else 0
  }

  /** Lines 79-113 as written: a left turn adds one more when it lands on 0,
      a right turn counts `tmp.div_euclid(100)` once past 99. */
  function ApplyCounting(pos: int, t: Turn): (r: Moved)
    requires OnDial(pos)
    ensures r.pos == Apply(pos, t)
  {
    match t
    case Left(n) =>
      var p := (pos - n) % Size;
      Moved(p, LeftPassed(pos, n) + if p == 0 then 1 else 0)
    case Right(n) =>
      var tmp := pos + n;
      Moved(tmp % Size, if tmp >= Size then tmp / Size else 0)
  }

  /** Euclidean division by -100 is the negated floor division by 100. */
  lemma NegDiv(a: int)
    ensures a / -100 == -(a / Size)
  {
    var q := a / Size;
    var r := a % Size;
    assert a == q * Size + r && 0 <= r < Size;
    assert a == (-q) * -100 + r;
  }

  /** The left count in closed form, except for a turn by 0 from 0. */
  lemma LeftCount(pos: int, n: nat)
    requires OnDial(pos) && !(pos == 0 && n == 0)
    ensures LeftPassed(pos, n) + (if (pos - n) % Size == 0 then 1 else 0) == (pos - 1) / Size - (pos - n - 1) / Size
  {
    var tmp := pos - n;
    FloorStep(tmp);
    assert (pos - 1) / Size == if pos == 0 then -1 else 0;
    if tmp < 0 {
      NegDiv(tmp);
    } else {
      assert tmp / Size == 0 && tmp % Size == tmp;
    }
  }

  /** The right count in closed form. */
  lemma RightCount(pos: int, n: nat)
    requires OnDial(pos)
    ensures (if pos + n >= Size then (pos + n) / Size else 0) == (pos + n) / Size - pos / Size
  {
    assert pos / Size == 0;
  }

  /** A left turn by 0 from 0 counts a landing although no click happens. */
  lemma LeftZeroAtZero()
    ensures ApplyCounting(0, Left(0)).passes == 1
    ensures ZeroClicks(0, true, 0) == 0
  {
  }

  /** Everywhere else the count as written is the number of zero landings. */
  lemma AsWrittenCounts(pos: int, t: Turn)
    requires OnDial(pos) && !(pos == 0 && t == Left(0))
    ensures ApplyCounting(pos, t).passes == ZeroClicks(pos, t.Left?, t.n)
  {
    ZeroClicksCount(pos, t.Left?, t.n);
    if t.Left? {
      LeftCount(pos, t.n);
    } else {
      RightCount(pos, t.n);
    }
  }

  /** Lines 79-113 with the landing of line 95 counted only when the dial
      actually moved. */
  function Turned(pos: int, t: Turn): (r: Moved)
    requires OnDial(pos)
    ensures r.pos == Apply(pos, t)
    ensures !(pos == 0 && t == Left(0)) ==> r == ApplyCounting(pos, t)
  {
    match t
    case Left(n) =>
      var p := (pos - n) % Size;
      Moved(p, LeftPassed(pos, n) + if p == 0 && n > 0 then 1 else 0)
    case Right(n) =>
      var tmp := pos + n;
      Moved(tmp % Size, if tmp >= Size then tmp / Size else 0)
  }

  /** The corrected count is the number of zero landings for every turn. */
  lemma TurnedCounts(pos: int, t: Turn)
    requires OnDial(pos)
    ensures Turned(pos, t).passes == ZeroClicks(pos, t.Left?, t.n)
  {
    if !(pos == 0 && t == Left(0)) {
      AsWrittenCounts(pos, t);
    }
  }

  /** The count as written for any turn: the zero landings, plus the one
      extra landing of a left turn by 0 from 0. */
  lemma ApplyCountingSplit(pos: int, t: Turn)
    requires OnDial(pos)
    ensures ApplyCounting(pos, t).passes == ZeroClicks(pos, t.Left?, t.n) + if pos == 0 && t == Left(0) then 1 else 0
  {
    if pos == 0 && t == Left(0) {
      LeftZeroAtZero();
    } else {
      AsWrittenCounts(pos, t);
    }
  }

  /** All zero landings over `turns`, applied in order from `pos`. */
  ghost function Landings(pos: int, turns: seq<Turn>): nat
    requires OnDial(pos)
    decreases |turns|
  {
    if turns == [] then 0
    else ZeroClicks(pos, turns[0].Left?, turns[0].n) + Landings(Apply(pos, turns[0]), turns[1..])
  }

  /** The left turns by 0 over `turns` that are taken with the dial at 0. */
  ghost function IdleAtZero(pos: int, turns: seq<Turn>): nat
    requires OnDial(pos)
    decreases |turns|
  {
    if turns == [] then 0
    else (if pos == 0 && turns[0] == Left(0) then 1 else 0) + IdleAtZero(Apply(pos, turns[0]), turns[1..])
  }

  /** Lines 116-126 as written: starting at 50, the counts of `apply` summed
      over all turns. That is every zero landing, plus one for each left turn
      by 0 taken with the dial at 0. */
  method Answer(turns: seq<Turn>) returns (count: nat)
    ensures count == Landings(StartPos, turns) + IdleAtZero(StartPos, turns)
  {
    var pos := StartPos;
    count := 0;
    var i := 0;
    while i < |turns|
      invariant 0 <= i <= |turns| && OnDial(pos)
      invariant count + Landings(pos, turns[i..]) + IdleAtZero(pos, turns[i..]) == Landings(StartPos, turns) + IdleAtZero(StartPos, turns)
    {
      assert turns[i..][0] == turns[i] && turns[i..][1..] == turns[i + 1..];
      var moved := ApplyCounting(pos, turns[i]);
      ApplyCountingSplit(pos, turns[i]);
      count := count + moved.passes;
      pos := moved.pos;
      i := i + 1;
    }
  }

  /** Lines 116-126 with the corrected turn: starting at 50, the count is
      exactly the zero landings summed over all turns. */
  method CorrectedAnswer(turns: seq<Turn>) returns (count: nat)
    ensures count == Landings(StartPos, turns)
  {
    var pos := StartPos;
    count := 0;
    var i := 0;
    while i < |turns|
      invariant 0 <= i <= |turns| && OnDial(pos)
      invariant count + Landings(pos, turns[i..]) == Landings(StartPos, turns)
    {
      assert turns[i..][0] == turns[i] && turns[i..][1..] == turns[i + 1..];
      var moved := Turned(pos, turns[i]);
      TurnedCounts(pos, turns[i]);
      count := count + moved.passes;
      pos := moved.pos;
      i := i + 1;
    }
  }

  /** From 50, `L50` then `L0` leaves the dial at 0 and turns it by 0 there:
      one click lands on 0, but the program counts two. */
  lemma IdleTurnCountsTwice()
    ensures Landings(StartPos, [Left(50), Left(0)]) == 1
    ensures IdleAtZero(StartPos, [Left(50), Left(0)]) == 1
  {
    var turns := [Left(50), Left(0)];
    ZeroClicksCount(StartPos, true, 50);
    assert Apply(StartPos, Left(50)) == 0;
    assert turns[1..] == [Left(0)];
    assert turns[1..][1..] == [];
  }
}
