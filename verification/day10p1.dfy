/** The light-toggling puzzle: a goal pattern of lights, all starting off,
    and buttons that each toggle a list of lights. States are bit masks in
    an `i32`; the shortest-path engine explores them with one unit-cost edge
    per button, and the answer sums the fewest presses that reach each goal. */
module Day10P1 {
  import opened Wrappers
  import opened Bits
  import opened Graph
  import opened PrevPaths
  import opened Dijkstra
  import opened PathWalks

  /** A puzzle line: the goal pattern and each button's light indices.
      (The joltage list is parsed but unused by this part.) */
  datatype Puzzle = Puzzle(goal: seq<bool>, buttons: seq<seq<nat>>)

  /** The width of the program's `i32` state. */
  const Width: nat := 32

  /** Shifting by `Width` or more overflows, so every index stays below it. */
  predicate Valid(p: Puzzle)
  {
    |p.goal| <= Width && forall b, i | b in p.buttons && i in b :: i < Width
  }

  /** Lines 86-94 from light `n` on: `r ^= 1 << n` for each lit light. */
  function InitFrom(goal: seq<bool>, n: nat, r: int): (s: int)
    requires n <= |goal|
    ensures forall j: nat :: Bit(s, j) == if n <= j < |goal| then Bit(r, j) != goal[j] else Bit(r, j)
    decreases |goal| - n
  {
    if n == |goal| then r
    else InitFrom(goal, n + 1, if goal[n] then Toggle(r, n) else r)
  }

  /** Lines 86-94: the goal pattern as a bit mask, light `n` at bit `n`. */
  function InitState(goal: seq<bool>): (s: int)
    ensures forall j: nat :: Bit(s, j) == (j < |goal| && goal[j])
  {
    ZeroBitsAll();
    InitFrom(goal, 0, 0)
  }

  lemma ZeroBitsAll()
    ensures forall j: nat :: !Bit(0, j)
  {
    forall j: nat
      ensures !Bit(0, j)
    {
      ZeroBits(j);
    }
  }

  /** The lights a mask encodes, light `j` at bit `j`. */
  function Lights(s: int, len: nat): (g: seq<bool>)
    ensures |g| == len && forall j | 0 <= j < len :: g[j] == Bit(s, j)
  {
    seq(len, j requires 0 <= j < len => Bit(s, j))
  }

  /** Encoding and decoding the goal pattern are inverse. */
  lemma LightsRoundTrip(goal: seq<bool>, s: int)
    ensures Lights(InitState(goal), |goal|) == goal
    ensures 0 <= s < Pow2(|goal|) ==> InitState(Lights(s, |goal|)) == s
  {
    if 0 <= s < Pow2(|goal|) {
      var t := InitState(Lights(s, |goal|));
      forall j: nat
        ensures Bit(t, j) == Bit(s, j)
      {
        if j >= |goal| {
          HighBitsClear(s, |goal|, j);
        }
      }
      SameBits(t, s);
    }
  }

  /** The bit masks an `i32` holds, read as unsigned. The bounds make the
      set finite; `Mask(s)` gives its quantifier a trigger. */
  ghost function Universe(): (u: set<int>)
    ensures forall s :: s in u <==> Mask(s)
  {
    set s | 0 <= s < Pow2(Width) && Mask(s)
  }

  predicate Mask(s: int)
  {
    0 <= s < Pow2(Width)
  }

  /** Lines 108-112: one press toggles each listed light in turn. */
  function Press(s: int, button: seq<nat>): int
    decreases |button|
  {
    if button == [] then s else Press(Toggle(s, button[0]), button[1..])
  }

  /** A press flips exactly the lights listed an odd number of times. */
  lemma {:induction false} PressBits(s: int, button: seq<nat>)
    ensures forall j: nat :: Bit(Press(s, button), j) == (Bit(s, j) != (multiset(button)[j] % 2 == 1))
    decreases |button|
  {
    if button != [] {
      var t := Toggle(s, button[0]);
      var rest := button[1..];
      PressBits(t, rest);
      assert button == [button[0]] + rest;
      forall j: nat
        ensures Bit(Press(s, button), j) == (Bit(s, j) != (multiset(button)[j] % 2 == 1))
      {
        var whole: multiset<nat> := multiset(button);
        var tail: multiset<nat> := multiset(rest);
        assert whole[j] == tail[j] + (if j == button[0] then 1 else 0);
        Parity(tail[j], j == button[0]);
      }
    }
  }

  /** Counting one more flips the parity. */
  lemma Parity(m: nat, b: bool)
    ensures ((m + if b then 1 else 0) % 2 == 1) == ((m % 2 == 1) != b)
  {
  }

  /** Pressing the same button twice restores the lights. */
  lemma PressTwice(s: int, button: seq<nat>)
    ensures Press(Press(s, button), button) == s
  {
    PressBits(s, button);
    PressBits(Press(s, button), button);
    SameBits(Press(Press(s, button), button), s);
  }

  /** Presses of different buttons commute. */
  lemma PressCommutes(s: int, a: seq<nat>, b: seq<nat>)
    ensures Press(Press(s, a), b) == Press(Press(s, b), a)
  {
    PressBits(s, a);
    PressBits(s, b);
    PressBits(Press(s, a), b);
    PressBits(Press(s, b), a);
    SameBits(Press(Press(s, a), b), Press(Press(s, b), a));
  }

  lemma {:induction false} PressInRange(s: int, button: seq<nat>)
    requires 0 <= s < Pow2(Width) && forall i | i in button :: i < Width
    ensures 0 <= Press(s, button) < Pow2(Width)
    decreases |button|
  {
    if button != [] {
      assert button[0] in button;
      ToggleInRange(s, button[0], Width);
      assert forall i | i in button[1..] :: i in button;
      PressInRange(Toggle(s, button[0]), button[1..]);
    }
  }

  /** Lines 104-116: one unit-cost edge per button, in button order. */
  function Adjacent(buttons: seq<seq<nat>>): (adj: Adjacency)
    ensures forall s :: |adj(s)| == |buttons|
    ensures forall s, i | 0 <= i < |buttons| :: adj(s)[i] == Edge(1, Press(s, buttons[i]))
  {
    s => seq(|buttons|, i requires 0 <= i < |buttons| => Edge(1, Press(s, buttons[i])))
  }

  lemma AdjacentClosed(p: Puzzle)
    requires Valid(p)
    ensures Closed(Adjacent(p.buttons), Universe()) && UnitCosts(Adjacent(p.buttons), Universe())
  {
    var adj := Adjacent(p.buttons);
    forall n, i | n in Universe() && 0 <= i < |adj(n)|
      ensures adj(n)[i].to in Universe()
    {
      PressInRange(n, p.buttons[i]);
    }
  }

  // ---------------------------------------------------------------------------
  // Presses as the puzzle means them

  /** The lights after pressing the buttons numbered `idxs`, in order. */
  function PressAll(s: int, buttons: seq<seq<nat>>, idxs: seq<nat>): int
    requires forall k | 0 <= k < |idxs| :: idxs[k] < |buttons|
    decreases |idxs|
  {
    if idxs == [] then s
    else Press(PressAll(s, buttons, idxs[..|idxs| - 1]), buttons[idxs[|idxs| - 1]])
  }

  predicate Pressable(buttons: seq<seq<nat>>, idxs: seq<nat>)
  {
    forall k | 0 <= k < |idxs| :: idxs[k] < |buttons|
  }

  /** Some `k` or fewer presses reach the state `n`. */
  ghost predicate ReachedWithin(buttons: seq<seq<nat>>, k: nat, n: int)
  {
    exists idxs: seq<nat> | Pressable(buttons, idxs) :: |idxs| <= k && PressAll(0, buttons, idxs) == n
  }

  /** The states within `k` steps are those some `k` or fewer presses reach. */
  lemma LayerIsPresses(buttons: seq<seq<nat>>, k: nat, n: int)
    ensures n in Layer(Adjacent(buttons), 0, k) <==> ReachedWithin(buttons, k, n)
  {
    if n in Layer(Adjacent(buttons), 0, k) {
      assert PressGraph(Adjacent(buttons), buttons);
      LayerHasPresses(Adjacent(buttons), buttons, k, n);
    }
    if ReachedWithin(buttons, k, n) {
      var idxs: seq<nat> :| Pressable(buttons, idxs) && |idxs| <= k && PressAll(0, buttons, idxs) == n;
      PressesInLayer(buttons, idxs);
      LayerMonotone(Adjacent(buttons), 0, |idxs|, k);
    }
  }

  /** `adj` has one edge per button, leading to the state that button gives. */
  ghost predicate PressGraph(adj: Adjacency, buttons: seq<seq<nat>>)
  {
    && (forall s :: |adj(s)| == |buttons|)
    && (forall s, i | 0 <= i < |buttons| :: adj(s)[i].to == Press(s, buttons[i]))
  }

  lemma {:induction false} LayerHasPresses(adj: Adjacency, buttons: seq<seq<nat>>, k: nat, n: int)
    requires PressGraph(adj, buttons)
    requires n in Layer(adj, 0, k)
    ensures ReachedWithin(buttons, k, n)
    decreases k
  {
    if k == 0 {
      ReachedAtStart(buttons);
    } else if n in Layer(adj, 0, k - 1) {
      LayerHasPresses(adj, buttons, k - 1, n);
      ReachedWithinGrows(buttons, k - 1, n);
    } else {
      var m, i := LayerPredecessor(adj, 0, k, n);
      LayerHasPresses(adj, buttons, k - 1, m);
      EdgeHasPresses(adj, buttons, k, m, i);
    }
  }

  /** No presses leave the lights off. */
  lemma ReachedAtStart(buttons: seq<seq<nat>>)
    ensures ReachedWithin(buttons, 0, 0)
  {
    var none: seq<nat> := [];
    assert Pressable(buttons, none) && PressAll(0, buttons, none) == 0;
  }

  /** Following edge `i` of the press graph is pressing button `i`. */
  lemma EdgeHasPresses(adj: Adjacency, buttons: seq<seq<nat>>, k: nat, m: int, i: int)
    requires k > 0 && PressGraph(adj, buttons) && ReachedWithin(buttons, k - 1, m) && 0 <= i < |adj(m)|
    ensures ReachedWithin(buttons, k, adj(m)[i].to)
  {
    StepHasPresses(buttons, k - 1, m, i);
  }

  lemma ReachedWithinGrows(buttons: seq<seq<nat>>, k: nat, n: int)
    requires ReachedWithin(buttons, k, n)
    ensures ReachedWithin(buttons, k + 1, n)
  {
    var idxs: seq<nat> :| Pressable(buttons, idxs) && |idxs| <= k && PressAll(0, buttons, idxs) == n;
    assert |idxs| <= k + 1;
  }

  lemma StepHasPresses(buttons: seq<seq<nat>>, k: nat, m: int, i: int)
    requires ReachedWithin(buttons, k, m) && 0 <= i < |buttons|
    ensures ReachedWithin(buttons, k + 1, Press(m, buttons[i]))
  {
    var idxs: seq<nat> :| Pressable(buttons, idxs) && |idxs| <= k && PressAll(0, buttons, idxs) == m;
    var more := PressOneMore(buttons, idxs, i);
  }

  /** One more press after `idxs`. */
  lemma PressOneMore(buttons: seq<seq<nat>>, idxs: seq<nat>, i: nat) returns (more: seq<nat>)
    requires Pressable(buttons, idxs) && i < |buttons|
    ensures Pressable(buttons, more) && |more| == |idxs| + 1
    ensures PressAll(0, buttons, more) == Press(PressAll(0, buttons, idxs), buttons[i])
  {
    more := idxs + [i];
    assert more[..|more| - 1] == idxs;
  }

  lemma {:induction false} PressesInLayer(buttons: seq<seq<nat>>, idxs: seq<nat>)
    requires Pressable(buttons, idxs)
    ensures PressAll(0, buttons, idxs) in Layer(Adjacent(buttons), 0, |idxs|)
    decreases |idxs|
  {
    if idxs != [] {
      var front := idxs[..|idxs| - 1];
      PressesInLayer(buttons, front);
      LayerStep(Adjacent(buttons), 0, |front|, PressAll(0, buttons, front), idxs[|idxs| - 1]);
    }
  }

  /** `k` presses reach the goal and no fewer do. */
  ghost predicate Fewest(p: Puzzle, k: nat)
  {
    && (exists idxs: seq<nat> | Pressable(p.buttons, idxs) :: |idxs| == k && PressAll(0, p.buttons, idxs) == InitState(p.goal))
    && (forall idxs: seq<nat> | Pressable(p.buttons, idxs) && PressAll(0, p.buttons, idxs) == InitState(p.goal) :: |idxs| >= k)
  }

  /** Fewest presses are fewest hops in the button graph. */
  lemma FewestIsMinHops(p: Puzzle, k: nat)
    ensures MinHops(Adjacent(p.buttons), 0, InitState(p.goal), k) <==> Fewest(p, k)
  {
    var g := InitState(p.goal);
    LayerIsPresses(p.buttons, k, g);
    if MinHops(Adjacent(p.buttons), 0, g, k) {
      var idxs: seq<nat> :| Pressable(p.buttons, idxs) && |idxs| <= k && PressAll(0, p.buttons, idxs) == g;
      if |idxs| < k {
        LayerIsPresses(p.buttons, |idxs|, g);
      }
      forall other: seq<nat> | Pressable(p.buttons, other) && PressAll(0, p.buttons, other) == g
        ensures |other| >= k
      {
        if |other| < k {
          LayerIsPresses(p.buttons, |other|, g);
        }
      }
    }
    if Fewest(p, k) {
      forall j: nat | j < k
        ensures g !in Layer(Adjacent(p.buttons), 0, j)
      {
        LayerIsPresses(p.buttons, j, g);
      }
    }
  }

  /** Lines 131-137 for one puzzle: run from the all-off state with cost 0,
      then the length of the extracted path. `None` where the program
      panics: the goal was never reached, so its table entry is missing. */
  method FewestPresses(p: Puzzle) returns (r: Option<nat>)
    requires Valid(p)
    ensures r.Some? <==> Solvable(p)
    ensures r.Some? ==> Fewest(p, r.value)
  {
    var adj := Adjacent(p.buttons);
    var goal := InitState(p.goal);
    AdjacentClosed(p);
    assert 0 in Universe();
    var table, rank, popped := Run(adj, Universe(), SingleBest, Item(0, 0));
    var path := ExtractPath(adj, 0, 0, goal, table, rank);
    if goal in table {
      ExtractFromRoot(adj, 0, goal, table, rank);
      r := Some(|path.value|);
      FewestIsMinHops(p, r.value);
    } else {
      r := None;
      forall k: nat
        ensures !Fewest(p, k)
      {
        FewestIsMinHops(p, k);
      }
    }
  }

  /** The goal can be reached at all. */
  ghost predicate Solvable(p: Puzzle)
  {
    exists k: nat :: Fewest(p, k)
  }

  lemma FewestUnique(p: Puzzle, a: nat, b: nat)
    requires Fewest(p, a) && Fewest(p, b)
    ensures a == b
  {
  }

  ghost function FewestOf(p: Puzzle): nat
    requires Solvable(p)
  {
    var k: nat :| Fewest(p, k); k
  }

  /** The sum of the fewest presses over all puzzles. */
  ghost function TotalFewest(ps: seq<Puzzle>): nat
    requires forall p | p in ps :: Solvable(p)
    decreases |ps|
  {
    if ps == [] then 0
    else
      assert forall p | p in ps[..|ps| - 1] :: p in ps;
      TotalFewest(ps[..|ps| - 1]) + FewestOf(ps[|ps| - 1])
  }

  /** Adding one solved puzzle to the prefix adds its fewest presses to the total. */
  lemma TotalStep(ps: seq<Puzzle>, i: nat, v: nat)
    requires i < |ps| && (forall p | p in ps[..i] :: Solvable(p)) && Fewest(ps[i], v)
    ensures forall p | p in ps[..i + 1] :: Solvable(p)
    ensures TotalFewest(ps[..i + 1]) == TotalFewest(ps[..i]) + v
  {
    assert ps[..i + 1] == ps[..i] + [ps[i]];
    FewestUnique(ps[i], v, FewestOf(ps[i]));
    assert ps[..i + 1][..i] == ps[..i];
  }

  /** Lines 124-140: the sum over all puzzles of the extracted path lengths;
      `None` where the program panics on an unreachable goal. */
  method Answer(puzzles: seq<Puzzle>) returns (r: Option<nat>)
    requires forall p | p in puzzles :: Valid(p)
    ensures r.Some? <==> forall p | p in puzzles :: Solvable(p)
    ensures r.Some? ==> r.value == TotalFewest(puzzles)
  {
    var count := 0;
    var i := 0;
    while i < |puzzles|
      invariant 0 <= i <= |puzzles|
      invariant forall p | p in puzzles[..i] :: Solvable(p)
      invariant count == TotalFewest(puzzles[..i])
    {
      var presses := FewestPresses(puzzles[i]);
      if presses.None? {
        assert puzzles[i] in puzzles && !Solvable(puzzles[i]);
        return None;
      }
      TotalStep(puzzles, i, presses.value);
      count := count + presses.value;
      i := i + 1;
    }
    assert puzzles[..i] == puzzles;
    r := Some(count);
  }
}
