/** `enumerate().combinations(2)` followed by a map to a number: every
    unordered pair of positions in a list, the lower position first, in the
    order itertools produces them, with the number the pair is given. */
module Pairing {

  /** Two positions in the list, `a < b`, and the number for the pair. */
  datatype Pair = Pair(a: nat, b: nat, value: int)

  function Value(p: Pair): int
  {
    p.value
  }

  /** Position `i` paired with positions `j .. |xs| - 1`. */
  function Row<T>(xs: seq<T>, f: (T, T) -> int, i: nat, j: nat): (r: seq<Pair>)
    requires i < |xs|
    ensures forall p :: p in r <==> p.a == i && j <= p.b < |xs| && p.value == f(xs[i], xs[p.b])
    decreases |xs| - j
  {
    if j >= |xs| then []
    else [Pair(i, j, f(xs[i], xs[j]))] + Row(xs, f, i, j + 1)
  }

  /** Every pair whose lower position is `i` or more, row by row. */
  function Combos<T>(xs: seq<T>, f: (T, T) -> int, i: nat): (r: seq<Pair>)
    ensures forall p :: p in r <==> i <= p.a < p.b < |xs| && p.value == f(xs[p.a], xs[p.b])
    decreases |xs| - i
  {
    if i >= |xs| then []
    else Row(xs, f, i, i + 1) + Combos(xs, f, i + 1)
  }

  /** There is a pair exactly when there are two elements. */
  lemma CombosExist<T>(xs: seq<T>, f: (T, T) -> int)
    ensures Combos(xs, f, 0) != [] <==> |xs| >= 2
  {
    if |xs| >= 2 {
      assert Pair(0, 1, f(xs[0], xs[1])) in Combos(xs, f, 0);
    } else if |xs| == 1 {
      assert Row(xs, f, 0, 1) == [] && Combos(xs, f, 1) == [];
    }
  }
}
