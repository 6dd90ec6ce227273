/** The two interchangeable predecessor accumulators of the shortest-path
    engine: a single value that is overwritten, and a list that is appended to. */
module PrevPaths {

  /** Which accumulator a run stores next to each cost. */
  datatype Strategy = SingleBest | AllBest

  /** An accumulator value: one predecessor, or every tied one in arrival order. */
  datatype Prev = One(node: int) | Many(nodes: seq<int>)

  /** The predecessors an accumulator records, oldest first. */
  function Recorded(p: Prev): seq<int>
  {
    match p
    case One(v) => [v]
    case Many(vs) => vs
  }

  /** The accumulator has the shape its strategy produces. */
  predicate Fits(s: Strategy, p: Prev)
  {
    match s
    case SingleBest => p.One?
    case AllBest => p.Many?
  }

  /** `init(v)`: a fresh accumulator naming `v` alone. */
  function Init(s: Strategy, v: int): (p: Prev)
    ensures Fits(s, p)
    ensures Recorded(p) == [v]
  {
    match s
    case SingleBest => One(v)
    case AllBest => Many([v])
  }

  /** `append(v)`: the single value is overwritten, the list grows at its end. */
  function Append(p: Prev, v: int): (r: Prev)
    ensures r.One? == p.One?
    ensures p.One? ==> Recorded(r) == [v]
    ensures p.Many? ==> Recorded(r) == Recorded(p) + [v]
  {
    match p
    case One(_) => One(v)
    case Many(vs) => Many(vs + [v])
  }

  /** Appends each of `vs` in turn. */
  function AppendAll(p: Prev, vs: seq<int>): Prev
    decreases |vs|
  {
    if vs == [] then p else AppendAll(Append(p, vs[0]), vs[1..])
  }

  /** Fed the same values, the list keeps all of them in order and the single
      accumulator holds the last one the list holds. */
  lemma {:induction false} SingleKeepsLastOfAll(v: int, vs: seq<int>)
    ensures Recorded(AppendAll(Init(AllBest, v), vs)) == [v] + vs
    ensures AppendAll(Init(SingleBest, v), vs) == One(([v] + vs)[|vs|])
    decreases |vs|
  {
    if vs != [] {
      SingleKeepsLastOfAll(vs[0], vs[1..]);
      AllAppendShift(Many([v]), vs);
      assert AppendAll(Init(SingleBest, v), vs) == AppendAll(One(vs[0]), vs[1..]);
      assert ([v] + vs)[|vs|] == ([vs[0]] + vs[1..])[|vs[1..]|];
    }
  }

  lemma {:induction false} AllAppendShift(p: Prev, vs: seq<int>)
    requires p.Many?
    ensures Recorded(AppendAll(p, vs)) == Recorded(p) + vs
    decreases |vs|
  {
    if vs != [] {
      AllAppendShift(Append(p, vs[0]), vs[1..]);
      assert Recorded(p) + [vs[0]] + vs[1..] == Recorded(p) + vs;
    }
  }
}
