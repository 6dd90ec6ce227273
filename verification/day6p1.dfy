/** The cephalopod math worksheet: rows of numbers with one operator per
    column; each column is added up or multiplied out, and the answer sums
    the column results. */
module Day6P1 {
  import opened Wrappers

  datatype Op = Add | Mult

  /** Lines 87-90: where a column's fold starts. */
  function Identity(op: Op): nat
  {
    match op
    case Add => 0
    case Mult => 1
  }

  /** Lines 93-96: one entry folded in. */
  function Combine(op: Op, acc: nat, x: nat): nat
  {
    match op
    case Add => acc + x
    case Mult => acc * x
  }

  /** Lines 87-97 (and lines 136-139 of the second reading): the entries
      folded in from first to last. */
  function Fold(op: Op, xs: seq<nat>): nat
    decreases |xs|
  {
    if xs == [] then Identity(op)
    else Combine(op, Fold(op, xs[..|xs| - 1]), xs[|xs| - 1])
  }

  /** The sum of a list, first entry first. */
  function Sum(xs: seq<nat>): nat
    decreases |xs|
  {
    if xs == [] then 0 else xs[0] + Sum(xs[1..])
  }

  /** The product of a list, first entry first. */
  function Product(xs: seq<nat>): nat
    decreases |xs|
  {
    if xs == [] then 1 else xs[0] * Product(xs[1..])
  }

  lemma {:induction false} SumAppend(xs: seq<nat>, x: nat)
    ensures Sum(xs + [x]) == Sum(xs) + x
    decreases |xs|
  {
    if xs != [] {
      assert (xs + [x])[1..] == xs[1..] + [x];
      SumAppend(xs[1..], x);
    }
  }

  lemma {:induction false} ProductAppend(xs: seq<nat>, x: nat)
    ensures Product(xs + [x]) == Product(xs) * x
    decreases |xs|
  {
    if xs != [] {
      assert (xs + [x])[1..] == xs[1..] + [x];
      ProductAppend(xs[1..], x);
      MulAssoc(xs[0], Product(xs[1..]), x);
    }
  }

  lemma MulAssoc(a: nat, b: nat, c: nat)
    ensures a * (b * c) == (a * b) * c
  {
  }

  /** An addition column folds to the sum of its entries, a multiplication
      column to their product. */
  lemma {:induction false} FoldIsSumOrProduct(op: Op, xs: seq<nat>)
    ensures Fold(op, xs) == if op == Add then Sum(xs) else Product(xs)
    decreases |xs|
  {
    if xs != [] {
      var front := xs[..|xs| - 1];
      FoldIsSumOrProduct(op, front);
      assert xs == front + [xs[|xs| - 1]];
      SumAppend(front, xs[|xs| - 1]);
      ProductAppend(front, xs[|xs| - 1]);
    }
  }

  /** A column of one entry is that entry, whichever the operator. */
  lemma FoldSingle(op: Op, x: nat)
    ensures Fold(op, [x]) == x
  {
    assert [x][..0] == [];
  }

  /** Every row as long as the first. */
  predicate Rectangular<T>(rows: seq<seq<T>>)
  {
    forall i | 0 <= i < |rows| :: |rows[i]| == |rows[0]|
  }

  /** Lines 72-79: the length fold, `acc` holding the first row's length once
      seen; false when an `assert!` of line 74 fails. */
  function LengthsAgree<T>(rows: seq<seq<T>>, acc: Option<nat>): (ok: bool)
    ensures acc.None? ==> (ok <==> Rectangular(rows))
    ensures acc.Some? ==> (ok <==> forall i | 0 <= i < |rows| :: |rows[i]| == acc.value)
    decreases |rows|
  {
    if rows == [] then true
    else
      assert forall i | 1 <= i < |rows| :: rows[i] == rows[1..][i - 1];
      match acc
      case None => LengthsAgree(rows[1..], Some(|rows[0]|))
      case Some(len) => |rows[0]| == len && LengthsAgree(rows[1..], acc)
  }

  /** The entries of column `col`, top to bottom. */
  function Column(nums: seq<seq<nat>>, col: nat): (c: seq<nat>)
    requires forall i | 0 <= i < |nums| :: col < |nums[i]|
    ensures |c| == |nums| && forall i | 0 <= i < |nums| :: c[i] == nums[i][col]
  {
    seq(|nums|, i requires 0 <= i < |nums| => nums[i][col])
  }

  /** The worksheet is well formed: rows of one length, one operator per column. */
  predicate WellShaped(nums: seq<seq<nat>>, ops: seq<Op>)
  {
    nums != [] && Rectangular(nums) && |ops| == |nums[0]|
  }

  /** The reference answer over the first `n` columns: each column's sum or
      product, added up. */
  ghost function Grand(nums: seq<seq<nat>>, ops: seq<Op>, n: nat): nat
    requires WellShaped(nums, ops) && n <= |ops|
    decreases n
  {
    if n == 0 then 0
    else
      var col := Column(nums, n - 1);
      Grand(nums, ops, n - 1) + if ops[n - 1] == Add then Sum(col) else Product(col)
  }

  /** Lines 92-97: one column folded row by row. */
  method ColumnValue(nums: seq<seq<nat>>, op: Op, col: nat) returns (tmp: nat)
    requires forall i | 0 <= i < |nums| :: col < |nums[i]|
    ensures tmp == if op == Add then Sum(Column(nums, col)) else Product(Column(nums, col))
  {
    var c := Column(nums, col);
    tmp := Identity(op);
    for row := 0 to |nums|
      invariant tmp == Fold(op, c[..row])
    {
      assert c[..row + 1][..row] == c[..row];
      tmp := Combine(op, tmp, nums[row][col]);
    }
    assert c[..|nums|] == c;
    FoldIsSumOrProduct(op, c);
  }

  /** Lines 66-105: the shape checks, then every column's value summed. */
  method Answer(nums: seq<seq<nat>>, ops: seq<Op>) returns (r: Option<nat>)
    ensures r.None? <==> !WellShaped(nums, ops)
    ensures r.Some? ==> r.value == Grand(nums, ops, |ops|)
  {
    if !LengthsAgree(nums, None) || nums == [] || |ops| != |nums[0]| {
      return None;
    }
    var result := 0;
    for col := 0 to |ops|
      invariant result == Grand(nums, ops, col)
    {
      var tmp := ColumnValue(nums, ops[col], col);
      result := result + tmp;
    }
    return Some(result);
  }
}
