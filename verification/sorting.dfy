/** Stable sorting by an integer key, as `sorted_by_key` and `sorted` do:
    each element is inserted after every element already placed whose key
    is no larger, so elements with equal keys keep their order. */
module Sorting {

  predicate SortedBy<T>(s: seq<T>, key: T -> int)
  {
    forall i, j | 0 <= i < j < |s| :: key(s[i]) <= key(s[j])
  }

  /** Where `x` goes in `s`: after every element whose key is at most its own. */
  function InsertAt<T>(s: seq<T>, x: T, key: T -> int): (k: nat)
    requires SortedBy(s, key)
    ensures k <= |s|
    ensures forall i | 0 <= i < k :: key(s[i]) <= key(x)
    ensures forall i | k <= i < |s| :: key(x) < key(s[i])
    decreases |s|
  {
    if s == [] || key(s[|s| - 1]) <= key(x) then |s|
    else InsertAt(s[..|s| - 1], x, key)
  }

  function Insert<T>(s: seq<T>, x: T, key: T -> int): (r: seq<T>)
    requires SortedBy(s, key)
    ensures SortedBy(r, key)
    ensures multiset(r) == multiset(s) + multiset{x}
  {
    var k := InsertAt(s, x, key);
    assert s == s[..k] + s[k..];
    s[..k] + [x] + s[k..]
  }

  /** The elements of `s` in non-decreasing key order, a rearrangement of `s`. */
  function SortBy<T>(s: seq<T>, key: T -> int): (r: seq<T>)
    ensures SortedBy(r, key)
    ensures multiset(r) == multiset(s)
    decreases |s|
  {
    if s == [] then []
    else
      var front := s[..|s| - 1];
      assert s == front + [s[|s| - 1]];
      Insert(SortBy(front, key), s[|s| - 1], key)
  }

  /** The elements of `s` whose key is `v`, in their order in `s`. */
  function WithKey<T>(s: seq<T>, key: T -> int, v: int): seq<T>
    decreases |s|
  {
    if s == [] then []
    else WithKey(s[..|s| - 1], key, v) + if key(s[|s| - 1]) == v then [s[|s| - 1]] else []
  }

  lemma {:induction false} WithKeyAppend<T>(a: seq<T>, b: seq<T>, key: T -> int, v: int)
    ensures WithKey(a + b, key, v) == WithKey(a, key, v) + WithKey(b, key, v)
    decreases |b|
  {
    if b == [] {
      assert a + b == a;
    } else {
      var front := b[..|b| - 1];
      assert (a + b)[..|a + b| - 1] == a + front;
      WithKeyAppend(a, front, key, v);
    }
  }

  lemma {:induction false} WithKeyNone<T>(s: seq<T>, key: T -> int, v: int)
    requires forall i | 0 <= i < |s| :: key(s[i]) != v
    ensures WithKey(s, key, v) == []
    decreases |s|
  {
    if s != [] {
      WithKeyNone(s[..|s| - 1], key, v);
    }
  }

  /** Inserting `x` puts it after every element with its key. */
  lemma InsertStable<T>(s: seq<T>, x: T, key: T -> int, v: int)
    requires SortedBy(s, key)
    ensures WithKey(Insert(s, x, key), key, v) == WithKey(s, key, v) + if key(x) == v then [x] else []
  {
    var k := InsertAt(s, x, key);
    assert s == s[..k] + s[k..];
    WithKeyAppend(s[..k] + [x], s[k..], key, v);
    WithKeyAppend(s[..k], [x], key, v);
    WithKeyAppend(s[..k], s[k..], key, v);
    assert [x][..0] == [];
    if key(x) == v {
      WithKeyNone(s[k..], key, v);
    }
  }

  /** Sorting is stable: the elements with any one key keep their order. */
  lemma {:induction false} SortByStable<T>(s: seq<T>, key: T -> int, v: int)
    ensures WithKey(SortBy(s, key), key, v) == WithKey(s, key, v)
    decreases |s|
  {
    if s != [] {
      var front := s[..|s| - 1];
      SortByStable(front, key, v);
      InsertStable(SortBy(front, key), s[|s| - 1], key, v);
    }
  }

  /** A rearrangement keeps the length and the elements. */
  lemma SortByElements<T>(s: seq<T>, key: T -> int, x: T)
    ensures |SortBy(s, key)| == |s|
    ensures x in SortBy(s, key) <==> x in s
  {
    var r := SortBy(s, key);
    assert |r| == |multiset(r)| == |multiset(s)| == |s|;
    assert x in r <==> x in multiset(r);
    assert x in s <==> x in multiset(s);
  }

  /** A prefix of the sorted elements holds the smallest keys: an element
      left out has a key no smaller than one taken. */
  lemma SortedPrefixSmallest<T>(s: seq<T>, key: T -> int, k: nat)
    requires k <= |s|
    ensures |SortBy(s, key)| == |s|
    ensures forall x, y | x in SortBy(s, key)[..k] && y in s :: key(x) <= key(y) || y in SortBy(s, key)[..k]
  {
    var sorted := SortBy(s, key);
    assert |sorted| == |multiset(sorted)| == |s|;
    forall x, y | x in sorted[..k] && y in s
      ensures key(x) <= key(y) || y in sorted[..k]
    {
      assert y in multiset(sorted);
      var i :| 0 <= i < k && sorted[i] == x;
      var j :| 0 <= j < |sorted| && sorted[j] == y;
      if j < k {
        assert sorted[..k][j] == y;
      }
    }
  }

  function Reverse<T>(s: seq<T>): (r: seq<T>)
    ensures |r| == |s| && forall i | 0 <= i < |s| :: r[i] == s[|s| - 1 - i]
  {
    seq(|s|, i requires 0 <= i < |s| => s[|s| - 1 - i])
  }

  lemma {:induction false} ReverseMultiset<T>(s: seq<T>)
    ensures multiset(Reverse(s)) == multiset(s)
    decreases |s|
  {
    if s != [] {
      var front := s[..|s| - 1];
      ReverseMultiset(front);
      assert Reverse(s) == [s[|s| - 1]] + Reverse(front);
      assert s == front + [s[|s| - 1]];
    }
  }

  /** `sorted_by_key(key).rev()`: the elements of `s`, largest key first;
      elements with equal keys come out in the reverse of their order in `s`. */
  function SortDescBy<T>(s: seq<T>, key: T -> int): (r: seq<T>)
    ensures multiset(r) == multiset(s)
    ensures forall i, j | 0 <= i < j < |r| :: key(r[j]) <= key(r[i])
  {
    var sorted := SortBy(s, key);
    ReverseMultiset(sorted);
    var r := Reverse(sorted);
    assert forall i, j | 0 <= i < j < |r| :: key(r[j]) <= key(r[i]) by {
      forall i, j | 0 <= i < j < |r|
        ensures key(r[j]) <= key(r[i])
      {
        assert key(sorted[|sorted| - 1 - j]) <= key(sorted[|sorted| - 1 - i]);
      }
    }
    r
  }

  lemma ReverseAppend<T>(a: seq<T>, b: seq<T>)
    ensures Reverse(a + b) == Reverse(b) + Reverse(a)
  {
    var r, l := Reverse(a + b), Reverse(b) + Reverse(a);
    assert |r| == |l|;
    forall i | 0 <= i < |r|
      ensures r[i] == l[i]
    {
      if i < |b| {
        assert l[i] == Reverse(b)[i];
      } else {
        assert l[i] == Reverse(a)[i - |b|];
      }
    }
  }

  /** Reversing reverses the elements with any one key. */
  lemma {:induction false} WithKeyReverse<T>(s: seq<T>, key: T -> int, v: int)
    ensures WithKey(Reverse(s), key, v) == Reverse(WithKey(s, key, v))
    decreases |s|
  {
    if s != [] {
      var front, last := s[..|s| - 1], s[|s| - 1];
      var t := if key(last) == v then [last] else [];
      assert s == front + [last];
      ReverseAppend(front, [last]);
      assert Reverse(s) == [last] + Reverse(front);
      WithKeyReverse(front, key, v);
      WithKeyAppend([last], Reverse(front), key, v);
      assert [last][..0] == [];
      assert WithKey([last], key, v) == t;
      ReverseAppend(WithKey(front, key, v), t);
      assert Reverse(t) == t;
    }
  }

  /** Largest key first; the elements with any one key come out in the
      reverse of their order in `s`. */
  lemma SortDescStable<T>(s: seq<T>, key: T -> int, v: int)
    ensures WithKey(SortDescBy(s, key), key, v) == Reverse(WithKey(s, key, v))
  {
    SortByStable(s, key, v);
    WithKeyReverse(SortBy(s, key), key, v);
  }

  /** One instance of the order of `SortDescBy`. */
  lemma DescendingAt<T>(s: seq<T>, key: T -> int, i: nat, j: nat)
    requires i <= j < |SortDescBy(s, key)|
    ensures key(SortDescBy(s, key)[j]) <= key(SortDescBy(s, key)[i])
  {
  }
}
