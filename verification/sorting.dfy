/**
 * The `OrderBy` / `OrderByDescending` of the listings, realised as insertion
 * into an already ordered sequence under a caller-supplied total preorder.
 */
module Sorting {

  ghost predicate Total<T(!new)>(le: (T, T) -> bool) {
    forall a, b :: le(a, b) || le(b, a)
  }

  ghost predicate Transitive<T(!new)>(le: (T, T) -> bool) {
    forall a, b, c :: le(a, b) && le(b, c) ==> le(a, c)
  }

  predicate SortedBy<T>(xs: seq<T>, le: (T, T) -> bool) {
    forall i, j :: 0 <= i < j < |xs| ==> le(xs[i], xs[j])
  }

  /** Inserts `x` before the first element it does not follow. */
  function InsertBy<T(!new)>(x: T, xs: seq<T>, le: (T, T) -> bool): (r: seq<T>)
    requires Total(le) && Transitive(le)
    requires SortedBy(xs, le)
    ensures SortedBy(r, le)
    ensures multiset(r) == multiset(xs) + multiset{x}
  {
    if |xs| == 0 then [x]
    else if le(x, xs[0]) then
      PrependSorted(x, xs, le);
      [x] + xs
    else
      var tail := xs[1..];
      var rest := InsertBy(x, tail, le);
      assert xs == [xs[0]] + tail;
      assert le(xs[0], x);
      forall y | y in rest ensures le(xs[0], y) {
        assert y in multiset(rest);
        if y != x {
          var j :| 0 <= j < |tail| && tail[j] == y;
          assert xs[j + 1] == y;
        }
      }
      PrependLeastSorted(xs[0], rest, le);
      [xs[0]] + rest
  }

  lemma PrependSorted<T(!new)>(x: T, xs: seq<T>, le: (T, T) -> bool)
    requires Transitive(le)
    requires SortedBy(xs, le) && |xs| > 0 && le(x, xs[0])
    ensures SortedBy([x] + xs, le)
  {
    forall y | y in xs ensures le(x, y) {
      var j :| 0 <= j < |xs| && xs[j] == y;
      if j > 0 {
        assert le(xs[0], xs[j]);
      }
    }
    PrependLeastSorted(x, xs, le);
  }

  lemma PrependLeastSorted<T>(x: T, xs: seq<T>, le: (T, T) -> bool)
    requires SortedBy(xs, le)
    requires forall y | y in xs :: le(x, y)
    ensures SortedBy([x] + xs, le)
  {
    var r := [x] + xs;
    forall i, j | 0 <= i < j < |r| ensures le(r[i], r[j]) {
      if i == 0 {
        assert r[j] == xs[j - 1];
      } else {
        assert r[i] == xs[i - 1] && r[j] == xs[j - 1];
      }
    }
  }

  /** A sequence with the same multiset as a set holds exactly the set's elements. */
  lemma MultisetMembers<T>(xs: seq<T>, s: set<T>)
    requires multiset(xs) == multiset(s)
    ensures forall x :: x in xs <==> x in s
  {
    forall x ensures x in xs <==> x in s {
      assert x in xs <==> x in multiset(xs);
    }
  }
}
