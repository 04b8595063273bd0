/**
 * The shape shared by the listing and history queries: SELECT a row for each
 * table entry the WHERE clause keeps, then ORDER BY a numeric key, ascending;
 * a descending clause uses the negated key. Rows with equal keys keep the
 * order in which they were selected, which is one of the orders the database
 * may return.
 */
module Queries {

  /** The rows `row` builds from the entries `keep` accepts, in table order. */
  function Select<T, R(!new)>(s: seq<T>, keep: T -> bool, row: T -> R): (r: seq<R>)
    ensures forall x :: x in r <==> exists i :: 0 <= i < |s| && keep(s[i]) && x == row(s[i])
    ensures |r| <= |s|
  {
    if s == [] then []
    else
      var rest := Select(s[1..], keep, row);
      assert forall i :: 1 <= i < |s| ==> s[i] == s[1..][i - 1];
      if keep(s[0]) then [row(s[0])] + rest else rest
  }

  /** Keys never decrease along `s`. */
  predicate SortedBy<T>(s: seq<T>, key: T -> real)
  {
    forall i, j :: 0 <= i < j < |s| ==> key(s[i]) <= key(s[j])
  }

  /** A row whose key is at most the first key of a sorted sequence can go in front of it. */
  lemma ConsSorted<T>(a: T, rest: seq<T>, key: T -> real)
    requires SortedBy(rest, key)
    requires rest != [] ==> key(a) <= key(rest[0])
    ensures SortedBy([a] + rest, key)
  {
    var r := [a] + rest;
    forall i, j | 0 <= i < j < |r|
      ensures key(r[i]) <= key(r[j])
    {
      if i > 0 {
        assert r[i] == rest[i - 1] && r[j] == rest[j - 1];
      } else {
        assert r[j] == rest[j - 1];
      }
    }
  }

  /** `x` placed in front of the first element whose key is not smaller. */
  function InsertBy<T>(x: T, s: seq<T>, key: T -> real): (r: seq<T>)
    requires SortedBy(s, key)
    ensures SortedBy(r, key)
    ensures multiset(r) == multiset(s) + multiset{x}
    ensures |r| == |s| + 1
    ensures r[0] == x || (s != [] && r[0] == s[0])
  {
    if s == [] then [x]
    else if key(x) <= key(s[0]) then
      ConsSorted(x, s, key);
      [x] + s
    else
      var tail := s[1..];
      assert s == [s[0]] + tail;
      var rest := InsertBy(x, tail, key);
      ConsSorted(s[0], rest, key);
      ConsAdds(s[0], tail, rest, x);
      [s[0]] + rest
  }

  /** Putting the same element in front keeps one multiset the other plus `x`. */
  lemma ConsAdds<T>(a: T, tail: seq<T>, rest: seq<T>, x: T)
    requires multiset(rest) == multiset(tail) + multiset{x}
    ensures multiset([a] + rest) == multiset([a] + tail) + multiset{x}
  {
    calc {
      multiset([a] + rest);
      multiset{a} + multiset(rest);
      multiset{a} + multiset(tail) + multiset{x};
      multiset([a] + tail) + multiset{x};
    }
  }

  /** The rows ordered by `key`: sorted, and the same rows as before. */
  function SortBy<T>(s: seq<T>, key: T -> real): (r: seq<T>)
    ensures SortedBy(r, key)
    ensures multiset(r) == multiset(s)
    ensures |r| == |s|
  {
    if s == [] then []
    else
      assert s == [s[0]] + s[1..];
      InsertBy(s[0], SortBy(s[1..], key), key)
  }

  /** Sorting keeps exactly the rows it was given. */
  lemma SortByMembers<T>(s: seq<T>, key: T -> real, x: T)
    ensures x in SortBy(s, key) <==> x in s
  {
    assert x in SortBy(s, key) <==> x in multiset(SortBy(s, key));
    assert x in s <==> x in multiset(s);
  }
}
