/** `DataFrame.sort_values(col, ascending=False)` over a real-valued
    column. pandas' default quicksort does not fix the order of equal keys;
    this model keeps their input order (a stable insertion sort), one of
    the orders pandas may produce. */
module Sorting {

  /** Non-increasing in `key`. */
  predicate SortedDesc<T>(s: seq<T>, key: T -> real) {
    forall i, j :: 0 <= i < j < |s| ==> key(s[i]) >= key(s[j])
  }

  /** No element occurs twice. */
  predicate Distinct<T(==)>(s: seq<T>) {
    forall i, j :: 0 <= i < j < |s| ==> s[i] != s[j]
  }

  /** Puts `x` after every element whose key is at least `key(x)`. */
  function InsertDesc<T(==)>(x: T, s: seq<T>, key: T -> real): (r: seq<T>)
    requires SortedDesc(s, key)
    ensures |r| == |s| + 1
    ensures forall i :: 0 <= i < |r| ==> r[i] == x || r[i] in s
    ensures multiset(r) == multiset(s) + multiset{x}
    ensures SortedDesc(r, key)
    ensures Distinct(s) && x !in s ==> Distinct(r)
  {
    if |s| == 0 then [x]
    else if key(x) > key(s[0]) then
      assert forall i :: 0 <= i < |s| ==> key(s[i]) <= key(s[0]);
      [x] + s
    else
      var rest := InsertDesc(x, s[1..], key);
      ConsKeepsOrder(x, s, rest, key);
      [s[0]] + rest
  }

  /** The step of `InsertDesc` that keeps the head in front. */
  lemma ConsKeepsOrder<T>(x: T, s: seq<T>, rest: seq<T>, key: T -> real)
    requires |s| > 0 && SortedDesc(s, key) && key(x) <= key(s[0])
    requires SortedDesc(rest, key)
    requires forall i :: 0 <= i < |rest| ==> rest[i] == x || rest[i] in s[1..]
    requires multiset(rest) == multiset(s[1..]) + multiset{x}
    requires Distinct(s[1..]) && x !in s[1..] ==> Distinct(rest)
    ensures forall i :: 0 <= i < |rest| + 1 ==> ([s[0]] + rest)[i] == x || ([s[0]] + rest)[i] in s
    ensures multiset([s[0]] + rest) == multiset(s) + multiset{x}
    ensures SortedDesc([s[0]] + rest, key)
    ensures Distinct(s) && x !in s ==> Distinct([s[0]] + rest)
  {
    assert s == [s[0]] + s[1..];
    ConsMembers(x, s, rest);
    ConsSorted(x, s, rest, key);
    if Distinct(s) && x !in s {
      assert Distinct(s[1..]) && x !in s[1..];
      ConsDistinct(x, s, rest);
    }
  }

  lemma ConsMembers<T>(x: T, s: seq<T>, rest: seq<T>)
    requires |s| > 0
    requires forall i :: 0 <= i < |rest| ==> rest[i] == x || rest[i] in s[1..]
    ensures forall i :: 0 <= i < |rest| + 1 ==> ([s[0]] + rest)[i] == x || ([s[0]] + rest)[i] in s
  {
    forall i | 0 < i < |rest| + 1
      ensures ([s[0]] + rest)[i] == x || ([s[0]] + rest)[i] in s
    {
      assert ([s[0]] + rest)[i] == rest[i - 1];
    }
  }

  lemma ConsSorted<T>(x: T, s: seq<T>, rest: seq<T>, key: T -> real)
    requires |s| > 0 && SortedDesc(s, key) && key(x) <= key(s[0])
    requires SortedDesc(rest, key)
    requires forall i :: 0 <= i < |rest| ==> rest[i] == x || rest[i] in s[1..]
    ensures SortedDesc([s[0]] + rest, key)
  {
    var r := [s[0]] + rest;
    forall i | 0 < i < |r|
      ensures key(r[i]) <= key(s[0])
    {
      assert r[i] == rest[i - 1];
      if r[i] != x {
        var j :| 0 <= j < |s| - 1 && s[1..][j] == r[i];
        assert s[j + 1] == r[i];
      }
    }
  }

  lemma ConsDistinct<T>(x: T, s: seq<T>, rest: seq<T>)
    requires |s| > 0 && Distinct(s) && x !in s
    requires forall i :: 0 <= i < |rest| ==> rest[i] == x || rest[i] in s[1..]
    requires Distinct(rest)
    ensures Distinct([s[0]] + rest)
  {
    var r := [s[0]] + rest;
    forall i | 0 < i < |r|
      ensures r[i] != s[0]
    {
      assert r[i] == rest[i - 1];
      if r[i] != x {
        var j :| 0 <= j < |s| - 1 && s[1..][j] == r[i];
        assert s[j + 1] == r[i];
      }
    }
  }

  /** The rows of `s` in non-increasing `key` order: a permutation of `s`. */
  function SortDesc<T(==)>(s: seq<T>, key: T -> real): (r: seq<T>)
    ensures |r| == |s|
    ensures multiset(r) == multiset(s)
    ensures SortedDesc(r, key)
    ensures Distinct(s) ==> Distinct(r)
  {
    if |s| == 0 then []
    else
      var init := s[..|s| - 1];
      var last := s[|s| - 1];
      var sortedInit := SortDesc(init, key);
      assert s == init + [last];
      assert Distinct(s) ==> last !in sortedInit by {
        if Distinct(s) {
          forall i | 0 <= i < |sortedInit|
            ensures sortedInit[i] != last
          {
            assert sortedInit[i] in multiset(init);
            var j :| 0 <= j < |init| && init[j] == sortedInit[i];
            assert s[j] == init[j];
          }
        }
      }
      InsertDesc(last, sortedInit, key)
  }

  /** A permutation keeps exactly the same elements. */
  lemma SameElements<T>(r: seq<T>, s: seq<T>)
    requires multiset(r) == multiset(s)
    ensures forall i :: 0 <= i < |r| ==> r[i] in s
    ensures forall i :: 0 <= i < |s| ==> s[i] in r
  {
    assert forall i :: 0 <= i < |r| ==> r[i] in multiset(r);
    assert forall i :: 0 <= i < |s| ==> s[i] in multiset(s);
  }
}
