/** Small shared vocabulary: optional values in place of pandas' missing
    values, a result type for the failures the pipeline can raise, and the
    sequence helpers (Python slicing, sums, filtered counts) used by every
    stage. */
module Base {

  /** A value that may be missing (pandas NaN after a left join). */
  datatype Option<+T> = None | Some(value: T) {
    function GetOr(default: T): T {
      match this
      case Some(v) => v
      case None => default
    }
  }

  /** The one failure the pipeline can reach: a `merge(on=col)` against a
      table that has no column `col` (pandas raises KeyError). */
  datatype PipelineError = MissingColumn(column: string)

  datatype Result<+R> = Success(value: R) | Failure(error: PipelineError)

  /** Python's `s[:n]` for a non-negative `n`: the longest prefix of length
      at most `n`. */
  function Take<T>(s: seq<T>, n: nat): (r: seq<T>)
    ensures |r| <= n && |r| <= |s|
    ensures |r| == n || |r| == |s|
    ensures r == s[..|r|]
  {
    if |s| <= n then s else s[..n]
  }

  /** `num / den` on counts, as pandas divides two integer columns. */
  function Ratio(num: int, den: nat): (r: real)
    requires den > 0
    ensures r * den as real == num as real
    ensures 0 <= num <= den ==> 0.0 <= r <= 1.0
  {
    num as real / den as real
  }

  /** A product of two values in [0, 1] stays in [0, 1]. */
  lemma UnitProduct(a: real, b: real)
    requires 0.0 <= a <= 1.0 && 0.0 <= b <= 1.0
    ensures 0.0 <= a * b <= 1.0
  {
    assert 0.0 <= a * b;
    assert a * b <= b;
  }

  /** A product with a positive factor has the sign of the other factor. */
  lemma ProductSign(q: real, d: real)
    requires d > 0.0
    ensures q * d >= 0.0 ==> q >= 0.0
    ensures q * d > 0.0 ==> q > 0.0
  {
  }

  /** A sum of values that all lie in [lo, hi] lies in [lo * |s|, hi * |s|]. */
  lemma {:induction false} SumRealBetween(s: seq<real>, lo: real, hi: real)
    requires forall i :: 0 <= i < |s| ==> lo <= s[i] <= hi
    ensures lo * |s| as real <= SumReal(s) <= hi * |s| as real
  {
    if |s| > 0 {
      SumRealBetween(s[..|s| - 1], lo, hi);
      assert lo * |s| as real == lo * (|s| - 1) as real + lo;
      assert hi * |s| as real == hi * (|s| - 1) as real + hi;
    }
  }

  function SumReal(s: seq<real>): real
  {
    if |s| == 0 then 0.0 else SumReal(s[..|s| - 1]) + s[|s| - 1]
  }

  /** The positions of `s` whose element satisfies `p`: the reference
      meaning of every count in the pipeline. */
  function Positions<T>(s: seq<T>, p: T -> bool): set<nat>
  {
    set i: nat | i < |s| && p(s[i])
  }

  /** Number of elements of `s` satisfying `p`, counted left to right. */
  function CountWhere<T>(s: seq<T>, p: T -> bool): (n: nat)
    ensures n <= |s|
  {
    if |s| == 0 then 0
    else CountWhere(s[..|s| - 1], p) + (if p(s[|s| - 1]) then 1 else 0)
  }

  /** The recursive count is the number of matching positions. */
  lemma {:induction false} CountWhereIsCardinality<T>(s: seq<T>, p: T -> bool)
    ensures CountWhere(s, p) == |Positions(s, p)|
  {
    if |s| > 0 {
      var n := |s| - 1;
      CountWhereIsCardinality(s[..n], p);
      var before := Positions(s[..n], p);
      assert forall i :: i in Positions(s, p) && i != n ==> i in before;
      assert forall i :: i in before ==> i in Positions(s, p);
      if p(s[n]) {
        assert Positions(s, p) == before + {n};
        assert n !in before;
      } else {
        assert Positions(s, p) == before;
      }
    } else {
      assert Positions(s, p) == {};
    }
  }

  /** Counting a weaker predicate never gives less. */
  lemma {:induction false} CountWhereMonotone<T>(s: seq<T>, p: T -> bool, q: T -> bool)
    requires forall x :: x in s && p(x) ==> q(x)
    ensures CountWhere(s, p) <= CountWhere(s, q)
  {
    if |s| > 0 {
      CountWhereMonotone(s[..|s| - 1], p, q);
    }
  }

  /** Some element satisfies `p` exactly when the count is positive. */
  lemma {:induction false} CountWherePositive<T>(s: seq<T>, p: T -> bool)
    ensures CountWhere(s, p) > 0 <==> exists i :: 0 <= i < |s| && p(s[i])
  {
    if |s| > 0 {
      var n := |s| - 1;
      CountWherePositive(s[..n], p);
      if exists i :: 0 <= i < |s| && p(s[i]) {
        var i :| 0 <= i < |s| && p(s[i]);
        if i < n {
          assert s[..n][i] == s[i];
        }
      }
      if exists i :: 0 <= i < n && p(s[..n][i]) {
        var i :| 0 <= i < n && p(s[..n][i]);
        assert s[i] == s[..n][i];
      }
    }
  }

  /** The positions of `s` whose element satisfies `p`, ascending: every
      such position once, and no other. */
  function PositionsInOrder<T>(s: seq<T>, p: T -> bool): (ks: seq<nat>)
    ensures |ks| == CountWhere(s, p)
    ensures forall j :: 0 <= j < |ks| ==> ks[j] < |s| && p(s[ks[j]])
    ensures forall j1, j2 :: 0 <= j1 < j2 < |ks| ==> ks[j1] < ks[j2]
    ensures forall k :: 0 <= k < |s| && p(s[k]) ==> k in ks
  {
    if |s| == 0 then []
    else
      var n := |s| - 1;
      assert forall k :: 0 <= k < n ==> s[..n][k] == s[k];
      PositionsInOrder(s[..n], p) + (if p(s[n]) then [n] else [])
  }

  /** `Filter` keeps exactly the satisfying elements, each once, in their
      original order: its j-th element is the element at the j-th
      satisfying position. */
  lemma {:induction false} FilterFollowsPositions<T>(s: seq<T>, p: T -> bool)
    ensures |Filter(s, p)| == |PositionsInOrder(s, p)|
    ensures forall j :: 0 <= j < |Filter(s, p)| ==> Filter(s, p)[j] == s[PositionsInOrder(s, p)[j]]
  {
    if |s| > 0 {
      var n := |s| - 1;
      FilterFollowsPositions(s[..n], p);
      var r0 := Filter(s[..n], p);
      var k0 := PositionsInOrder(s[..n], p);
      assert Filter(s, p) == r0 + (if p(s[n]) then [s[n]] else []);
      assert PositionsInOrder(s, p) == k0 + (if p(s[n]) then [n] else []);
      forall j | 0 <= j < |r0|
        ensures r0[j] == s[k0[j]]
      {
        assert s[..n][k0[j]] == s[k0[j]];
      }
    }
  }

  /** `f` applied to every element: a column of a table. */
  function Map<T, U>(s: seq<T>, f: T -> U): (r: seq<U>)
    ensures |r| == |s| && forall i :: 0 <= i < |s| ==> r[i] == f(s[i])
  {
    seq(|s|, i requires 0 <= i < |s| => f(s[i]))
  }

  /** A prefix of a column is the column of the prefix. */
  lemma MapPrefix<T, U>(s: seq<T>, f: T -> U, n: nat)
    requires n <= |s|
    ensures Map(s, f)[..n] == Map(s[..n], f)
  {
    assert forall i :: 0 <= i < n ==> s[..n][i] == s[i];
  }

  /** The elements of `s` satisfying `p`, in their original order. */
  function Filter<T>(s: seq<T>, p: T -> bool): (r: seq<T>)
    ensures |r| == CountWhere(s, p)
    ensures forall i :: 0 <= i < |r| ==> p(r[i]) && r[i] in s
    ensures forall k :: 0 <= k < |s| && p(s[k]) ==> s[k] in r
  {
    if |s| == 0 then []
    else
      var init := Filter(s[..|s| - 1], p);
      var last := s[|s| - 1];
      assert s == s[..|s| - 1] + [last];
      if p(last) then init + [last] else init
  }
}
