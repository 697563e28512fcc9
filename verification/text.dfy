/** The string operations the pipeline relies on, with Python's meaning:
    `str.lower` (ASCII letters), `str.replace` of one character,
    `sep.join(parts)`, `str.split(sep)` for a non-empty separator,
    `str.strip()`, the `in` substring test, and the code-point order that
    `sorted` and pandas' `groupby` use for strings. */
module Text {
  import opened Base

  // ---------------------------------------------------------------------
  // Case folding and character replacement

  predicate IsAsciiUpper(c: char) {
    'A' <= c <= 'Z'
  }

  /** `c.lower()` restricted to ASCII letters. */
  function LowerChar(c: char): (r: char)
    ensures !IsAsciiUpper(r)
    ensures !IsAsciiUpper(c) ==> r == c
    ensures IsAsciiUpper(c) ==> r as int == c as int + 32
  {
    if IsAsciiUpper(c) then (c as int + 32) as char else c
  }

  /** `s.lower()`: every upper-case ASCII letter becomes its lower-case
      letter in place, everything else is kept in place. */
  function Lower(s: string): (r: string)
    ensures |r| == |s|
    ensures forall i :: 0 <= i < |r| ==> !IsAsciiUpper(r[i])
    ensures forall i :: 0 <= i < |s| && !IsAsciiUpper(s[i]) ==> r[i] == s[i]
    ensures forall i :: 0 <= i < |s| && IsAsciiUpper(s[i]) ==> r[i] as int == s[i] as int + 32
  {
    seq(|s|, i requires 0 <= i < |s| => LowerChar(s[i]))
  }

  /** `s.replace(a, b)` for single characters `a` and `b`. */
  function ReplaceChar(s: string, a: char, b: char): (r: string)
    ensures |r| == |s|
    ensures a != b ==> forall i :: 0 <= i < |r| ==> r[i] != a
    ensures forall i :: 0 <= i < |s| ==> r[i] == (if s[i] == a then b else s[i])
  {
    seq(|s|, i requires 0 <= i < |s| => if s[i] == a then b else s[i])
  }

  // ---------------------------------------------------------------------
  // Join and split

  /** `sep.join(parts)`. */
  function Join(parts: seq<string>, sep: string): string
  {
    if |parts| == 0 then ""
    else if |parts| == 1 then parts[0]
    else parts[0] + sep + Join(parts[1..], sep)
  }

  /** `sep` occurs in `s` starting at position `i`. */
  predicate OccursAt(s: string, sep: string, i: int) {
    0 <= i && i + |sep| <= |s| && s[i..i + |sep|] == sep
  }

  /** Python's `needle in hay`. */
  predicate Contains(hay: string, needle: string) {
    exists i | 0 <= i <= |hay| - |needle| :: OccursAt(hay, needle, i)
  }

  /** The leftmost occurrence of `sep` in `s` at or after `from`. */
  function FindFrom(s: string, sep: string, from: nat): (r: Option<nat>)
    requires |sep| > 0
    ensures r.Some? ==> from <= r.value && OccursAt(s, sep, r.value)
    ensures r.Some? ==> forall j :: from <= j < r.value ==> !OccursAt(s, sep, j)
    ensures r.None? ==> forall j :: from <= j ==> !OccursAt(s, sep, j)
    decreases |s| - from
  {
    if from + |sep| > |s| then None
    else if s[from..from + |sep|] == sep then Some(from)
    else FindFrom(s, sep, from + 1)
  }

  /** `s.split(sep)` for a non-empty separator: cut at the leftmost
      occurrence, then go on after it. */
  function Split(s: string, sep: string): (r: seq<string>)
    requires |sep| > 0
    ensures |r| >= 1
    ensures forall k, j :: 0 <= k < |r| ==> !OccursAt(r[k], sep, j)
    ensures Join(r, sep) == s
    decreases |s|
  {
    match FindFrom(s, sep, 0)
    case None => [s]
    case Some(i) =>
      var head := s[..i];
      var rest := Split(s[i + |sep|..], sep);
      assert forall j :: !OccursAt(head, sep, j) by {
        forall j | OccursAt(head, sep, j)
          ensures false
        {
          assert head[j..j + |sep|] == s[j..j + |sep|];
          assert OccursAt(s, sep, j);
        }
      }
      assert s == head + sep + s[i + |sep|..] by {
        assert s[i..i + |sep|] == sep;
      }
      assert ([head] + rest)[1..] == rest;
      [head] + rest
  }

  /** The joined text begins with the first part. */
  lemma JoinStartsWithFirst(parts: seq<string>, sep: string)
    requires |parts| > 0
    ensures parts[0] <= Join(parts, sep)
  {
  }

  /** Every part occurs in the joined text. */
  lemma {:induction false} JoinContainsParts(parts: seq<string>, sep: string)
    ensures forall k :: 0 <= k < |parts| ==> Contains(Join(parts, sep), parts[k])
  {
    if |parts| > 0 {
      var whole := Join(parts, sep);
      assert OccursAt(whole, parts[0], 0) by {
        JoinStartsWithFirst(parts, sep);
        assert whole[..|parts[0]|] == parts[0];
      }
      if |parts| > 1 {
        var rest := Join(parts[1..], sep);
        var offset := |parts[0]| + |sep|;
        assert whole == parts[0] + sep + rest;
        JoinContainsParts(parts[1..], sep);
        forall k | 1 <= k < |parts|
          ensures Contains(whole, parts[k])
        {
          assert parts[1..][k - 1] == parts[k];
          var i :| 0 <= i <= |rest| - |parts[k]| && OccursAt(rest, parts[k], i);
          assert whole[offset + i..offset + i + |parts[k]|] == rest[i..i + |parts[k]|];
          assert OccursAt(whole, parts[k], offset + i);
        }
      }
    }
  }

  /** A string without the separator splits into itself alone. */
  lemma SplitWithoutSeparator(s: string, sep: string)
    requires |sep| > 0 && forall j :: !OccursAt(s, sep, j)
    ensures Split(s, sep) == [s]
  {
  }

  /** Joining with ", " and splitting on ", " gives the parts back when no
      part contains ", ": the separator cannot overlap itself, so its
      leftmost occurrence in the joined text is the one after the first
      part. */
  lemma {:induction false} SplitJoinCommaSpace(parts: seq<string>)
    requires |parts| >= 1
    requires forall k, j :: 0 <= k < |parts| ==> !OccursAt(parts[k], ", ", j)
    ensures Split(Join(parts, ", "), ", ") == parts
  {
    var sep := ", ";
    if |parts| == 1 {
      SplitWithoutSeparator(parts[0], sep);
    } else {
      var p := parts[0];
      var rest := Join(parts[1..], sep);
      var s := Join(parts, sep);
      assert s == p + sep + rest;
      assert OccursAt(s, sep, |p|) by {
        assert s[|p|..|p| + 2] == sep;
      }
      forall j | 0 <= j < |p|
        ensures !OccursAt(s, sep, j)
      {
        if j + 2 <= |p| {
          assert s[j..j + 2] == p[j..j + 2];
          assert !OccursAt(p, sep, j);
        } else {
          assert s[j + 1] == ',';
        }
      }
      var found := FindFrom(s, sep, 0);
      assert found == Some(|p|);
      assert s[|p| + 2..] == rest;
      SplitJoinCommaSpace(parts[1..]);
      assert Split(s, sep) == [p] + Split(rest, sep);
    }
  }

  // ---------------------------------------------------------------------
  // Stripping whitespace

  /** The characters Python's `str.isspace` accepts. */
  predicate IsSpace(c: char) {
    c == ' ' || ('\t' <= c <= '\r') || ('\U{1C}' <= c <= '\U{1F}')
    || c == '\U{85}' || c == '\U{A0}' || c == '\U{1680}'
    || ('\U{2000}' <= c <= '\U{200A}') || c == '\U{2028}' || c == '\U{2029}'
    || c == '\U{202F}' || c == '\U{205F}' || c == '\U{3000}'
  }

  /** `s.lstrip()`. */
  function TrimStart(s: string): string
  {
    if |s| > 0 && IsSpace(s[0]) then TrimStart(s[1..]) else s
  }

  /** `s.rstrip()`. */
  function TrimEnd(s: string): string
  {
    if |s| > 0 && IsSpace(s[|s| - 1]) then TrimEnd(s[..|s| - 1]) else s
  }

  /** `s.strip()`. */
  function Strip(s: string): string
  {
    TrimEnd(TrimStart(s))
  }

  /** `lstrip` drops the leading whitespace and nothing else. */
  lemma {:induction false} TrimStartMeaning(s: string)
    ensures |TrimStart(s)| <= |s| && TrimStart(s) == s[|s| - |TrimStart(s)|..]
    ensures forall k :: 0 <= k < |s| - |TrimStart(s)| ==> IsSpace(s[k])
    ensures |TrimStart(s)| == 0 || !IsSpace(TrimStart(s)[0])
  {
    if |s| > 0 && IsSpace(s[0]) {
      TrimStartMeaning(s[1..]);
    }
  }

  /** `rstrip` drops the trailing whitespace and nothing else. */
  lemma {:induction false} TrimEndMeaning(s: string)
    ensures |TrimEnd(s)| <= |s| && TrimEnd(s) == s[..|TrimEnd(s)|]
    ensures forall k :: |TrimEnd(s)| <= k < |s| ==> IsSpace(s[k])
    ensures |TrimEnd(s)| == 0 || !IsSpace(TrimEnd(s)[|TrimEnd(s)| - 1])
  {
    if |s| > 0 && IsSpace(s[|s| - 1]) {
      TrimEndMeaning(s[..|s| - 1]);
    }
  }

  /** `r` is `s` with the first `i` characters and everything after
      `i + |r|` cut away, all of it whitespace. */
  predicate StrippedAt(s: string, r: string, i: int) {
    && 0 <= i <= |s| - |r|
    && r == s[i..i + |r|]
    && (forall k :: 0 <= k < i ==> IsSpace(s[k]))
    && (forall k :: i + |r| <= k < |s| ==> IsSpace(s[k]))
  }

  /** `strip` keeps a contiguous piece of `s` with no whitespace at either
      end, everything cut away being whitespace; the piece is empty
      exactly when `s` is all whitespace. */
  lemma StripMeaning(s: string)
    ensures |Strip(s)| == 0 || (!IsSpace(Strip(s)[0]) && !IsSpace(Strip(s)[|Strip(s)| - 1]))
    ensures StrippedAt(s, Strip(s), |s| - |TrimStart(s)|)
    ensures |Strip(s)| == 0 <==> forall k :: 0 <= k < |s| ==> IsSpace(s[k])
  {
    var t := TrimStart(s);
    var r := TrimEnd(t);
    var i := |s| - |t|;
    TrimStartMeaning(s);
    TrimEndMeaning(t);
    SliceOfSuffix(s, t, r, i);
    TrimmedTail(s, t, r, i);
    EmptyIffAllSpace(s, t, r, i);
    assert StrippedAt(s, r, i);
  }

  /** Both trims leave nothing exactly when every character is whitespace. */
  lemma EmptyIffAllSpace(s: string, t: string, r: string, i: nat)
    requires i <= |s| && t == s[i..]
    requires |r| <= |t| && r == t[..|r|] && forall k :: |r| <= k < |t| ==> IsSpace(t[k])
    requires forall k :: 0 <= k < i ==> IsSpace(s[k])
    requires |t| == 0 || !IsSpace(t[0])
    ensures |r| == 0 || !IsSpace(r[0])
    ensures |r| == 0 <==> forall k :: 0 <= k < |s| ==> IsSpace(s[k])
  {
    if |r| == 0 {
      assert |t| == 0;
    } else {
      assert r[0] == s[i];
    }
  }

  /** A prefix of a suffix is a slice. */
  lemma SliceOfSuffix(s: string, t: string, r: string, i: nat)
    requires i <= |s| && t == s[i..] && |r| <= |t| && r == t[..|r|]
    ensures r == s[i..i + |r|]
    ensures forall k :: i <= k < |s| ==> s[k] == t[k - i]
  {
  }

  /** What the right trim cut away from the left-trimmed suffix is
      whitespace of `s`. */
  lemma TrimmedTail(s: string, t: string, r: string, i: nat)
    requires i <= |s| && t == s[i..]
    requires |r| <= |t| && forall k :: |r| <= k < |t| ==> IsSpace(t[k])
    ensures forall k :: i + |r| <= k < |s| ==> IsSpace(s[k])
  {
    forall k | i + |r| <= k < |s|
      ensures IsSpace(s[k])
    {
      assert s[k] == t[k - i];
    }
  }

  /** A stripped piece of a string without the separator has none either. */
  lemma StripKeepsFree(s: string, sep: string)
    requires forall j :: !OccursAt(s, sep, j)
    ensures forall j :: !OccursAt(Strip(s), sep, j)
  {
    StripMeaning(s);
    SliceKeepsFree(s, Strip(s), |s| - |TrimStart(s)|, sep);
  }

  /** A slice of a string without the separator has none either. */
  lemma SliceKeepsFree(s: string, r: string, i: nat, sep: string)
    requires i + |r| <= |s| && r == s[i..i + |r|]
    requires forall j :: !OccursAt(s, sep, j)
    ensures forall j :: !OccursAt(r, sep, j)
  {
    assert forall m :: 0 <= m < |r| ==> r[m] == s[i + m];
    forall j | 0 <= j && j + |sep| <= |r|
      ensures !OccursAt(r, sep, j)
    {
      assert r[j..j + |sep|] == s[i + j..i + j + |sep|];
      assert !OccursAt(s, sep, i + j);
    }
  }

  /** A string without whitespace is its own stripped form. */
  lemma StripWithoutSpace(s: string)
    requires forall k :: 0 <= k < |s| ==> !IsSpace(s[k])
    ensures Strip(s) == s
  {
    KeepStart(s);
    KeepEnd(s);
  }

  lemma KeepStart(s: string)
    requires |s| == 0 || !IsSpace(s[0])
    ensures TrimStart(s) == s
  {
  }

  lemma KeepEnd(s: string)
    requires |s| == 0 || !IsSpace(s[|s| - 1])
    ensures TrimEnd(s) == s
  {
  }

  /** Stripping twice is stripping once. */
  lemma StripIdempotent(s: string)
    ensures Strip(Strip(s)) == Strip(s)
  {
    var r := Strip(s);
    StripMeaning(s);
    KeepStart(r);
    KeepEnd(r);
  }

  // ---------------------------------------------------------------------
  // Code-point order on strings

  /** Python's `a < b` on `str`: lexicographic by code point, a proper
      prefix first. */
  predicate Less(a: string, b: string) {
    if |a| == 0 then |b| > 0
    else if |b| == 0 then false
    else a[0] < b[0] || (a[0] == b[0] && Less(a[1..], b[1..]))
  }

  lemma {:induction false} LessIrreflexive(a: string)
    ensures !Less(a, a)
  {
    if |a| > 0 {
      LessIrreflexive(a[1..]);
    }
  }

  lemma {:induction false} LessTransitive(a: string, b: string, c: string)
    requires Less(a, b) && Less(b, c)
    ensures Less(a, c)
  {
    if |a| > 0 && |b| > 0 && |c| > 0 && a[0] == b[0] == c[0] {
      LessTransitive(a[1..], b[1..], c[1..]);
    }
  }

  lemma {:induction false} LessTotal(a: string, b: string)
    ensures a == b || Less(a, b) || Less(b, a)
  {
    if |a| > 0 && |b| > 0 && a[0] == b[0] {
      LessTotal(a[1..], b[1..]);
      if a[1..] == b[1..] {
        assert a == [a[0]] + a[1..] && b == [b[0]] + b[1..];
      }
    }
  }

  lemma LessAsymmetric(a: string, b: string)
    requires Less(a, b)
    ensures !Less(b, a)
  {
    if Less(b, a) {
      LessTransitive(a, b, a);
      LessIrreflexive(a);
    }
  }

  /** Strictly ascending, hence free of duplicates. */
  predicate StrictlySorted(s: seq<string>) {
    forall i, j :: 0 <= i < j < |s| ==> Less(s[i], s[j])
  }

  lemma StrictlySortedDistinct(s: seq<string>, i: nat, j: nat)
    requires StrictlySorted(s) && i < |s| && j < |s| && i != j
    ensures s[i] != s[j]
  {
    if i < j { LessIrreflexive(s[i]); } else { LessIrreflexive(s[j]); }
  }

  /** Adds `x` to a strictly sorted sequence, keeping it strictly sorted. */
  function Insert(x: string, s: seq<string>): (r: seq<string>)
    requires StrictlySorted(s)
    ensures StrictlySorted(r)
    ensures forall y :: y in r <==> y == x || y in s
  {
    if |s| == 0 then [x]
    else if x == s[0] then s
    else if Less(x, s[0]) then
      assert forall j :: 0 < j < |s| ==> Less(x, s[j]) by {
        forall j | 0 < j < |s| ensures Less(x, s[j]) {
          LessTransitive(x, s[0], s[j]);
        }
      }
      [x] + s
    else
      var rest := Insert(x, s[1..]);
      LessTotal(x, s[0]);
      assert forall y :: y in rest ==> Less(s[0], y);
      [s[0]] + rest
  }

  /** `sorted(set(xs))`: the distinct elements of `xs`, ascending. */
  function SortedDistinct(xs: seq<string>): (r: seq<string>)
    ensures StrictlySorted(r)
    ensures forall y :: y in r <==> y in xs
  {
    if |xs| == 0 then [] else Insert(xs[|xs| - 1], SortedDistinct(xs[..|xs| - 1]))
  }

  /** A strictly sorted sequence is fixed by its elements: `sorted(set(.))`
      does not depend on the order in which the set was built. */
  lemma {:induction false} StrictlySortedUnique(a: seq<string>, b: seq<string>)
    requires StrictlySorted(a) && StrictlySorted(b)
    requires forall y :: y in a <==> y in b
    ensures a == b
  {
    assert |a| > 0 ==> a[0] in b;
    assert |b| > 0 ==> b[0] in a;
    if |a| > 0 && |b| > 0 {
      assert a[0] == b[0] by {
        if a[0] != b[0] {
          assert b[0] in a && a[0] in b;
          var i :| 0 <= i < |a| && a[i] == b[0];
          var j :| 0 <= j < |b| && b[j] == a[0];
          assert i != 0 && j != 0;
          assert Less(a[0], a[i]);
          assert Less(b[0], b[j]);
          LessAsymmetric(a[0], b[0]);
        }
      }
      forall y
        ensures y in a[1..] <==> y in b[1..]
      {
        if y in a[1..] {
          var m :| 0 <= m < |a| - 1 && a[1..][m] == y;
          assert Less(a[0], a[m + 1]);
          LessIrreflexive(y);
          assert y in b;
        }
        if y in b[1..] {
          var m :| 0 <= m < |b| - 1 && b[1..][m] == y;
          assert Less(b[0], b[m + 1]);
          LessIrreflexive(y);
          assert y in a;
        }
      }
      StrictlySortedUnique(a[1..], b[1..]);
      assert a == [a[0]] + a[1..] && b == [b[0]] + b[1..];
    }
  }

  /** A single string is its own `sorted(set(.))`. */
  lemma SortedDistinctOne(x: string)
    ensures SortedDistinct([x]) == [x]
  {
    StrictlySortedUnique(SortedDistinct([x]), [x]);
  }

}
