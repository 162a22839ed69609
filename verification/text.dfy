/**
 The Python `str` operations the engine relies on: `replace`, `rstrip`,
 `ljust`, slicing, membership tests, code-point ordering and the stable
 `list.sort(key=...)` over string keys.
 */
module Text {

  /** Whether `p` occurs in `s` starting at some position (Python's `p in s`). */
  predicate Occurs(p: string, s: string)
    decreases |s|
  {
    if |p| == 0 then true
    else |s| >= |p| && (s[..|p|] == p || Occurs(p, s[1..]))
  }

  /**
   `s.replace(pat, rep)`: every non-overlapping occurrence of `pat`, scanning
   left to right, becomes `rep`; an empty `pat` inserts `rep` before every
   character and at the end.
   */
  function Replace(s: string, pat: string, rep: string): (r: string)
    decreases |s|
  {
    if |pat| == 0 then
      if s == [] then rep else rep + [s[0]] + Replace(s[1..], pat, rep)
    else if |s| < |pat| then s
    else if s[..|pat|] == pat then rep + Replace(s[|pat|..], pat, rep)
    else [s[0]] + Replace(s[1..], pat, rep)
  }

  /** A text in which a non-empty `pat` never occurs is left as it is. */
  lemma {:induction false} ReplaceAbsent(s: string, pat: string, rep: string)
    requires |pat| > 0 && !Occurs(pat, s)
    ensures Replace(s, pat, rep) == s
    decreases |s|
  {
    if |s| >= |pat| {
      ReplaceAbsent(s[1..], pat, rep);
      assert [s[0]] + s[1..] == s;
    }
  }

  /** Replacing one character by another is a position-wise substitution. */
  lemma {:induction false} ReplaceOneChar(s: string, a: char, b: char)
    ensures |Replace(s, [a], [b])| == |s|
    ensures forall i :: 0 <= i < |s| ==>
      Replace(s, [a], [b])[i] == (if s[i] == a then b else s[i])
    decreases |s|
  {
    if |s| >= 1 {
      ReplaceOneChar(s[1..], a, b);
      var r := Replace(s, [a], [b]);
      var tail := Replace(s[1..], [a], [b]);
      assert r == [if s[0] == a then b else s[0]] + tail;
      forall i | 0 <= i < |s|
        ensures r[i] == (if s[i] == a then b else s[i])
      {
        if i > 0 {
          assert r[i] == tail[i - 1] && s[i] == s[1..][i - 1];
        }
      }
    }
  }

  /** `any(c in text for c in marks)`. */
  function ContainsAny(text: string, marks: string): (found: bool)
    ensures found <==> exists i :: 0 <= i < |text| && text[i] in marks
    decreases |text|
  {
    if text == [] then false
    else if text[0] in marks then true
    else
      var rest := ContainsAny(text[1..], marks);
      assert forall i :: 1 <= i < |text| ==> text[i] == text[1..][i - 1];
      rest
  }

  /** `s.rstrip(c)`: drop every trailing `c`. */
  function RStrip(s: string, c: char): (r: string)
    ensures |r| <= |s| && r == s[..|r|]
    ensures r == [] || r[|r| - 1] != c
    ensures forall i :: |r| <= i < |s| ==> s[i] == c
    decreases |s|
  {
    if s == [] || s[|s| - 1] != c then s
    else
      var r := RStrip(s[..|s| - 1], c);
      assert forall i :: |r| <= i < |s| - 1 ==> s[i] == s[..|s| - 1][i];
      r
  }

  /** A prefix that ends in something other than `c`, followed only by `c`s, is what stripping keeps. */
  lemma {:induction false} RStripExact(s: string, c: char, n: nat)
    requires n <= |s|
    requires forall i :: n <= i < |s| ==> s[i] == c
    requires n == 0 || s[n - 1] != c
    ensures RStrip(s, c) == s[..n]
    decreases |s|
  {
    if n < |s| {
      var init := s[..|s| - 1];
      assert s[|s| - 1] == c;
      assert forall i :: n <= i < |init| ==> init[i] == s[i];
      RStripExact(init, c, n);
      assert init[..n] == s[..n];
    }
  }

  /** `n` copies of `c` (Python's `c * n`). */
  function Repeat(c: char, n: nat): (r: string)
    ensures |r| == n
    ensures forall i :: 0 <= i < n ==> r[i] == c
  {
    if n == 0 then [] else Repeat(c, n - 1) + [c]
  }

  /** `s.ljust(n, c)[:n]`: pad with `c` up to `n` characters, then cut at `n`. */
  function FitTo(s: string, n: nat, c: char): (r: string)
    ensures |r| == n
    ensures |s| <= n ==> r[..|s|] == s && forall i :: |s| <= i < n ==> r[i] == c
    ensures |s| <= n ==> r == s + Repeat(c, n - |s|)
    ensures |s| >= n ==> r == s[..n]
  {
    var padded := if |s| >= n then s else s + Repeat(c, n - |s|);
    assert |s| <= n ==> padded[..n] == padded;
    padded[..n]
  }

  /** Python's `a <= b` on strings: code-point lexicographic order. */
  predicate LessEq(a: string, b: string)
    decreases |a|
  {
    a == [] || (b != [] && (a[0] < b[0] || (a[0] == b[0] && LessEq(a[1..], b[1..]))))
  }

  lemma {:induction false} LessEqTotal(a: string, b: string)
    ensures LessEq(a, b) || LessEq(b, a)
    decreases |a|
  {
    if a != [] && b != [] && a[0] == b[0] {
      LessEqTotal(a[1..], b[1..]);
    }
  }

  lemma {:induction false} LessEqTransitive(a: string, b: string, c: string)
    requires LessEq(a, b) && LessEq(b, c)
    ensures LessEq(a, c)
    decreases |a|
  {
    if a != [] && a[0] == b[0] && b[0] == c[0] {
      LessEqTransitive(a[1..], b[1..], c[1..]);
    }
  }

  /** `xs` is ordered by `key` under code-point order. */
  ghost predicate SortedBy<T>(xs: seq<T>, key: T -> string) {
    forall i, j :: 0 <= i < j < |xs| ==> LessEq(key(xs[i]), key(xs[j]))
  }

  /** Insert `x` before the first element whose key is not smaller than its own. */
  function InsertBy<T>(x: T, xs: seq<T>, key: T -> string): (r: seq<T>)
    ensures multiset(r) == multiset(xs) + multiset{x}
    decreases |xs|
  {
    if xs == [] then [x]
    else if LessEq(key(x), key(xs[0])) then [x] + xs
    else
      assert xs == [xs[0]] + xs[1..];
      [xs[0]] + InsertBy(x, xs[1..], key)
  }

  /** Inserting into a sorted sequence keeps it sorted. */
  lemma {:induction false} InsertBySorted<T>(x: T, xs: seq<T>, key: T -> string)
    requires SortedBy(xs, key)
    ensures SortedBy(InsertBy(x, xs, key), key)
    decreases |xs|
  {
    if xs == [] {
    } else if LessEq(key(x), key(xs[0])) {
      var r := [x] + xs;
      forall i, j | 0 <= i < j < |r|
        ensures LessEq(key(r[i]), key(r[j]))
      {
        if i == 0 {
          if j > 1 { LessEqTransitive(key(x), key(xs[0]), key(xs[j - 1])); }
        } else {
          assert r[i] == xs[i - 1] && r[j] == xs[j - 1];
        }
      }
    } else {
      LessEqTotal(key(x), key(xs[0]));
      InsertBySorted(x, xs[1..], key);
      var tail := InsertBy(x, xs[1..], key);
      var r := [xs[0]] + tail;
      forall i, j | 0 <= i < j < |r|
        ensures LessEq(key(r[i]), key(r[j]))
      {
        if i == 0 {
          HeadBelowInserted(x, xs, key, tail, j - 1);
        } else {
          assert r[i] == tail[i - 1] && r[j] == tail[j - 1];
        }
      }
    }
  }

  /** Every element of `x` inserted into the tail of a sorted `xs` is at least the head's key. */
  lemma HeadBelowInserted<T>(x: T, xs: seq<T>, key: T -> string, tail: seq<T>, k: int)
    requires SortedBy(xs, key) && xs != [] && LessEq(key(xs[0]), key(x))
    requires multiset(tail) == multiset(xs[1..]) + multiset{x}
    requires 0 <= k < |tail|
    ensures LessEq(key(xs[0]), key(tail[k]))
  {
    assert tail[k] in multiset(tail);
    if tail[k] != x {
      assert tail[k] in multiset(xs[1..]);
      var m :| 0 <= m < |xs[1..]| && xs[1..][m] == tail[k];
      assert xs[m + 1] == tail[k];
    }
  }

  /**
   `xs.sort(key=key)`: the result is a permutation of `xs` ordered by key.
   The order among elements with equal keys is not stated.
   */
  function SortBy<T>(xs: seq<T>, key: T -> string): (r: seq<T>)
    ensures multiset(r) == multiset(xs)
    ensures SortedBy(r, key)
    decreases |xs|
  {
    if xs == [] then []
    else
      assert xs == [xs[0]] + xs[1..];
      var rest := SortBy(xs[1..], key);
      InsertBySorted(xs[0], rest, key);
      InsertBy(xs[0], rest, key)
  }
}
