/**
 * The Python `str` operations the pipeline relies on, over `seq<char>`:
 * `startswith`, `endswith`, `split(sep)`, `split(sep, 1)`, `join`,
 * `strip()`, `lstrip(chars)`, `rstrip(chars)` and `str(n)` for a natural n.
 * `strip()` removes the ASCII characters Python counts as whitespace.
 */
module Strings {

  /** The ASCII characters for which Python's `str.isspace` holds. */
  const Whitespace: set<char> :=
    {' ', '\t', '\n', '\r', '\U{B}', '\U{C}', '\U{1C}', '\U{1D}', '\U{1E}', '\U{1F}'}

  predicate StartsWith(s: string, prefix: string) {
    |prefix| <= |s| && s[..|prefix|] == prefix
  }

  predicate EndsWith(s: string, suffix: string) {
    |suffix| <= |s| && s[|s| - |suffix|..] == suffix
  }

  /** `sep` occurs in `s` starting at index `k`. */
  predicate OccursAt(s: string, sep: string, k: int) {
    0 <= k <= |s| - |sep| && s[k..k + |sep|] == sep
  }

  predicate Contains(s: string, sep: string) {
    exists k :: 0 <= k <= |s| - |sep| && OccursAt(s, sep, k)
  }

  // ---------------------------------------------------------------------
  // split and join

  /**
   * Python's `s.split(sep)` for a non-empty separator: the pieces between
   * the occurrences of `sep` found scanning left to right, without overlap.
   */
  function Split(s: string, sep: string): (parts: seq<string>)
    requires |sep| > 0
    ensures |parts| >= 1
    decreases |s|
  {
    if |s| < |sep| then [s]
    else if s[..|sep|] == sep then [""] + Split(s[|sep|..], sep)
    else
      var rest := Split(s[1..], sep);
      [[s[0]] + rest[0]] + rest[1..]
  }

  /** How many of the first `n` strings are non-empty. */
  function NonEmptyCount(parts: seq<string>, n: nat): nat
    requires n <= |parts|
  {
    if n == 0 then 0 else NonEmptyCount(parts, n - 1) + (if parts[n - 1] == "" then 0 else 1)
  }

  lemma {:induction false} NonEmptyCountMono(parts: seq<string>, i: nat, n: nat)
    requires i <= n <= |parts|
    ensures NonEmptyCount(parts, i) <= NonEmptyCount(parts, n)
    decreases n
  {
    if i < n {
      NonEmptyCountMono(parts, i, n - 1);
    }
  }

  /** Python's `sep.join(parts)`. */
  function Join(sep: string, parts: seq<string>): string {
    if |parts| == 0 then ""
    else if |parts| == 1 then parts[0]
    else parts[0] + sep + Join(sep, parts[1..])
  }

  /** Python's `"".join(parts)`. */
  function Concat(parts: seq<string>): string {
    if parts == [] then "" else parts[0] + Concat(parts[1..])
  }

  lemma {:induction false} ConcatAppend(a: seq<string>, b: seq<string>)
    ensures Concat(a + b) == Concat(a) + Concat(b)
  {
    if a != [] {
      assert (a + b)[1..] == a[1..] + b;
      ConcatAppend(a[1..], b);
    } else {
      assert a + b == b;
    }
  }

  /** `s` with every occurrence of `sep` found by a left-to-right scan deleted. */
  function RemoveAll(s: string, sep: string): string
    requires |sep| > 0
    decreases |s|
  {
    if |s| < |sep| then s
    else if s[..|sep|] == sep then RemoveAll(s[|sep|..], sep)
    else [s[0]] + RemoveAll(s[1..], sep)
  }

  lemma JoinCons(sep: string, c: char, parts: seq<string>)
    requires |parts| >= 1
    ensures Join(sep, [[c] + parts[0]] + parts[1..]) == [c] + Join(sep, parts)
  {
    var q := [[c] + parts[0]] + parts[1..];
    assert q[1..] == parts[1..];
  }

  /** Joining the pieces of a split with the same separator gives back the text. */
  lemma {:induction false} SplitJoin(s: string, sep: string)
    requires |sep| > 0
    ensures Join(sep, Split(s, sep)) == s
    decreases |s|
  {
    if |s| < |sep| {
    } else if s[..|sep|] == sep {
      var t := s[|sep|..];
      var rest := Split(t, sep);
      assert Split(s, sep) == [""] + rest;
      SplitJoin(t, sep);
      assert ([""] + rest)[1..] == rest;
      assert Join(sep, [""] + rest) == "" + sep + Join(sep, rest);
      assert s == s[..|sep|] + t;
    } else {
      var t := s[1..];
      var rest := Split(t, sep);
      assert Split(s, sep) == [[s[0]] + rest[0]] + rest[1..];
      SplitJoin(t, sep);
      JoinCons(sep, s[0], rest);
      assert s == [s[0]] + t;
    }
  }

  /** Concatenating the pieces of a split gives the text with the separators deleted. */
  lemma {:induction false} SplitConcat(s: string, sep: string)
    requires |sep| > 0
    ensures Concat(Split(s, sep)) == RemoveAll(s, sep)
    decreases |s|
  {
    if |s| < |sep| {
      assert Concat([s]) == s + Concat([]);
    } else if s[..|sep|] == sep {
      var rest := Split(s[|sep|..], sep);
      SplitConcat(s[|sep|..], sep);
      assert ([""] + rest)[1..] == rest;
    } else {
      var rest := Split(s[1..], sep);
      SplitConcat(s[1..], sep);
      var q := [[s[0]] + rest[0]] + rest[1..];
      assert q[1..] == rest[1..];
      assert Concat(rest) == rest[0] + Concat(rest[1..]);
    }
  }

  /** An occurrence after the first character is an occurrence in the tail. */
  lemma OccursShift(s: string, sep: string, k: int)
    requires 1 <= k && s != []
    ensures OccursAt(s, sep, k) <==> OccursAt(s[1..], sep, k - 1)
  {
    if 0 <= k <= |s| - |sep| {
      assert s[1..][k - 1..k - 1 + |sep|] == s[k..k + |sep|];
    }
  }

  /**
   * The first piece of a split is a prefix of `s`, and `sep` does not occur
   * in `s` before the end of that piece.
   */
  lemma {:induction false} SplitFirst(s: string, sep: string)
    requires |sep| > 0
    ensures StartsWith(s, Split(s, sep)[0])
    ensures forall k :: 0 <= k < |Split(s, sep)[0]| ==> !OccursAt(s, sep, k)
    decreases |s|
  {
    if |s| >= |sep| && s[..|sep|] != sep {
      var rest := Split(s[1..], sep);
      SplitFirst(s[1..], sep);
      var p := [s[0]] + rest[0];
      assert Split(s, sep)[0] == p;
      assert s[1..][..|rest[0]|] == rest[0];
      assert s[..|p|] == p;
      forall k | 0 <= k < |p|
        ensures !OccursAt(s, sep, k)
      {
        if k > 0 {
          OccursShift(s, sep, k);
        }
      }
    }
  }

  /** A split gives a single piece exactly when `sep` does not occur, and that piece is `s`. */
  lemma {:induction false} SplitSingle(s: string, sep: string)
    requires |sep| > 0
    ensures |Split(s, sep)| == 1 <==> !Contains(s, sep)
    ensures |Split(s, sep)| == 1 ==> Split(s, sep)[0] == s
    decreases |s|
  {
    if |s| < |sep| {
    } else if s[..|sep|] == sep {
      assert OccursAt(s, sep, 0);
    } else {
      SplitSingle(s[1..], sep);
      assert |Split(s, sep)| == |Split(s[1..], sep)|;
      if Contains(s, sep) {
        var k :| 0 <= k <= |s| - |sep| && OccursAt(s, sep, k);
        OccursShift(s, sep, k);
        assert OccursAt(s[1..], sep, k - 1);
      }
      if Contains(s[1..], sep) {
        var k :| 0 <= k <= |s[1..]| - |sep| && OccursAt(s[1..], sep, k);
        OccursShift(s, sep, k + 1);
        assert OccursAt(s, sep, k + 1);
      }
    }
  }

  /** When a split gives several pieces, `sep` occurs right after the first piece. */
  lemma {:induction false} SplitMoreOccurs(s: string, sep: string)
    requires |sep| > 0
    requires |Split(s, sep)| > 1
    ensures OccursAt(s, sep, |Split(s, sep)[0]|)
    decreases |s|
  {
    assert |s| >= |sep|;
    if s[..|sep|] == sep {
      assert Split(s, sep)[0] == "";
      assert OccursAt(s, sep, 0);
    } else {
      var t := s[1..];
      var rest := Split(t, sep);
      assert Split(s, sep) == [[s[0]] + rest[0]] + rest[1..];
      SplitMoreOccurs(t, sep);
      OccursShift(s, sep, |rest[0]| + 1);
    }
  }

  /**
   * When a split gives several pieces, `sep` occurs right after the first
   * piece, and the other pieces are the split of what follows it.
   */
  lemma SplitMore(s: string, sep: string)
    requires |sep| > 0
    requires |Split(s, sep)| > 1
    ensures OccursAt(s, sep, |Split(s, sep)[0]|)
    ensures Split(s, sep)[1..] == Split(s[|Split(s, sep)[0]| + |sep|..], sep)
  {
    SplitMoreOccurs(s, sep);
    SplitFirst(s, sep);
    var a := Split(s, sep)[0];
    var b := s[|a| + |sep|..];
    assert s == a + sep + b;
    SplitAfter(a, sep, b);
  }

  /** No piece of a split contains the separator. */
  lemma {:induction false} SplitPiecesFree(s: string, sep: string)
    requires |sep| > 0
    ensures forall i :: 0 <= i < |Split(s, sep)| ==> !Contains(Split(s, sep)[i], sep)
    decreases |s|
  {
    var parts := Split(s, sep);
    SplitFirst(s, sep);
    SplitSingle(s, sep);
    var p := parts[0];
    assert !Contains(p, sep) by {
      assert s[..|p|] == p;
      forall k | 0 <= k <= |p| - |sep|
        ensures !OccursAt(p, sep, k)
      {
        assert p[k..k + |sep|] == s[k..k + |sep|];
        assert !OccursAt(s, sep, k);
      }
    }
    if |parts| > 1 {
      SplitMore(s, sep);
      var tail := s[|p| + |sep|..];
      SplitPiecesFree(tail, sep);
      forall i | 0 <= i < |parts|
        ensures !Contains(parts[i], sep)
      {
        if i > 0 {
          assert parts[i] == parts[1..][i - 1];
        }
      }
    }
  }

  /** A piece of a split on one character never contains that character. */
  lemma SplitPiecesFreeOfChar(s: string, c: char)
    ensures forall i, k :: 0 <= i < |Split(s, [c])| && 0 <= k < |Split(s, [c])[i]| ==>
      Split(s, [c])[i][k] != c
  {
    SplitPiecesFree(s, [c]);
    forall i, k | 0 <= i < |Split(s, [c])| && 0 <= k < |Split(s, [c])[i]|
      ensures Split(s, [c])[i][k] != c
    {
      var piece := Split(s, [c])[i];
      assert !OccursAt(piece, [c], k);
      assert piece[k..k + 1] == [piece[k]];
    }
  }

  /** A string in which `sep` occurs nowhere splits into itself alone. */
  lemma SplitNoOccurrence(s: string, sep: string)
    requires |sep| > 0
    requires forall k :: 0 <= k < |s| ==> !OccursAt(s, sep, k)
    ensures Split(s, sep) == [s]
  {
    SplitSingle(s, sep);
  }

  /**
   * When `sep` does not occur before the end of `a`, splitting
   * `a + sep + b` gives `a` followed by the split of `b`.
   */
  lemma {:induction false} SplitAfter(a: string, sep: string, b: string)
    requires |sep| > 0
    requires forall k :: 0 <= k < |a| ==> !OccursAt(a + sep + b, sep, k)
    ensures Split(a + sep + b, sep) == [a] + Split(b, sep)
    decreases |a|
  {
    var s := a + sep + b;
    if a == [] {
      assert s == sep + b;
      assert s[..|sep|] == sep;
      assert s[|sep|..] == b;
    } else {
      assert !OccursAt(s, sep, 0);
      assert s[1..] == a[1..] + sep + b;
      forall k | 0 <= k < |a[1..]|
        ensures !OccursAt(a[1..] + sep + b, sep, k)
      {
        OccursShift(s, sep, k + 1);
      }
      SplitAfter(a[1..], sep, b);
      assert [s[0]] + a[1..] == a;
    }
  }

  /** A one-character separator occurs exactly where that character is. */
  lemma OccursChar(s: string, c: char, k: int)
    requires 0 <= k < |s|
    ensures OccursAt(s, [c], k) <==> s[k] == c
  {
    assert s[k..k + 1] == [s[k]];
  }

  /** `x + y` occurs at `k` exactly when `x` does and `y` follows it. */
  lemma OccursConcat(s: string, x: string, y: string, k: nat)
    ensures OccursAt(s, x + y, k) <==> OccursAt(s, x, k) && OccursAt(s, y, k + |x|)
  {
    if k + |x| + |y| <= |s| {
      var w := s[k..k + |x| + |y|];
      assert w[..|x|] == s[k..k + |x|];
      assert w[|x|..] == s[k + |x|..k + |x| + |y|];
      assert (x + y)[..|x|] == x;
      assert (x + y)[|x|..] == y;
      if OccursAt(s, x, k) && OccursAt(s, y, k + |x|) {
        assert w == w[..|x|] + w[|x|..];
      }
    }
  }

  /** A slice of a string free of `sep` is free of `sep`. */
  lemma SliceFree(s: string, sep: string, i: nat, j: nat)
    requires i <= j <= |s|
    requires !Contains(s, sep)
    ensures !Contains(s[i..j], sep)
  {
    forall k | 0 <= k <= |s[i..j]| - |sep|
      ensures !OccursAt(s[i..j], sep, k)
    {
      var x := s[i..j][k..k + |sep|];
      var y := s[i + k..i + k + |sep|];
      assert forall m :: 0 <= m < |sep| ==> x[m] == y[m];
      assert x == y;
      assert !OccursAt(s, sep, i + k);
    }
  }

  /** Joining pieces free of a character with a separator free of it gives a string free of it. */
  lemma {:induction false} JoinFreeOfChar(sep: string, parts: seq<string>, c: char)
    requires forall k :: 0 <= k < |sep| ==> sep[k] != c
    requires forall i, k :: 0 <= i < |parts| && 0 <= k < |parts[i]| ==> parts[i][k] != c
    ensures forall k :: 0 <= k < |Join(sep, parts)| ==> Join(sep, parts)[k] != c
  {
    if |parts| > 1 {
      JoinFreeOfChar(sep, parts[1..], c);
      var rest := Join(sep, parts[1..]);
      assert Join(sep, parts) == parts[0] + sep + rest;
      forall k | 0 <= k < |Join(sep, parts)|
        ensures Join(sep, parts)[k] != c
      {
        if k < |parts[0]| {
          assert Join(sep, parts)[k] == parts[0][k];
        } else if k < |parts[0]| + |sep| {
          assert Join(sep, parts)[k] == sep[k - |parts[0]|];
        } else {
          assert Join(sep, parts)[k] == rest[k - |parts[0]| - |sep|];
        }
      }
    }
  }

  /**
   * Splitting on one character undoes joining on it, when no part holds
   * that character: the partner of `SplitJoin` in the other direction.
   */
  lemma {:induction false} SplitOfJoin(parts: seq<string>, c: char)
    requires |parts| >= 1
    requires forall i, k :: 0 <= i < |parts| && 0 <= k < |parts[i]| ==> parts[i][k] != c
    ensures Split(Join([c], parts), [c]) == parts
    decreases |parts|
  {
    var a := parts[0];
    if |parts| == 1 {
      forall k | 0 <= k < |a|
        ensures !OccursAt(a, [c], k)
      {
        OccursChar(a, c, k);
      }
      SplitNoOccurrence(a, [c]);
    } else {
      var rest := Join([c], parts[1..]);
      var s := a + [c] + rest;
      assert Join([c], parts) == s;
      forall k | 0 <= k < |a|
        ensures !OccursAt(s, [c], k)
      {
        OccursChar(s, c, k);
        assert s[k] == a[k];
      }
      SplitAfter(a, [c], rest);
      SplitOfJoin(parts[1..], c);
      assert [a] + parts[1..] == parts;
    }
  }

  /**
   * Python's `s.split(sep, 1)`: `[s]` when `sep` does not occur, otherwise
   * the text before and the text after the first occurrence.
   */
  function SplitOnce(s: string, sep: string): (parts: seq<string>)
    requires |sep| > 0
    ensures 1 <= |parts| <= 2
    ensures |parts| == 1 <==> !Contains(s, sep)
    ensures |parts| == 1 ==> parts == [s]
    ensures |parts| == 2 ==>
      && s == parts[0] + sep + parts[1]
      && (forall k :: 0 <= k < |parts[0]| ==> !OccursAt(s, sep, k))
  {
    var all := Split(s, sep);
    SplitFirst(s, sep);
    SplitSingle(s, sep);
    if |all| == 1 then [s]
    else
      SplitMore(s, sep);
      var p := all[0];
      var tail := s[|p| + |sep|..];
      SplitJoin(tail, sep);
      assert s == s[..|p|] + s[|p|..|p| + |sep|] + tail;
      [p, Join(sep, all[1..])]
  }

  /** When `c` does not occur in `a`, `split(c, 1)` of `a + c + b` cuts right after `a`. */
  lemma SplitOnceAt(a: string, c: char, b: string)
    requires forall k :: 0 <= k < |a| ==> a[k] != c
    ensures SplitOnce(a + [c] + b, [c]) == [a, b]
  {
    var s := a + [c] + b;
    assert OccursAt(s, [c], |a|) by { assert s[|a|..|a| + 1] == [c]; }
    var parts := SplitOnce(s, [c]);
    var p := parts[0];
    assert |p| <= |a|;
    assert s[|p|] == c by { assert s[|p|..|p| + 1] == [c]; }
    assert |p| >= |a|;
    assert p == a;
    assert parts[1] == b;
  }

  // ---------------------------------------------------------------------
  // strip

  /** The first index at or after `i` whose character is not in `chars`, or `|s|`. */
  function SkipLeading(s: string, chars: set<char>, i: nat): (j: nat)
    requires i <= |s|
    ensures i <= j <= |s|
    ensures forall k :: i <= k < j ==> s[k] in chars
    ensures j < |s| ==> s[j] !in chars
    decreases |s| - i
  {
    if i < |s| && s[i] in chars then SkipLeading(s, chars, i + 1) else i
  }

  /**
   * Scanning down from `hi` but not below `lo`, the end of the text once the
   * characters in `chars` at its end are removed.
   */
  function SkipTrailing(s: string, chars: set<char>, lo: nat, hi: nat): (j: nat)
    requires lo <= hi <= |s|
    ensures lo <= j <= hi
    ensures forall k :: j <= k < hi ==> s[k] in chars
    ensures j > lo ==> s[j - 1] !in chars
    decreases hi
  {
    if hi > lo && s[hi - 1] in chars then SkipTrailing(s, chars, lo, hi - 1) else hi
  }

  /** Python's `s.lstrip(chars)`. */
  function LStrip(s: string, chars: set<char>): string {
    s[SkipLeading(s, chars, 0)..]
  }

  /** Python's `s.rstrip(chars)`. */
  function RStrip(s: string, chars: set<char>): string {
    s[..SkipTrailing(s, chars, 0, |s|)]
  }

  /** Where `strip` starts: the first character that is not whitespace. */
  function StripStart(s: string): nat {
    SkipLeading(s, Whitespace, 0)
  }

  /** Where `strip` ends: after the last character that is not whitespace, and not before the start. */
  function StripEnd(s: string): nat {
    SkipTrailing(s, Whitespace, StripStart(s), |s|)
  }

  /** Python's `s.strip()` with the ASCII whitespace set: leading, then trailing whitespace removed. */
  function Strip(s: string): string {
    s[StripStart(s)..StripEnd(s)]
  }

  /** Whether `s` has no whitespace at either end. */
  predicate Trimmed(s: string) {
    s != [] ==> s[0] !in Whitespace && s[|s| - 1] !in Whitespace
  }

  /** `r` is `s[i..i + |r|]` and everything of `s` outside that slice is whitespace. */
  predicate StrippedAt(s: string, r: string, i: int) {
    && 0 <= i <= |s| - |r|
    && r == s[i..i + |r|]
    && (forall k :: 0 <= k < i ==> s[k] in Whitespace)
    && (forall k :: i + |r| <= k < |s| ==> s[k] in Whitespace)
  }

  /**
   * `strip` leaves the slice of `s` that remains once the whitespace at
   * both ends is removed; it begins and ends in a non-whitespace character.
   */
  lemma StripShape(s: string)
    ensures StrippedAt(s, Strip(s), StripStart(s))
    ensures Trimmed(Strip(s))
  {
    var i := StripStart(s);
    var j := StripEnd(s);
    var r := Strip(s);
    assert |r| == j - i;
    if r != [] {
      assert r[0] == s[i];
      assert r[|r| - 1] == s[j - 1];
    }
  }

  /** A text without leading or trailing whitespace is its own strip. */
  lemma StripTrimmed(s: string)
    requires Trimmed(s)
    ensures Strip(s) == s
  {
    if s != [] {
      assert StripStart(s) == 0;
      assert StripEnd(s) == |s|;
    }
  }

  /** Stripping a trimmed string with whitespace in front of it gives the string. */
  lemma StripLeading(w: char, x: string)
    requires w in Whitespace
    requires Trimmed(x)
    ensures Strip([w] + x) == x
  {
    var s := [w] + x;
    assert SkipLeading(s, Whitespace, 0) == SkipLeading(s, Whitespace, 1);
    assert StripStart(s) == 1;
    assert StripEnd(s) == |s|;
    assert s[1..] == x;
  }

  /** A string of one whitespace character strips to nothing. */
  lemma StripBlank(w: char)
    requires w in Whitespace
    ensures Strip([w]) == ""
  {
    StripLeading(w, "");
    assert [w] + "" == [w];
  }

  /** A character that `strip` does not remove survives, so a strip has no new characters. */
  lemma StripSubstring(s: string, c: char)
    requires forall k :: 0 <= k < |s| ==> s[k] != c
    ensures forall k :: 0 <= k < |Strip(s)| ==> Strip(s)[k] != c
  {
    var r := Strip(s);
    var i := StripStart(s);
    forall k | 0 <= k < |r|
      ensures r[k] != c
    {
      assert r[k] == s[i + k];
    }
  }

  // ---------------------------------------------------------------------
  // int to str

  function Digit(d: nat): char
    requires d < 10
  {
    "0123456789"[d]
  }

  /** Python's `str(n)` for a natural number: decimal digits, no leading zero. */
  function NatToString(n: nat): (r: string)
    ensures |r| >= 1
    ensures forall k :: 0 <= k < |r| ==> '0' <= r[k] <= '9'
    ensures r[0] == '0' ==> n == 0
    decreases n
  {
    if n < 10 then [Digit(n)] else NatToString(n / 10) + [Digit(n % 10)]
  }

  /** The number a string of decimal digits denotes. */
  function DecimalValue(s: string): nat
    requires forall k :: 0 <= k < |s| ==> '0' <= s[k] <= '9'
  {
    if s == [] then 0 else DecimalValue(s[..|s| - 1]) * 10 + (s[|s| - 1] as int - '0' as int)
  }

  /** `str(n)` denotes `n`, so distinct numbers print differently. */
  lemma {:induction false} NatToStringValue(n: nat)
    ensures DecimalValue(NatToString(n)) == n
    decreases n
  {
    if n >= 10 {
      NatToStringValue(n / 10);
      var r := NatToString(n);
      assert r[..|r| - 1] == NatToString(n / 10);
    }
  }
}
