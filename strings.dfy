/**
 * The string operations of the JavaScript runtime that the application relies on:
 * the `\s` character class and `trim`, `toLowerCase` on ASCII letters, `indexOf`,
 * `replace` with a string pattern (first occurrence only), `split` on one character,
 * and decimal rendering of numbers.
 */
module Strings {
  import opened Wrappers

  /** ECMAScript WhiteSpace and LineTerminator code points: what `\s` matches and `trim` removes. */
  predicate IsSpace(c: char) {
    c == ' ' || c == '\t' || c == '\n' || c == '\r' || c == '\U{000B}' || c == '\U{000C}'
    || c == '\U{00A0}' || c == '\U{1680}' || ('\U{2000}' <= c <= '\U{200A}')
    || c == '\U{2028}' || c == '\U{2029}' || c == '\U{202F}' || c == '\U{205F}'
    || c == '\U{3000}' || c == '\U{FEFF}'
  }

  predicate IsAsciiUpper(c: char) { 'A' <= c <= 'Z' }
  predicate IsAsciiLower(c: char) { 'a' <= c <= 'z' }
  predicate IsDigit(c: char) { '0' <= c <= '9' }

  /** The characters of the regular-expression class `\w` (no Unicode flag). */
  predicate IsWordChar(c: char) { IsAsciiUpper(c) || IsAsciiLower(c) || IsDigit(c) || c == '_' }

  predicate AllSpace(s: string) { forall i :: 0 <= i < |s| ==> IsSpace(s[i]) }
  predicate NoSpace(s: string) { forall i :: 0 <= i < |s| ==> !IsSpace(s[i]) }

  /** Neither end of `s` is white space, so `trim` leaves it alone. */
  predicate Trimmed(s: string) { s == [] || (!IsSpace(s[0]) && !IsSpace(s[|s| - 1])) }

  function LowerChar(c: char): (r: char)
    ensures !IsAsciiUpper(r)
    ensures !IsAsciiUpper(c) ==> r == c
    ensures IsAsciiUpper(c) ==> IsAsciiLower(r)
  {
    if IsAsciiUpper(c) then (c as int + 32) as char else c
  }

  /** `toLowerCase`, restricted to the ASCII letters. */
  function Lower(s: string): (r: string)
    ensures |r| == |s|
    ensures forall i :: 0 <= i < |s| ==> r[i] == LowerChar(s[i])
  {
    seq(|s|, i requires 0 <= i < |s| => LowerChar(s[i]))
  }

  /** Drops the white space at the front of `s`. */
  function TrimStart(s: string): (r: string)
    ensures |r| <= |s| && r == s[|s| - |r|..]
    ensures AllSpace(s[..|s| - |r|])
    ensures r == [] || !IsSpace(r[0])
  {
    if s != [] && IsSpace(s[0]) then TrimStart(s[1..]) else s
  }

  /** Drops the white space at the end of `s`. */
  function TrimEnd(s: string): (r: string)
    ensures |r| <= |s| && r == s[..|r|]
    ensures AllSpace(s[|r|..])
    ensures r == [] || !IsSpace(r[|r| - 1])
  {
    if s != [] && IsSpace(s[|s| - 1]) then TrimEnd(s[..|s| - 1]) else s
  }

  /** `String.prototype.trim`. */
  function Trim(s: string): (r: string)
    ensures |r| <= |s|
    ensures Trimmed(r)
  {
    TrimEnd(TrimStart(s))
  }

  lemma {:induction false} TrimStartPadded(a: string, x: string)
    requires AllSpace(a)
    requires x == [] || !IsSpace(x[0])
    ensures TrimStart(a + x) == x
    decreases |a|
  {
    if a != [] {
      assert (a + x)[1..] == a[1..] + x;
      TrimStartPadded(a[1..], x);
    }
  }

  lemma {:induction false} TrimEndPadded(x: string, b: string)
    requires AllSpace(b)
    requires x == [] || !IsSpace(x[|x| - 1])
    ensures TrimEnd(x + b) == x
    decreases |b|
  {
    if b != [] {
      assert (x + b)[..|x + b| - 1] == x + b[..|b| - 1];
      TrimEndPadded(x, b[..|b| - 1]);
    }
  }

  /** Trimming removes exactly the white-space padding around a trimmed core. */
  lemma TrimPadded(a: string, x: string, b: string)
    requires AllSpace(a) && AllSpace(b) && Trimmed(x)
    ensures Trim(a + x + b) == x
  {
    assert a + x + b == a + (x + b);
    if x == [] {
      assert a + x + b == a + b;
      TrimStartAllSpace(a + b);
    } else {
      TrimStartPadded(a, x + b);
      TrimEndPadded(x, b);
    }
  }

  /** White space added around a string does not change what trimming it gives. */
  lemma {:induction false} TrimIgnoresPadding(a: string, s: string, b: string)
    requires AllSpace(a) && AllSpace(b)
    ensures Trim(a + s + b) == Trim(s)
  {
    var pre, tail := TrimSplit(s);
    Regroup(a, s, b, pre, Trim(s), tail);
    TrimPadded(a + pre, Trim(s), tail + b);
  }

  lemma Regroup(a: string, s: string, b: string, p: string, t: string, q: string)
    requires s == p + t + q
    ensures a + s + b == (a + p) + t + (q + b)
  {
  }

  /** Every string is its trimmed text padded with white space on both sides. */
  lemma {:induction false} TrimSplit(s: string) returns (pre: string, tail: string)
    ensures AllSpace(pre) && AllSpace(tail)
    ensures s == pre + Trim(s) + tail
  {
    pre := TrimStartSplit(s);
    tail := TrimEndSplit(TrimStart(s));
  }

  lemma {:induction false} TrimStartSplit(s: string) returns (pre: string)
    ensures AllSpace(pre) && s == pre + TrimStart(s)
  {
    pre := s[..|s| - |TrimStart(s)|];
  }

  lemma {:induction false} TrimEndSplit(s: string) returns (tail: string)
    ensures AllSpace(tail) && s == TrimEnd(s) + tail
  {
    tail := s[|TrimEnd(s)|..];
  }

  /** Lowering is idempotent. */
  lemma LowerTwice(s: string)
    ensures Lower(Lower(s)) == Lower(s)
  {
  }

  /** Lowering works character by character, so it distributes over concatenation. */
  lemma LowerConcat(a: string, b: string)
    ensures Lower(a + b) == Lower(a) + Lower(b)
  {
  }

  lemma TrimStartAllSpace(s: string)
    requires AllSpace(s)
    ensures TrimStart(s) == []
  {
  }

  /** `s.trim()` is empty exactly when `s` is white space only. */
  lemma AllSpaceIsTrimmedEmpty(s: string)
    ensures AllSpace(s) <==> Trim(s) == ""
  {
    var start := TrimStart(s);
    if Trim(s) == "" {
      assert AllSpace(start[0..]);
      assert start == [];
      assert s[..|s|] == s;
    } else if AllSpace(s) {
      TrimStartAllSpace(s);
    }
  }

  /** `pat` occurs in `s` at position `i`. */
  predicate OccursAt(s: string, pat: string, i: nat) {
    i + |pat| <= |s| && s[i..i + |pat|] == pat
  }

  /** The first position at or after `from` where `pat` occurs, if any. */
  function IndexFrom(s: string, pat: string, from: nat): (r: Option<nat>)
    ensures r.Some? ==> from <= r.value && OccursAt(s, pat, r.value)
    decreases |s| - from
  {
    if |s| < from + |pat| then None
    else if OccursAt(s, pat, from) then Some(from)
    else IndexFrom(s, pat, from + 1)
  }

  /** `indexOf`: the first position of `pat` in `s`, if any (see `IndexOfIsFirst`). */
  function IndexOf(s: string, pat: string): (r: Option<nat>)
    ensures r.Some? ==> OccursAt(s, pat, r.value)
  {
    IndexFrom(s, pat, 0)
  }

  lemma {:induction false} IndexFromIsFirst(s: string, pat: string, from: nat)
    ensures IndexFrom(s, pat, from).Some? ==> forall j: nat :: from <= j < IndexFrom(s, pat, from).value ==> !OccursAt(s, pat, j)
    ensures IndexFrom(s, pat, from).None? ==> forall j: nat :: from <= j ==> !OccursAt(s, pat, j)
    decreases |s| - from
  {
    if |s| >= from + |pat| && !OccursAt(s, pat, from) {
      IndexFromIsFirst(s, pat, from + 1);
    }
  }

  /** `IndexOf` finds the first occurrence, and finds none only when there is none. */
  lemma IndexOfIsFirst(s: string, pat: string)
    ensures IndexOf(s, pat).Some? ==> forall j: nat :: j < IndexOf(s, pat).value ==> !OccursAt(s, pat, j)
    ensures IndexOf(s, pat).None? ==> forall j: nat :: !OccursAt(s, pat, j)
  {
    IndexFromIsFirst(s, pat, 0);
  }

  predicate Contains(s: string, pat: string) {
    IndexOf(s, pat).Some?
  }

  /** `s.replace(pat, rep)` with a string pattern: only the first occurrence is replaced. */
  function ReplaceFirst(s: string, pat: string, rep: string): string {
    Splice(s, IndexOf(s, pat), |pat|, rep)
  }

  /** `s` with the `n` characters at `at`, if any, replaced by `rep`. */
  function Splice(s: string, at: Option<nat>, n: nat, rep: string): string
    requires at.Some? ==> at.value + n <= |s|
  {
    match at
    case None => s
    case Some(i) => s[..i] + rep + s[i + n..]
  }

  /** A prefix that cannot start an occurrence of `pat` does not move the first occurrence. */
  lemma IndexOfAfterPrefix(p: string, rest: string, pat: string)
    requires pat != [] && pat[0] !in p
    ensures IndexOf(p + rest, pat) == Shifted(IndexOf(rest, pat), |p|)
  {
    IndexFromInPrefix(p, rest, pat, 0);
  }

  lemma {:induction false} IndexFromInPrefix(p: string, rest: string, pat: string, i: nat)
    requires pat != [] && pat[0] !in p && i <= |p|
    ensures IndexFrom(p + rest, pat, i) == Shifted(IndexFrom(rest, pat, 0), |p|)
    decreases |p| - i
  {
    if i == |p| {
      IndexFromInRest(p, rest, pat, 0);
    } else {
      var s := p + rest;
      assert s[i] == p[i] != pat[0];
      if i + |pat| <= |s| {
        assert s[i..i + |pat|][0] == s[i];
      }
      IndexFromInPrefix(p, rest, pat, i + 1);
    }
  }

  lemma {:induction false} IndexFromInRest(p: string, rest: string, pat: string, j: nat)
    ensures IndexFrom(p + rest, pat, |p| + j) == Shifted(IndexFrom(rest, pat, j), |p|)
    decreases |rest| - j
  {
    if |rest| >= j + |pat| {
      assert (p + rest)[|p| + j..|p| + j + |pat|] == rest[j..j + |pat|];
      if !OccursAt(rest, pat, j) {
        IndexFromInRest(p, rest, pat, j + 1);
      }
    }
  }

  /** A position moved `n` places to the right. */
  function Shifted(i: Option<nat>, n: nat): (r: Option<nat>)
    ensures r.Some? <==> i.Some?
  {
    match i
    case None => None
    case Some(k) => Some(k + n)
  }

  /** Replacing the first `pat` leaves a prefix alone when that prefix cannot start `pat`. */
  lemma ReplaceFirstAfterPrefix(p: string, rest: string, pat: string, rep: string)
    requires pat != [] && pat[0] !in p
    ensures ReplaceFirst(p + rest, pat, rep) == p + ReplaceFirst(rest, pat, rep)
  {
    IndexOfAfterPrefix(p, rest, pat);
    SpliceAfterPrefix(p, rest, IndexOf(rest, pat), |pat|, rep);
  }

  lemma SpliceAfterPrefix(p: string, rest: string, at: Option<nat>, n: nat, rep: string)
    requires at.Some? ==> at.value + n <= |rest|
    ensures Splice(p + rest, Shifted(at, |p|), n, rep) == p + Splice(rest, at, n, rep)
  {
    if at.Some? {
      var k := at.value;
      assert (p + rest)[..|p| + k] == p + rest[..k];
      assert (p + rest)[|p| + k + n..] == rest[k + n..];
    }
  }

  /** A string that starts with `pat` has that occurrence replaced. */
  lemma ReplaceFirstAtStart(pat: string, rest: string, rep: string)
    ensures ReplaceFirst(pat + rest, pat, rep) == rep + rest
  {
    assert OccursAt(pat + rest, pat, 0);
    assert (pat + rest)[|pat|..] == rest;
  }

  /** `s.split(sep)` for a one-character separator. */
  function Split(s: string, sep: char): (r: seq<string>)
    ensures |r| >= 1
    ensures sep in s ==> |r| >= 2
    ensures sep !in s ==> r == [s]
  {
    if s == [] then [""]
    else
      var rest := Split(s[1..], sep);
      if s[0] == sep then [""] + rest
      else
        assert sep in s ==> sep in s[1..] by {
          if sep in s {
            var i :| 0 <= i < |s| && s[i] == sep;
            assert s[1..][i - 1] == sep;
          }
        }
        assert [s[0]] + s[1..] == s;
        [[s[0]] + rest[0]] + rest[1..]
  }

  /** Splitting after a separator-free head gives the head, then the pieces of the rest. */
  lemma {:induction false} SplitAfterHead(a: string, sep: char, b: string)
    requires sep !in a
    ensures Split(a + [sep] + b, sep) == [a] + Split(b, sep)
  {
    var s := a + [sep] + b;
    if a == [] {
      assert s == [sep] + b;
      assert s[1..] == b;
    } else {
      assert s[1..] == a[1..] + [sep] + b;
      SplitAfterHead(a[1..], sep, b);
      assert [a[0]] + a[1..] == a;
    }
  }

  /** `s.split(/\s+/)`: the pieces between maximal runs of whitespace, with an empty first or last piece when `s` starts or ends with whitespace. */
  function SplitWhitespace(s: string): (r: seq<string>)
    ensures |r| >= 1
    ensures forall k :: 0 <= k < |r| ==> NoSpace(r[k])
    ensures forall k :: 0 < k < |r| - 1 ==> r[k] != ""
    ensures s != [] && !IsSpace(s[0]) ==> r[0] != ""
    ensures NoSpace(s) ==> r == [s]
  {
    if s == [] then [""]
    else
      var rest := SplitWhitespace(s[1..]);
      if IsSpace(s[0]) then
        if |s| > 1 && IsSpace(s[1]) then rest else [""] + rest
      else
        assert [s[0]] + s[1..] == s;
        [[s[0]] + rest[0]] + rest[1..]
  }

  function Digit(n: nat): (c: char)
    requires n < 10
    ensures IsDigit(c)
  {
    ('0' as int + n) as char
  }

  /** The decimal rendering of a natural number, as `String(n)` gives it. */
  function DecimalText(n: nat): (r: string)
    ensures r != []
    ensures forall i :: 0 <= i < |r| ==> IsDigit(r[i])
  {
    if n < 10 then [Digit(n)] else DecimalText(n / 10) + [Digit(n % 10)]
  }

  /** The decimal rendering of an integer, with a leading `-` when negative. */
  function IntText(i: int): (r: string)
    ensures r != []
  {
    if i < 0 then "-" + DecimalText(-i) else DecimalText(i)
  }

  predicate StartsWith(s: string, prefix: string) {
    |prefix| <= |s| && s[..|prefix|] == prefix
  }

  predicate EndsWith(s: string, suffix: string) {
    |suffix| <= |s| && s[|s| - |suffix|..] == suffix
  }
}
