/** The ECMAScript string built-ins the services rely on: `trim`, the `\s`
    class, `indexOf`, `split`, `join` and the decimal rendering of a number
    in a template literal. Strings are sequences of Unicode scalar values. */
module Text {
  import opened Basics

  /** ECMAScript WhiteSpace and LineTerminator code points: exactly what
      `String.prototype.trim` removes and what the regex class `\s` matches. */
  predicate IsSpace(c: char)
  {
    c == ' ' || c == '\t' || c == '\n' || c == '\r' || c == '\U{000B}' || c == '\U{000C}'
    || c == '\U{00A0}' || c == '\U{1680}' || ('\U{2000}' <= c <= '\U{200A}')
    || c == '\U{2028}' || c == '\U{2029}' || c == '\U{202F}' || c == '\U{205F}'
    || c == '\U{3000}' || c == '\U{FEFF}'
  }

  predicate Blank(s: string)
  {
    forall k :: 0 <= k < |s| ==> IsSpace(s[k])
  }

  /** The first index at or after `i` that does not hold white space. */
  function SkipSpaces(s: string, i: nat): (j: nat)
    requires i <= |s|
    ensures i <= j <= |s|
    ensures forall k :: i <= k < j ==> IsSpace(s[k])
    ensures j < |s| ==> !IsSpace(s[j])
    decreases |s| - i
  {
    if i < |s| && IsSpace(s[i]) then SkipSpaces(s, i + 1) else i
  }

  /** The end of `s[lo..n]` once its trailing white space is dropped. */
  function BackSpaces(s: string, lo: nat, n: nat): (m: nat)
    requires lo <= n <= |s|
    ensures lo <= m <= n
    ensures forall k :: m <= k < n ==> IsSpace(s[k])
    ensures m > lo ==> !IsSpace(s[m - 1])
  {
    if n > lo && IsSpace(s[n - 1]) then BackSpaces(s, lo, n - 1) else n
  }

  /** `String.prototype.trim`: the factor of `s` left once white space is
      removed from both ends; it neither starts nor ends with white space. */
  function Trim(s: string): (r: string)
    ensures r != [] ==> !IsSpace(r[0]) && !IsSpace(r[|r| - 1])
    ensures |r| <= |s|
    ensures exists i :: 0 <= i && i + |r| <= |s| && r == s[i..i + |r|] && Blank(s[..i]) && Blank(s[i + |r|..])
  {
    var i := SkipSpaces(s, 0);
    var j := BackSpaces(s, i, |s|);
    var r := s[i..j];
    assert Blank(s[..i]);
    assert Blank(s[i + |r|..]);
    assert r == s[i..i + |r|];
    r
  }

  /** `s.trim()` is falsy exactly when `s` is all white space. */
  lemma TrimEmptyIffBlank(s: string)
    ensures Trim(s) == [] <==> Blank(s)
  {
    var i := SkipSpaces(s, 0);
    var j := BackSpaces(s, i, |s|);
    assert Trim(s) == s[i..j];
    if Blank(s) {
      assert i == |s|;
    }
  }

  /** `pat` occurs in `s` starting at index `k`. */
  predicate OccursAt(s: string, pat: string, k: int)
  {
    0 <= k && k + |pat| <= |s| && s[k..k + |pat|] == pat
  }

  /** `s.indexOf(pat, from)`, with `None` for -1: the first occurrence at or after `from`. */
  function IndexOf(s: string, pat: string, from: nat): (r: Option<nat>)
    ensures r.Some? ==> from <= r.value && OccursAt(s, pat, r.value)
    ensures r.Some? ==> forall j :: from <= j < r.value ==> !OccursAt(s, pat, j)
    ensures r.None? ==> forall j :: from <= j ==> !OccursAt(s, pat, j)
    decreases |s| - from
  {
    if from + |pat| > |s| then None
    else if s[from..from + |pat|] == pat then Some(from)
    else IndexOf(s, pat, from + 1)
  }

  /** `Array.prototype.join(sep)`. */
  function Join(parts: seq<string>, sep: string): string
  {
    if |parts| == 0 then ""
    else if |parts| == 1 then parts[0]
    else parts[0] + sep + Join(parts[1..], sep)
  }

  /** `s.split(sep)` for a non-empty separator: cut at each occurrence, left to right. */
  function Split(s: string, sep: string): (parts: seq<string>)
    requires |sep| > 0
    ensures |parts| >= 1
    ensures Join(parts, sep) == s
    decreases |s|
  {
    match IndexOf(s, sep, 0)
    case None => [s]
    case Some(i) =>
      var rest := Split(s[i + |sep|..], sep);
      Around(s, i, i + |sep|);
      [s[..i]] + rest
  }

  /** No part of `s.split(sep)` contains `sep`. */
  lemma {:induction false} SplitPartsFree(s: string, sep: string)
    requires |sep| > 0
    ensures forall k, j :: 0 <= k < |Split(s, sep)| ==> !OccursAt(Split(s, sep)[k], sep, j)
    decreases |s|
  {
    match IndexOf(s, sep, 0)
    case None =>
    case Some(i) =>
      SplitPartsFree(s[i + |sep|..], sep);
      var head := s[..i];
      forall j | OccursAt(head, sep, j) ensures false {
        assert head[j..j + |sep|] == s[j..j + |sep|];
        assert OccursAt(s, sep, j);
      }
  }

  /** The first part of `s.split(sep)` is the prefix of `s` before the first
      occurrence of `sep`, or all of `s` when there is none; the other parts
      rejoin into the text after that occurrence. */
  lemma SplitFirst(s: string, sep: string)
    requires |sep| > 0
    ensures var parts := Split(s, sep);
      && |parts[0]| <= |s| && parts[0] == s[..|parts[0]|]
      && (|parts| == 1 <==> !exists j :: OccursAt(s, sep, j))
      && (|parts| == 1 ==> parts[0] == s)
      && (|parts| > 1 ==> OccursAt(s, sep, |parts[0]|) && forall j :: 0 <= j < |parts[0]| ==> !OccursAt(s, sep, j))
      && (|parts| > 1 ==> Join(parts[1..], sep) == s[|parts[0]| + |sep|..])
      && (|parts| > 1 ==> parts[1..] == Split(s[|parts[0]| + |sep|..], sep))
      && s == if |parts| == 1 then parts[0] else parts[0] + sep + Join(parts[1..], sep)
  {
    match IndexOf(s, sep, 0)
    case None =>
    case Some(i) =>
      assert Split(s, sep)[1..] == Split(s[i + |sep|..], sep);
  }

  /** `part` followed by `sep` holds no occurrence of `sep` that starts
      inside `part`: the cut after `part` is the leftmost one. */
  predicate CutLeftmost(part: string, sep: string)
  {
    forall j :: 0 <= j < |part| ==> !OccursAt(part + sep, sep, j)
  }

  /** The text before the first occurrence is cut there leftmost. */
  lemma FirstCutLeftmost(s: string, sep: string, i: nat)
    requires |sep| > 0 && IndexOf(s, sep, 0) == Some(i)
    ensures CutLeftmost(s[..i], sep)
  {
    var head := s[..i] + sep;
    assert head == s[..i + |sep|];
    forall j | 0 <= j < i && OccursAt(head, sep, j) ensures false {
      assert head[j..j + |sep|] == s[j..j + |sep|];
      assert OccursAt(s, sep, j);
    }
  }

  /** Every cut of `s.split(sep)` is at the leftmost occurrence left, so a
      run of three line breaks split on two leaves the third at the start of
      the next part. */
  lemma {:induction false} SplitCutsLeftmost(s: string, sep: string)
    requires |sep| > 0
    ensures forall k :: 0 <= k < |Split(s, sep)| - 1 ==> CutLeftmost(Split(s, sep)[k], sep)
    decreases |s|
  {
    match IndexOf(s, sep, 0)
    case None =>
    case Some(i) =>
      var rest := Split(s[i + |sep|..], sep);
      SplitCutsLeftmost(s[i + |sep|..], sep);
      FirstCutLeftmost(s, sep, i);
      assert Split(s, sep) == [s[..i]] + rest;
  }

  function Digit(d: nat): (c: char)
    requires d < 10
    ensures '0' <= c <= '9' && c as int - '0' as int == d
  {
    ('0' as int + d) as char
  }

  predicate AllDigits(s: string)
  {
    forall k :: 0 <= k < |s| ==> '0' <= s[k] <= '9'
  }

  /** The number a string of decimal digits denotes. */
  function DigitsValue(s: string): nat
    requires AllDigits(s)
  {
    if s == [] then 0 else DigitsValue(s[..|s| - 1]) * 10 + (s[|s| - 1] as int - '0' as int)
  }

  /** The decimal text of a whole number, as a template literal renders it. */
  function NatToString(n: nat): (s: string)
    ensures |s| >= 1 && AllDigits(s)
    ensures DigitsValue(s) == n
    ensures s[0] == '0' ==> n == 0
  {
    if n < 10 then [Digit(n)]
    else
      var p := NatToString(n / 10);
      var s := p + [Digit(n % 10)];
      assert s[..|s| - 1] == p;
      s
  }
}
