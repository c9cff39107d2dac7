/**
 The string built-ins that the form and the route rely on: JavaScript's
 `trim`, `split`, `join` and global `replace`, and Python's `strip` and the
 ASCII part of case-insensitive matching, and JavaScript's UTF-16 `length`.
 Both languages' whitespace sets are represented by one predicate, IsSpace,
 which is JavaScript's set restricted to ASCII; Python's `strip` and `\s` also
 take the separators U+001C to U+001F, which IsSpace leaves out.
 */
module Strings {

  /** The ASCII whitespace characters removed by JavaScript's `trim`, also
      used for Python's `strip` and `\s`. */
  predicate IsSpace(c: char) {
    c == ' ' || c == '\t' || c == '\n' || c == '\r' || c == '\U{000B}' || c == '\U{000C}'
  }

  /** Every character of `s` at an index in [lo, hi) is whitespace. */
  predicate SpacesIn(s: string, lo: int, hi: int)
    requires 0 <= lo && hi <= |s|
  {
    forall k :: lo <= k < hi ==> IsSpace(s[k])
  }

  predicate AllSpace(s: string) {
    SpacesIn(s, 0, |s|)
  }

  /** Neither the first nor the last character is whitespace. */
  predicate IsTrimmed(s: string) {
    |s| == 0 || (!IsSpace(s[0]) && !IsSpace(s[|s| - 1]))
  }

  /** `r` is `s` with a whitespace prefix and a whitespace suffix removed, and
      no other character changed. */
  ghost predicate IsInfixBetweenSpaces(r: string, s: string) {
    exists i, j :: 0 <= i <= j <= |s| && r == s[i..j] && SpacesIn(s, 0, i) && SpacesIn(s, j, |s|)
  }

  /** The index of the first non-whitespace character at or after `lo`. */
  function SkipSpaces(s: string, lo: nat): (i: nat)
    requires lo <= |s|
    ensures lo <= i <= |s| && SpacesIn(s, lo, i)
    ensures i == |s| || !IsSpace(s[i])
    decreases |s| - lo
  {
    if lo < |s| && IsSpace(s[lo]) then SkipSpaces(s, lo + 1) else lo
  }

  /** The index just after the last non-whitespace character before `hi`,
      looking no further back than `lo`. */
  function SkipSpacesBack(s: string, lo: nat, hi: nat): (j: nat)
    requires lo <= hi <= |s|
    ensures lo <= j <= hi && SpacesIn(s, j, hi)
    ensures j == lo || !IsSpace(s[j - 1])
    decreases hi
  {
    if lo < hi && IsSpace(s[hi - 1]) then SkipSpacesBack(s, lo, hi - 1) else hi
  }

  /** JavaScript `s.trim()` and Python `s.strip()`. */
  function Trim(s: string): (r: string)
    ensures IsTrimmed(r) && |r| <= |s|
    ensures r == "" <==> AllSpace(s)
  {
    var i := SkipSpaces(s, 0);
    var j := SkipSpacesBack(s, i, |s|);
    assert i == j ==> AllSpace(s) by {
      if i == j { SpacesJoin(s, 0, i, |s|); }
    }
    assert AllSpace(s) ==> i == |s|;
    s[i..j]
  }

  /** Trim removes a whitespace prefix and a whitespace suffix and changes
      nothing else. */
  lemma TrimIsInfix(s: string)
    ensures IsInfixBetweenSpaces(Trim(s), s)
  {
    var i := SkipSpaces(s, 0);
    var j := SkipSpacesBack(s, i, |s|);
    assert Trim(s) == s[i..j];
  }

  lemma SpacesJoin(s: string, a: int, b: int, c: int)
    requires 0 <= a <= b <= c <= |s| && SpacesIn(s, a, b) && SpacesIn(s, b, c)
    ensures SpacesIn(s, a, c)
  {
  }

  /** Removing whitespace margins so that a trimmed string remains has exactly
      one outcome: the reference definition that Trim meets. */
  lemma TrimUnique(s: string, r: string)
    requires IsTrimmed(r) && IsInfixBetweenSpaces(r, s)
    ensures r == Trim(s)
  {
    var i, j :| 0 <= i <= j <= |s| && r == s[i..j] && SpacesIn(s, 0, i) && SpacesIn(s, j, |s|);
    assert Trim(s) == s[SkipSpaces(s, 0)..SkipSpacesBack(s, SkipSpaces(s, 0), |s|)];
    var i' := SkipSpaces(s, 0);
    var j' := SkipSpacesBack(s, i', |s|);
    if i == j {
      SpacesJoin(s, 0, i, |s|);
    } else {
      assert !IsSpace(s[i]) && !IsSpace(s[j - 1]) by { assert r[0] == s[i] && r[|r| - 1] == s[j - 1]; }
      assert i' == i;
      assert j' == j;
    }
  }

  lemma TrimTrimmed(s: string)
    requires IsTrimmed(s)
    ensures Trim(s) == s
  {
    assert s == s[0..|s|];
    TrimUnique(s, s);
  }

  /** `c` does not occur in any of the strings of `parts`. */
  predicate NoneContains(parts: seq<string>, c: char) {
    forall k :: 0 <= k < |parts| ==> c !in parts[k]
  }

  /** The index of the first occurrence of `d` in `s`. */
  function IndexOf(s: string, d: char): (i: nat)
    requires d in s
    ensures i < |s| && s[i] == d && d !in s[..i]
    ensures forall k :: 0 <= k < i ==> s[k] != d
  {
    if s[0] == d then 0 else 1 + IndexOf(s[1..], d)
  }

  /** JavaScript `s.split(d)` for a one-character separator: the separator-free
      pieces between consecutive occurrences of `d`, empty pieces included. */
  function Split(s: string, d: char): (parts: seq<string>)
    ensures |parts| >= 1
    ensures NoneContains(parts, d)
    decreases |s|
  {
    if d !in s then [s]
    else
      var i := IndexOf(s, d);
      [s[..i]] + Split(s[i + 1..], d)
  }

  /** JavaScript `parts.join(sep)`. */
  function JoinWith(parts: seq<string>, sep: string): string {
    if |parts| == 0 then ""
    else if |parts| == 1 then parts[0]
    else parts[0] + sep + JoinWith(parts[1..], sep)
  }

  /** Splitting is undone by joining the pieces with the separator. */
  lemma {:induction false} JoinSplit(s: string, d: char)
    ensures JoinWith(Split(s, d), [d]) == s
    decreases |s|
  {
    if d in s {
      var i := IndexOf(s, d);
      var rest := Split(s[i + 1..], d);
      JoinSplit(s[i + 1..], d);
      assert Split(s, d) == [s[..i]] + rest;
      assert (Split(s, d))[1..] == rest;
      assert s == s[..i] + [d] + s[i + 1..];
    }
  }

  /** Joining separator-free pieces and splitting again gives the pieces back. */
  lemma {:induction false} SplitJoin(parts: seq<string>, d: char)
    requires |parts| >= 1 && NoneContains(parts, d)
    ensures Split(JoinWith(parts, [d]), d) == parts
    decreases |parts|
  {
    if |parts| > 1 {
      var tail := JoinWith(parts[1..], [d]);
      SplitJoin(parts[1..], d);
      SplitAround(parts[0], tail, d);
      assert parts == [parts[0]] + parts[1..];
    }
  }

  /** A separator-free prefix followed by the separator is split off as one piece. */
  lemma SplitAround(a: string, b: string, d: char)
    requires d !in a
    ensures Split(a + [d] + b, d) == [a] + Split(b, d)
  {
    var s := a + [d] + b;
    assert s[|a|] == d;
    var i := IndexOf(s, d);
    assert s[..i] == a && s[i + 1..] == b;
  }

  /** Splitting at an occurrence of the separator splits the two sides independently. */
  lemma {:induction false} SplitConcat(a: string, b: string, d: char)
    ensures Split(a + [d] + b, d) == Split(a, d) + Split(b, d)
    decreases |a|
  {
    if d !in a {
      SplitAround(a, b, d);
    } else {
      var i := IndexOf(a, d);
      var a1, a2 := a[..i], a[i + 1..];
      var rest := a2 + [d] + b;
      assert a == a1 + [d] + a2;
      assert a + [d] + b == a1 + [d] + rest;
      calc {
        Split(a + [d] + b, d);
        { SplitAround(a1, rest, d); }
        [a1] + Split(rest, d);
        { SplitConcat(a2, b, d); }
        [a1] + (Split(a2, d) + Split(b, d));
        ([a1] + Split(a2, d)) + Split(b, d);
        { SplitAround(a1, a2, d); }
        Split(a, d) + Split(b, d);
      }
    }
  }

  /** JavaScript `s.replace(/x/g, y)` for single characters `x` and `y`. */
  function ReplaceChar(s: string, x: char, y: char): (r: string)
    ensures |r| == |s|
    ensures x != y ==> x !in r
    ensures forall k :: 0 <= k < |s| && s[k] != x ==> r[k] == s[k]
    ensures forall k :: 0 <= k < |s| && s[k] == x ==> r[k] == y
  {
    seq(|s|, k requires 0 <= k < |s| => if s[k] == x then y else s[k])
  }

  lemma ReplaceCharConcat(a: string, b: string, x: char, y: char)
    ensures ReplaceChar(a + b, x, y) == ReplaceChar(a, x, y) + ReplaceChar(b, x, y)
  {
  }

  /** The lower-case form used by Python's ASCII case-insensitive matching. */
  function LowerChar(c: char): (r: char)
    ensures 'A' <= c <= 'Z' ==> 'a' <= r <= 'z' && r as int == c as int + 32
    ensures !('A' <= c <= 'Z') ==> r == c
  {
    if 'A' <= c <= 'Z' then (c as int + 32) as char else c
  }

  /** Code units per character in UTF-16: two above the Basic Multilingual Plane. */
  function Utf16Units(c: char): nat {
    if c > '\U{FFFF}' then 2 else 1
  }

  /** JavaScript `s.length`: the number of UTF-16 code units of `s`, between
      the number of characters and twice that. */
  function Utf16Length(s: string): (n: nat)
    ensures |s| <= n <= 2 * |s|
    decreases |s|
  {
    if |s| == 0 then 0 else Utf16Units(s[0]) + Utf16Length(s[1..])
  }

  /** The code-unit count equals the number of characters exactly when none
      lies above the Basic Multilingual Plane, and is twice it exactly when
      all do. */
  lemma {:induction false} Utf16LengthExtremes(s: string)
    ensures Utf16Length(s) == |s| <==> forall k :: 0 <= k < |s| ==> s[k] <= '\U{FFFF}'
    ensures Utf16Length(s) == 2 * |s| <==> forall k :: 0 <= k < |s| ==> s[k] > '\U{FFFF}'
    decreases |s|
  {
    if |s| > 0 {
      Utf16LengthExtremes(s[1..]);
      assert forall k :: 1 <= k < |s| ==> s[k] == s[1..][k - 1];
    }
  }
}
