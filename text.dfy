/** ASCII text primitives the system relies on: whitespace stripping,
    lower-casing, substring containment and character classes. */
module Text {

  /** ASCII whitespace as stripping sees it: tab, line feed, vertical tab,
      form feed, carriage return, the four separators 0x1C..0x1F, space. */
  predicate IsSpace(c: char) {
    var n := c as int;
    n == 32 || 9 <= n <= 13 || 28 <= n <= 31
  }

  predicate IsDigit(c: char) {
    '0' <= c <= '9'
  }

  predicate IsLetter(c: char) {
    'a' <= c <= 'z' || 'A' <= c <= 'Z'
  }

  predicate AllSpace(s: string) {
    forall i :: 0 <= i < |s| ==> IsSpace(s[i])
  }

  predicate AllDigits(s: string) {
    forall i :: 0 <= i < |s| ==> IsDigit(s[i])
  }

  predicate HasDigit(s: string) {
    exists i :: 0 <= i < |s| && IsDigit(s[i])
  }

  predicate HasLetter(s: string) {
    exists i :: 0 <= i < |s| && IsLetter(s[i])
  }

  /** `s` has no whitespace at either end (the empty string included). */
  predicate Trimmed(s: string) {
    s == [] || (!IsSpace(s[0]) && !IsSpace(s[|s| - 1]))
  }

  /** Whitespace stripped from both ends, one character at a time. */
  function Strip(s: string): (r: string)
    ensures Trimmed(r)
    ensures |r| <= |s|
    decreases |s|
  {
    if s != [] && IsSpace(s[0]) then Strip(s[1..])
    else if s != [] && IsSpace(s[|s| - 1]) then Strip(s[..|s| - 1])
    else s
  }

  /** Stripping twice is stripping once. */
  lemma StripIdempotent(s: string)
    ensures Strip(Strip(s)) == Strip(s)
  {
    var t := Strip(s);
    assert !(t != [] && IsSpace(t[0])) && !(t != [] && IsSpace(t[|t| - 1]));
  }

  /** Whitespace added around a string does not change what stripping
      gives. */
  lemma {:induction false} StripPadding(a: string, s: string, b: string)
    requires AllSpace(a) && AllSpace(b)
    ensures Strip(a + s + b) == Strip(s)
    decreases |a| + |s| + |b|
  {
    var x := a + s + b;
    if a != [] {
      assert x[0] == a[0] && x[1..] == a[1..] + s + b;
      StripPadding(a[1..], s, b);
    } else if s != [] && IsSpace(s[0]) {
      assert x == s + b && x[0] == s[0];
      assert x[1..] == [] + s[1..] + b;
      StripPadding([], s[1..], b);
    } else if b != [] && s == [] {
      assert x == b && x[1..] == [] + [] + b[1..];
      StripPadding([], [], b[1..]);
    } else if b != [] {
      assert x == s + b && x[0] == s[0] && x[|x| - 1] == b[|b| - 1];
      assert x[..|x| - 1] == [] + s + b[..|b| - 1];
      StripPadding([], s, b[..|b| - 1]);
    } else {
      assert x == s;
    }
  }

  /** A string without whitespace at its ends is left as it is, whatever
      whitespace surrounds it. */
  lemma StripUnique(a: string, t: string, b: string)
    requires AllSpace(a) && AllSpace(b) && Trimmed(t)
    ensures Strip(a + t + b) == t
  {
    StripPadding(a, t, b);
    assert !(t != [] && IsSpace(t[0])) && !(t != [] && IsSpace(t[|t| - 1]));
  }

  /** ASCII lower-casing of one character: a capital moves to its small
      letter, 32 code points on; every other character stays. */
  function LowerChar(c: char): (r: char)
    ensures IsLetter(c) ==> 'a' <= r <= 'z'
    ensures 'A' <= c <= 'Z' ==> r as int == c as int + 32
    ensures !('A' <= c <= 'Z') ==> r == c
  {
    if 'A' <= c <= 'Z' then (c as int - 'A' as int + 'a' as int) as char else c
  }

  /** ASCII lower-casing of a string, character by character. */
  function Lower(s: string): (r: string)
    ensures |r| == |s|
    ensures forall i :: 0 <= i < |s| ==> r[i] == LowerChar(s[i])
  {
    seq(|s|, i requires 0 <= i < |s| => LowerChar(s[i]))
  }

  /** `c` and `d` are the same character, or the capital and small form of
      the same ASCII letter. */
  predicate SameIgnoringCase(c: char, d: char) {
    || c == d
    || ('A' <= c <= 'Z' && d as int == c as int + 32)
    || ('A' <= d <= 'Z' && c as int == d as int + 32)
  }

  /** `a` and `b` differ at most in the case of their ASCII letters. */
  predicate EqualIgnoringCase(a: string, b: string) {
    |a| == |b| && forall i :: 0 <= i < |a| ==> SameIgnoringCase(a[i], b[i])
  }

  /** Lower-casing identifies exactly the strings that differ only in the
      case of their ASCII letters. */
  lemma LowerIgnoresCase(a: string, b: string)
    ensures EqualIgnoringCase(a, b) <==> Lower(a) == Lower(b)
  {
    if EqualIgnoringCase(a, b) {
      forall i | 0 <= i < |a|
        ensures Lower(a)[i] == Lower(b)[i]
      {
        assert SameIgnoringCase(a[i], b[i]);
      }
    }
    if Lower(a) == Lower(b) {
      forall i | 0 <= i < |a|
        ensures SameIgnoringCase(a[i], b[i])
      {
        assert LowerChar(a[i]) == Lower(a)[i] == Lower(b)[i] == LowerChar(b[i]);
      }
    }
  }

  /** Lower-casing commutes with taking a slice. */
  lemma LowerSlice(s: string, i: int, j: int)
    requires 0 <= i <= j <= |s|
    ensures Lower(s[i..j]) == Lower(s)[i..j]
  {
  }

  /** `needle` occurs as a contiguous piece of `hay`. */
  predicate Contains(hay: string, needle: string) {
    exists i | 0 <= i <= |hay| - |needle| :: OccursAt(hay, needle, i)
  }

  predicate OccursAt(hay: string, needle: string, i: int) {
    0 <= i <= |hay| - |needle| && hay[i..i + |needle|] == needle
  }

  /** The empty string occurs in every string. */
  lemma EmptyContained(hay: string)
    ensures Contains(hay, "")
  {
    assert OccursAt(hay, "", 0);
  }
}
