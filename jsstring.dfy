/**
 * The handful of JavaScript string operations the worker relies on:
 * `String.prototype.split` with a one-character separator, `startsWith`,
 * `trim`, and the Latin-1 restriction that `btoa` places on its input.
 */
module JsString {

  /** `btoa` accepts only strings whose every code unit is below 256. */
  predicate Latin1(s: string) {
    forall i :: 0 <= i < |s| ==> s[i] as int < 256
  }

  /** A concatenation is Latin-1 exactly when both halves are. */
  lemma Latin1Concat(a: string, b: string)
    ensures Latin1(a + b) <==> Latin1(a) && Latin1(b)
  {
    if Latin1(a + b) {
      forall i | 0 <= i < |a| ensures a[i] as int < 256 { assert a[i] == (a + b)[i]; }
      forall i | 0 <= i < |b| ensures b[i] as int < 256 { assert b[i] == (a + b)[|a| + i]; }
    }
  }

  /** Number of occurrences of `c` in `s`. */
  function Occurrences(s: string, c: char): nat {
    if |s| == 0 then 0 else (if s[0] == c then 1 else 0) + Occurrences(s[1..], c)
  }

  /**
   * `s.split(sep)`: the pieces between separators, in order; the empty
   * string gives `[""]`, never an empty list.
   */
  function Split(s: string, sep: char): (parts: seq<string>)
    ensures |parts| >= 1
    decreases |s|
  {
    if |s| == 0 then [""]
    else
      var rest := Split(s[1..], sep);
      if s[0] == sep then [""] + rest else [[s[0]] + rest[0]] + rest[1..]
  }

  /** A piece of a split never contains the separator. */
  lemma {:induction false} SplitPiecesLackSeparator(s: string, sep: char)
    ensures forall k :: 0 <= k < |Split(s, sep)| ==> sep !in Split(s, sep)[k]
    decreases |s|
  {
    if |s| > 0 {
      SplitPiecesLackSeparator(s[1..], sep);
    }
  }

  /** Splitting yields one more piece than there are separators. */
  lemma {:induction false} SplitCount(s: string, sep: char)
    ensures |Split(s, sep)| == Occurrences(s, sep) + 1
    decreases |s|
  {
    if |s| > 0 {
      SplitCount(s[1..], sep);
    }
  }

  /** A string without the separator splits into itself alone. */
  lemma {:induction false} SplitNoSeparator(a: string, sep: char)
    requires sep !in a
    ensures Split(a, sep) == [a]
    decreases |a|
  {
    if |a| > 0 {
      assert sep !in a[1..] by {
        forall i | 0 <= i < |a[1..]| ensures a[1..][i] != sep { assert a[1..][i] == a[i + 1]; }
      }
      SplitNoSeparator(a[1..], sep);
      assert [a[0]] + a[1..] == a;
    }
  }

  /** A separator-free prefix followed by the separator comes off as the first piece. */
  lemma {:induction false} SplitAfterPiece(a: string, sep: char, b: string)
    requires sep !in a
    ensures Split(a + [sep] + b, sep) == [a] + Split(b, sep)
    decreases |a|
  {
    var s := a + [sep] + b;
    if |a| == 0 {
      assert s == [sep] + b;
      assert s[1..] == b;
    } else {
      assert s[0] == a[0];
      assert s[1..] == a[1..] + [sep] + b;
      assert sep !in a[1..] by {
        forall i | 0 <= i < |a[1..]| ensures a[1..][i] != sep { assert a[1..][i] == a[i + 1]; }
      }
      SplitAfterPiece(a[1..], sep, b);
      assert [a[0]] + a[1..] == a;
    }
  }

  /** Three separator-free pieces joined by the separator split back into exactly those three. */
  lemma SplitThree(a: string, b: string, c: string, sep: char)
    requires sep !in a && sep !in b && sep !in c
    ensures Split(a + [sep] + b + [sep] + c, sep) == [a, b, c]
  {
    var bc := b + [sep] + c;
    SplitNoSeparator(c, sep);
    SplitAfterPiece(b, sep, c);
    assert Split(bc, sep) == [b, c];
    SplitAfterPiece(a, sep, bc);
    assert a + [sep] + b + [sep] + c == a + [sep] + bc;
  }

  /** `s.startsWith(p)`. */
  predicate StartsWith(s: string, p: string) {
    |p| <= |s| && s[..|p|] == p
  }

  /**
   * The code points `String.prototype.trim` removes: ECMAScript WhiteSpace
   * (tab, vertical tab, form feed, space, no-break space, byte order mark and
   * the space separators of Unicode category Zs) and LineTerminator
   * (line feed, carriage return, line and paragraph separators).
   */
  const JsWhitespace: set<char> := {
    '\U{0009}', '\U{000A}', '\U{000B}', '\U{000C}', '\U{000D}', '\U{0020}',
    '\U{00A0}', '\U{1680}', '\U{2000}', '\U{2001}', '\U{2002}', '\U{2003}',
    '\U{2004}', '\U{2005}', '\U{2006}', '\U{2007}', '\U{2008}', '\U{2009}',
    '\U{200A}', '\U{2028}', '\U{2029}', '\U{202F}', '\U{205F}', '\U{3000}',
    '\U{FEFF}'
  }

  predicate IsJsWhitespace(c: char) {
    c in JsWhitespace
  }

  /** The index of the first non-whitespace code point at or after `i` (or `|s|`). */
  function SkipWhitespace(s: string, i: nat): (n: nat)
    requires i <= |s|
    ensures i <= n <= |s|
    ensures forall k :: i <= k < n ==> IsJsWhitespace(s[k])
    ensures n < |s| ==> !IsJsWhitespace(s[n])
    decreases |s| - i
  {
    if i < |s| && IsJsWhitespace(s[i]) then SkipWhitespace(s, i + 1) else i
  }

  /** The end of `s[lo..j]` once trailing whitespace is dropped. */
  function BackOverWhitespace(s: string, lo: nat, j: nat): (e: nat)
    requires lo <= j <= |s|
    ensures lo <= e <= j
    ensures forall k :: e <= k < j ==> IsJsWhitespace(s[k])
    ensures e > lo ==> !IsJsWhitespace(s[e - 1])
    decreases j
  {
    if j > lo && IsJsWhitespace(s[j - 1]) then BackOverWhitespace(s, lo, j - 1) else j
  }

  /** How many leading whitespace code points `trim` drops. */
  function LeadingWhitespace(s: string): (n: nat)
    ensures n <= |s|
  {
    SkipWhitespace(s, 0)
  }

  /**
   * `s.trim()`: the infix of `s` that neither starts nor ends with
   * whitespace, obtained by removing only whitespace from both ends.
   */
  function Trim(s: string): (r: string)
    ensures LeadingWhitespace(s) + |r| <= |s|
    ensures r == s[LeadingWhitespace(s)..LeadingWhitespace(s) + |r|]
    ensures forall k :: 0 <= k < LeadingWhitespace(s) ==> IsJsWhitespace(s[k])
    ensures forall k :: LeadingWhitespace(s) + |r| <= k < |s| ==> IsJsWhitespace(s[k])
    ensures |r| > 0 ==> !IsJsWhitespace(r[0]) && !IsJsWhitespace(r[|r| - 1])
  {
    var start := SkipWhitespace(s, 0);
    var end := BackOverWhitespace(s, start, |s|);
    s[start..end]
  }

  /** `v.toString(16)` for a single hexadecimal digit: lower-case. */
  function HexDigit(v: nat): (c: char)
    requires v < 16
    ensures IsLowerHexDigit(c)
  {
    if v < 10 then ('0' as int + v) as char else ('a' as int + (v - 10)) as char
  }

  predicate IsLowerHexDigit(c: char) {
    ('0' <= c <= '9') || ('a' <= c <= 'f')
  }

  predicate IsHexDigit(c: char) {
    ('0' <= c <= '9') || ('a' <= c <= 'f') || ('A' <= c <= 'F')
  }

  function HexValue(c: char): (v: nat)
    requires IsHexDigit(c)
    ensures v < 16
  {
    if '0' <= c <= '9' then c as int - '0' as int
    else if 'a' <= c <= 'f' then c as int - 'a' as int + 10
    else c as int - 'A' as int + 10
  }

  lemma HexValueOfDigit(v: nat)
    requires v < 16
    ensures IsHexDigit(HexDigit(v)) && HexValue(HexDigit(v)) == v
  {
  }
}
