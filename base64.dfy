/**
 * `btoa` and `atob`: base64 with the standard alphabet and `=` padding
 * (section 4 of RFC 4648), over "binary strings" whose code units are the
 * bytes. `atob` follows the forgiving decoder of the WHATWG HTML standard:
 * padding may be omitted, and bits left over in the last sextet are dropped.
 */
module Base64 {
  import opened Options
  import opened JsString

  predicate IsDigit(c: char) {
    ('A' <= c <= 'Z') || ('a' <= c <= 'z') || ('0' <= c <= '9') || c == '+' || c == '/'
  }

  predicate AllDigits(t: string) {
    forall i :: 0 <= i < |t| ==> IsDigit(t[i])
  }

  /** The digit for a sextet: `A`-`Z`, `a`-`z`, `0`-`9`, `+`, `/`. */
  function Digit(v: nat): (c: char)
    requires v < 64
    ensures IsDigit(c) && c != '=' && c != '.' && c as int < 128
  {
    if v < 26 then ('A' as int + v) as char
    else if v < 52 then ('a' as int + (v - 26)) as char
    else if v < 62 then ('0' as int + (v - 52)) as char
    else if v == 62 then '+'
    else '/'
  }

  /** The sextet a base64 digit stands for. */
  function Value(c: char): (v: nat)
    requires IsDigit(c)
    ensures v < 64 && Digit(v) == c
  {
    if 'A' <= c <= 'Z' then c as int - 'A' as int
    else if 'a' <= c <= 'z' then c as int - 'a' as int + 26
    else if '0' <= c <= '9' then c as int - '0' as int + 52
    else if c == '+' then 62
    else 63
  }

  lemma ValueOfDigit(v: nat)
    requires v < 64
    ensures IsDigit(Digit(v)) && Value(Digit(v)) == v
  {
  }

  /** Four digits for three bytes `a b c`. */
  function Quad(a: nat, b: nat, c: nat): (r: string)
    requires a < 256 && b < 256 && c < 256
    ensures |r| == 4 && AllDigits(r)
  {
    [Digit(a / 4), Digit((a % 4) * 16 + b / 16), Digit((b % 16) * 4 + c / 64), Digit(c % 64)]
  }

  /** The digits for a tail of one or two bytes, the missing bits being zero. */
  function Tail(s: string): (r: string)
    requires Latin1(s) && 1 <= |s| <= 2
    ensures |r| == |s| + 1 && AllDigits(r)
  {
    var a := s[0] as int;
    if |s| == 1 then [Digit(a / 4), Digit((a % 4) * 16)]
    else
      var b := s[1] as int;
      [Digit(a / 4), Digit((a % 4) * 16 + b / 16), Digit((b % 16) * 4)]
  }

  lemma AllDigitsConcat(x: string, y: string)
    requires AllDigits(x) && AllDigits(y)
    ensures AllDigits(x + y)
  {
    assert forall i :: |x| <= i < |x + y| ==> (x + y)[i] == y[i - |x|];
  }

  /** The digits of the encoding before any padding: four per three bytes, then the tail. */
  function Digits(s: string): (r: string)
    requires Latin1(s)
    ensures AllDigits(r)
    decreases |s|
  {
    if |s| == 0 then ""
    else if |s| < 3 then Tail(s)
    else
      var q, rest := Quad(s[0] as int, s[1] as int, s[2] as int), Digits(s[3..]);
      AllDigitsConcat(q, rest);
      q + rest
  }

  lemma {:induction false} DigitsLength(s: string)
    requires Latin1(s)
    ensures |Digits(s)| == 4 * (|s| / 3) + (if |s| % 3 == 0 then 0 else |s| % 3 + 1)
    decreases |s|
  {
    if |s| >= 3 {
      DigitsLength(s[3..]);
      assert |s[3..]| / 3 == |s| / 3 - 1;
      assert |s[3..]| % 3 == |s| % 3;
    }
  }

  /** Padding that brings the output to a multiple of four characters. */
  function Padding(n: nat): (pad: string)
    ensures pad == "" || pad == "=" || pad == "=="
  {
    if n % 3 == 1 then "==" else if n % 3 == 2 then "=" else ""
  }

  lemma PaddedLength(n: nat, digits: nat)
    requires digits == 4 * (n / 3) + (if n % 3 == 0 then 0 else n % 3 + 1)
    ensures digits + |Padding(n)| == 4 * ((n + 2) / 3)
  {
    var q, r := n / 3, n % 3;
    assert n == 3 * q + r;
    if r == 0 {
      assert (n + 2) / 3 == q;
    } else {
      assert (n + 2) / 3 == q + 1;
    }
  }

  /** Four output characters for every three input bytes or part of three. */
  lemma EncodedLength(s: string)
    requires Latin1(s)
    ensures |Digits(s)| + |Padding(|s|)| == 4 * ((|s| + 2) / 3)
  {
    DigitsLength(s);
    PaddedLength(|s|, |Digits(s)|);
  }

  lemma MultipleOfFour(k: nat)
    ensures (4 * k) % 4 == 0
  {
  }

  /** The base64 encoding of a Latin-1 string. */
  function Encode(s: string): (r: string)
    requires Latin1(s)
    ensures |r| == 4 * ((|s| + 2) / 3) && |r| % 4 == 0
    ensures '.' !in r
    ensures Latin1(r)
  {
    EncodedLength(s);
    MultipleOfFour((|s| + 2) / 3);
    var d, pad := Digits(s), Padding(|s|);
    assert forall i :: 0 <= i < |d| ==> d[i] == (d + pad)[i];
    assert forall i :: |d| <= i < |d + pad| ==> (d + pad)[i] == '=';
    d + pad
  }

  /** `btoa(s)`: `None` where the browser function throws, i.e. on a code unit above 255. */
  function Btoa(s: string): (r: Option<string>)
    ensures r.Some? <==> Latin1(s)
  {
    if Latin1(s) then Some(Encode(s)) else None
  }

  /** The three bytes carried by four sextets. */
  function Triple(v0: nat, v1: nat, v2: nat, v3: nat): (r: string)
    requires v0 < 64 && v1 < 64 && v2 < 64 && v3 < 64
    ensures |r| == 3 && Latin1(r)
  {
    [(v0 * 4 + v1 / 16) as char, ((v1 % 16) * 16 + v2 / 4) as char, ((v2 % 4) * 64 + v3) as char]
  }

  /**
   * Bytes from a run of base64 digits: three per four digits, one or two
   * from a tail of two or three digits. A lone trailing digit carries no
   * whole byte; `Atob` refuses such input before decoding.
   */
  function DecodeDigits(t: string): (r: string)
    requires AllDigits(t)
    ensures Latin1(r)
    decreases |t|
  {
    if |t| < 2 then ""
    else if |t| == 2 then Triple(Value(t[0]), Value(t[1]), 0, 0)[..1]
    else if |t| == 3 then Triple(Value(t[0]), Value(t[1]), Value(t[2]), 0)[..2]
    else Triple(Value(t[0]), Value(t[1]), Value(t[2]), Value(t[3])) + DecodeDigits(t[4..])
  }

  /** Removes one or two trailing `=` from input whose length is a multiple of four. */
  function StripPadding(s: string): (t: string)
    ensures |t| <= |s| && t == s[..|t|]
  {
    if |s| % 4 == 0 && |s| >= 2 && s[|s| - 2..] == "==" then s[..|s| - 2]
    else if |s| % 4 == 0 && |s| >= 1 && s[|s| - 1] == '=' then s[..|s| - 1]
    else s
  }

  /** `atob(s)`: `None` where the browser function throws. */
  function Atob(s: string): (r: Option<string>)
    ensures r.Some? ==> Latin1(r.value)
  {
    var t := StripPadding(s);
    if |t| % 4 == 1 || !AllDigits(t) then None
    else Some(DecodeDigits(t))
  }

  // ------------------------------------------------------------ round trip

  lemma ByteFromDigits(a: int, b: int, c: int)
    requires 0 <= a < 256 && 0 <= b < 256 && 0 <= c < 256
    ensures (a / 4) * 4 + ((a % 4) * 16 + b / 16) / 16 == a
    ensures (((a % 4) * 16 + b / 16) % 16) * 16 + ((b % 16) * 4 + c / 64) / 4 == b
    ensures (((b % 16) * 4 + c / 64) % 4) * 64 + c % 64 == c
  {
    assert b / 16 < 16;
    assert ((a % 4) * 16 + b / 16) / 16 == a % 4;
    assert ((a % 4) * 16 + b / 16) % 16 == b / 16;
    assert c / 64 < 4;
    assert ((b % 16) * 4 + c / 64) / 4 == b % 16;
    assert ((b % 16) * 4 + c / 64) % 4 == c / 64;
  }

  /** Four digits decode to the three bytes their sextets carry. */
  lemma DecodeFourDigits(v0: nat, v1: nat, v2: nat, v3: nat)
    requires v0 < 64 && v1 < 64 && v2 < 64 && v3 < 64
    ensures AllDigits([Digit(v0), Digit(v1), Digit(v2), Digit(v3)])
    ensures DecodeDigits([Digit(v0), Digit(v1), Digit(v2), Digit(v3)]) == Triple(v0, v1, v2, v3)
  {
    ValueOfDigit(v0);
    ValueOfDigit(v1);
    ValueOfDigit(v2);
    ValueOfDigit(v3);
    var t := [Digit(v0), Digit(v1), Digit(v2), Digit(v3)];
    assert t[4..] == "";
  }

  /** Three or two digits decode to the two or one bytes they carry. */
  lemma DecodeShortDigits(v0: nat, v1: nat, v2: nat)
    requires v0 < 64 && v1 < 64 && v2 < 64
    ensures AllDigits([Digit(v0), Digit(v1)]) && AllDigits([Digit(v0), Digit(v1), Digit(v2)])
    ensures DecodeDigits([Digit(v0), Digit(v1)]) == Triple(v0, v1, 0, 0)[..1]
    ensures DecodeDigits([Digit(v0), Digit(v1), Digit(v2)]) == Triple(v0, v1, v2, 0)[..2]
  {
    ValueOfDigit(v0);
    ValueOfDigit(v1);
    ValueOfDigit(v2);
  }

  /** The sextets of three bytes carry those bytes. */
  lemma TripleOfBytes(a: nat, b: nat, c: nat)
    requires a < 256 && b < 256 && c < 256
    ensures Triple(a / 4, (a % 4) * 16 + b / 16, (b % 16) * 4 + c / 64, c % 64) == [a as char, b as char, c as char]
  {
    ByteFromDigits(a, b, c);
  }

  /** Four digits made from three bytes decode back to those bytes. */
  lemma QuadDecodes(a: nat, b: nat, c: nat)
    requires a < 256 && b < 256 && c < 256
    ensures AllDigits(Quad(a, b, c))
    ensures DecodeDigits(Quad(a, b, c)) == [a as char, b as char, c as char]
  {
    var d0, d1, d2, d3 := a / 4, (a % 4) * 16 + b / 16, (b % 16) * 4 + c / 64, c % 64;
    DecodeFourDigits(d0, d1, d2, d3);
    TripleOfBytes(a, b, c);
  }

  lemma TailOneDecodes(s: string)
    requires Latin1(s) && |s| == 1
    ensures AllDigits(Tail(s))
    ensures DecodeDigits(Tail(s)) == s
  {
    var a := s[0] as int;
    var v0, v1 := a / 4, (a % 4) * 16;
    DecodeShortDigits(v0, v1, 0);
    ByteFromDigits(a, 0, 0);
    assert Tail(s) == [Digit(v0), Digit(v1)];
    assert Triple(v0, v1, 0, 0)[0] == s[0];
  }

  lemma TwoBytesFromDigits(a: nat, b: nat)
    requires a < 256 && b < 256
    ensures Triple(a / 4, (a % 4) * 16 + b / 16, (b % 16) * 4, 0)[..2] == [a as char, b as char]
  {
    ByteFromDigits(a, b, 0);
  }

  lemma TailTwoDecodes(s: string)
    requires Latin1(s) && |s| == 2
    ensures AllDigits(Tail(s))
    ensures DecodeDigits(Tail(s)) == s
  {
    var a, b := s[0] as int, s[1] as int;
    var v0, v1, v2 := a / 4, (a % 4) * 16 + b / 16, (b % 16) * 4;
    DecodeShortDigits(v0, v1, v2);
    TwoBytesFromDigits(a, b);
    assert Tail(s) == [Digit(v0), Digit(v1), Digit(v2)];
    assert s == [a as char, b as char];
  }

  /** Decoding splits at a group of four digits. */
  lemma DecodeGroupThenRest(q: string, rest: string)
    requires |q| == 4 && AllDigits(q) && AllDigits(rest)
    ensures AllDigits(q + rest)
    ensures DecodeDigits(q + rest) == DecodeDigits(q) + DecodeDigits(rest)
  {
    AllDigitsConcat(q, rest);
    var t := q + rest;
    assert t[4..] == rest;
    assert q[4..] == "";
    assert t[..4] == q;
  }

  /** Decoding the digits of an encoding gives the encoded string back. */
  lemma {:induction false} DecodeDigitsOfDigits(s: string)
    requires Latin1(s)
    ensures AllDigits(Digits(s))
    ensures DecodeDigits(Digits(s)) == s
    decreases |s|
  {
    if |s| == 0 {
    } else if |s| == 1 {
      TailOneDecodes(s);
    } else if |s| == 2 {
      TailTwoDecodes(s);
    } else {
      var rest := s[3..];
      var q := Quad(s[0] as int, s[1] as int, s[2] as int);
      DecodeDigitsOfDigits(rest);
      QuadDecodes(s[0] as int, s[1] as int, s[2] as int);
      BytesOfChars(s);
      DecodeThreeThenRest(s, q, Digits(rest));
    }
  }

  lemma BytesOfChars(s: string)
    requires |s| >= 3
    ensures [(s[0] as int) as char, (s[1] as int) as char, (s[2] as int) as char] == s[..3]
  {
  }

  /** Three bytes decoded from four digits, then the rest, give the whole string. */
  lemma DecodeThreeThenRest(s: string, q: string, d: string)
    requires |s| >= 3 && |q| == 4 && AllDigits(q) && AllDigits(d)
    requires DecodeDigits(q) == s[..3] && DecodeDigits(d) == s[3..]
    ensures AllDigits(q + d) && DecodeDigits(q + d) == s
  {
    DecodeGroupThenRest(q, d);
    assert s[..3] + s[3..] == s;
  }

  /** Digits followed by the padding `btoa` writes lose exactly that padding. */
  lemma StripPaddingAfterDigits(d: string, pad: string)
    requires AllDigits(d) && (pad == "" || pad == "=" || pad == "==")
    requires |d + pad| % 4 == 0 && |d| % 4 != 1
    ensures StripPadding(d + pad) == d
  {
    var e := d + pad;
    if pad == "==" {
      assert e[|e| - 2..] == "==";
      assert e[..|e| - 2] == d;
    } else if pad == "=" {
      assert e[|e| - 2] == d[|d| - 1];
      assert IsDigit(d[|d| - 1]);
      assert e[..|e| - 1] == d;
    } else if |d| >= 1 {
      assert e == d;
      assert IsDigit(d[|d| - 1]);
      assert e[|e| - 1] != '=';
      if |e| >= 2 {
        assert e[|e| - 2..][1] == e[|e| - 1];
      }
    }
  }

  lemma ModFour(k: nat, j: nat)
    requires j < 4
    ensures (4 * k + j) % 4 == j
  {
  }

  /** Unpadded digits never leave a single digit over a group of four. */
  lemma DigitsLengthNotOneMod4(s: string)
    requires Latin1(s)
    ensures |Digits(s)| % 4 != 1
  {
    DigitsLength(s);
    ModFour(|s| / 3, if |s| % 3 == 0 then 0 else |s| % 3 + 1);
  }

  lemma StripPaddingOfEncode(s: string)
    requires Latin1(s)
    ensures StripPadding(Encode(s)) == Digits(s)
  {
    DigitsLengthNotOneMod4(s);
    var e := Encode(s);
    assert e == Digits(s) + Padding(|s|);
    StripPaddingAfterDigits(Digits(s), Padding(|s|));
  }

  /** Round trip: `atob(btoa(s)) == s` for every string `btoa` accepts. */
  lemma AtobOfEncode(s: string)
    requires Latin1(s)
    ensures Atob(Encode(s)) == Some(s)
  {
    StripPaddingOfEncode(s);
    DigitsLengthNotOneMod4(s);
    DecodeDigitsOfDigits(s);
  }

  /** `btoa` is injective: different inputs never share an encoding. */
  lemma EncodeInjective(s: string, s': string)
    requires Latin1(s) && Latin1(s')
    ensures Encode(s) == Encode(s') <==> s == s'
  {
    AtobOfEncode(s);
    AtobOfEncode(s');
  }
}
