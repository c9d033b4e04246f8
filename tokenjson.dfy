/**
 * The JSON text inside a token: `JSON.stringify` of the fixed header and of
 * the claims `{userId, iat, exp}`, and a decoder (standing in for
 * `JSON.parse`) for payloads of exactly that shape. Strings are escaped the
 * way `JSON.stringify` escapes them; numbers are non-negative integers.
 */
module TokenJson {
  import opened Options
  import opened JsString

  /** The claims a token carries: the user, the issue time and an optional expiry, in seconds. */
  datatype Claims = Claims(userId: string, iat: nat, exp: Option<nat>)

  /** `JSON.stringify({ alg: 'HS256', typ: 'JWT' })`. */
  const HeaderJson: string := "{\"alg\":\"HS256\",\"typ\":\"JWT\"}"

  // ---------------------------------------------------------------- strings

  /** How `JSON.stringify` writes one character inside a string literal. */
  function EscapeChar(c: char): (r: string)
    ensures |r| >= 1 && r[0] != '"'
  {
    if c == '\U{0008}' then "\\b"
    else if c == '\t' then "\\t"
    else if c == '\n' then "\\n"
    else if c == '\U{000C}' then "\\f"
    else if c == '\r' then "\\r"
    else if c == '"' then "\\\""
    else if c == '\\' then "\\\\"
    else if (c as int) < 0x20 then
      ['\\', 'u', '0', '0', HexDigit(c as int / 16), HexDigit(c as int % 16)]
    else [c]
  }

  /** The body of the string literal `JSON.stringify(u)`, without its quotes. */
  function Escape(u: string): string
    decreases |u|
  {
    if |u| == 0 then "" else EscapeChar(u[0]) + Escape(u[1..])
  }

  /** `JSON.stringify(u)` for a string `u`. */
  function Quote(u: string): string {
    "\"" + Escape(u) + "\""
  }

  /** The character named by a one-letter escape `\x`, if `x` is one. */
  function SimpleEscape(e: char): Option<char> {
    if e == '"' then Some('"')
    else if e == '\\' then Some('\\')
    else if e == '/' then Some('/')
    else if e == 'b' then Some('\U{0008}')
    else if e == 'f' then Some('\U{000C}')
    else if e == 'n' then Some('\n')
    else if e == 'r' then Some('\r')
    else if e == 't' then Some('\t')
    else None
  }

  function Prepend(c: char, p: Option<(string, string)>): Option<(string, string)> {
    match p
    case None => None
    case Some((u, rest)) => Some(([c] + u, rest))
  }

  /**
   * Reads a JSON string literal whose opening quote is already consumed:
   * the decoded text and what follows the closing quote, or `None` for
   * malformed input (unterminated, a raw control character, a bad escape,
   * or any `\u` escape in the surrogate range D800-DFFF, even one half of a
   * well-formed pair).
   */
  function ParseString(s: string): (r: Option<(string, string)>)
    ensures r.Some? ==> |r.value.1| < |s|
    decreases |s|
  {
    if |s| == 0 then None
    else if s[0] == '"' then Some(("", s[1..]))
    else if s[0] == '\\' then
      if |s| < 2 then None
      else if SimpleEscape(s[1]).Some? then Prepend(SimpleEscape(s[1]).value, ParseString(s[2..]))
      else if s[1] == 'u' && |s| >= 6
              && IsHexDigit(s[2]) && IsHexDigit(s[3]) && IsHexDigit(s[4]) && IsHexDigit(s[5]) then
        var code := ((HexValue(s[2]) * 16 + HexValue(s[3])) * 16 + HexValue(s[4])) * 16 + HexValue(s[5]);
        if 0xD800 <= code < 0xE000 then None
        else Prepend(code as char, ParseString(s[6..]))
      else None
    else if (s[0] as int) < 0x20 then None
    else Prepend(s[0], ParseString(s[1..]))
  }

  lemma ParseEscapedChar(c: char, tail: string)
    ensures ParseString(EscapeChar(c) + tail) == Prepend(c, ParseString(tail))
  {
    var e := EscapeChar(c);
    var s := e + tail;
    if c == '\U{0008}' || c == '\t' || c == '\n' || c == '\U{000C}' || c == '\r' || c == '"' || c == '\\' {
      assert s[2..] == tail;
    } else if (c as int) < 0x20 {
      var n := c as int;
      HexValueOfDigit(n / 16);
      HexValueOfDigit(n % 16);
      assert s[2] == '0' && s[3] == '0' && s[4] == HexDigit(n / 16) && s[5] == HexDigit(n % 16);
      assert ((0 * 16 + 0) * 16 + n / 16) * 16 + n % 16 == n;
      assert (n as char) == c;
      assert s[6..] == tail;
    } else {
      assert s[1..] == tail;
    }
  }

  /** `JSON.parse` reads back what `JSON.stringify` wrote for a string. */
  lemma {:induction false} ParseQuoted(u: string, rest: string)
    ensures ParseString(Escape(u) + "\"" + rest) == Some((u, rest))
    decreases |u|
  {
    if |u| == 0 {
      assert Escape(u) + "\"" + rest == "\"" + rest;
      assert ("\"" + rest)[1..] == rest;
    } else {
      ParseQuoted(u[1..], rest);
      assert Escape(u) + "\"" + rest == EscapeChar(u[0]) + (Escape(u[1..]) + "\"" + rest);
      ParseEscapedChar(u[0], Escape(u[1..]) + "\"" + rest);
      assert [u[0]] + u[1..] == u;
    }
  }

  /** Escaping keeps a string within Latin-1 exactly when it was within Latin-1. */
  lemma {:induction false} EscapeLatin1(u: string)
    ensures Latin1(Escape(u)) <==> Latin1(u)
    decreases |u|
  {
    if |u| > 0 {
      EscapeLatin1(u[1..]);
      var e, r := EscapeChar(u[0]), Escape(u[1..]);
      assert Escape(u) == e + r;
      assert Latin1(e) <==> (u[0] as int) < 256;
      Latin1Concat(e, r);
      assert u == [u[0]] + u[1..];
      Latin1Concat([u[0]], u[1..]);
    }
  }

  // ---------------------------------------------------------------- numbers

  predicate IsDecimalDigit(c: char) {
    '0' <= c <= '9'
  }

  /** `JSON.stringify(n)` for a non-negative integer: its decimal digits. */
  function Decimal(n: nat): (r: string)
    ensures |r| >= 1
    ensures forall i :: 0 <= i < |r| ==> IsDecimalDigit(r[i])
    decreases n
  {
    if n < 10 then [('0' as int + n) as char] else Decimal(n / 10) + [('0' as int + n % 10) as char]
  }

  /** The number a run of decimal digits denotes. */
  function DecimalValue(s: string): nat
    requires forall i :: 0 <= i < |s| ==> IsDecimalDigit(s[i])
    decreases |s|
  {
    if |s| == 0 then 0
    else
      assert IsDecimalDigit(s[|s| - 1]);
      DecimalValue(s[..|s| - 1]) * 10 + (s[|s| - 1] as int - '0' as int)
  }

  lemma {:induction false} DecimalValueOfDecimal(n: nat)
    ensures DecimalValue(Decimal(n)) == n
    ensures |Decimal(n)| > 1 ==> Decimal(n)[0] != '0'
    decreases n
  {
    if n >= 10 {
      DecimalValueOfDecimal(n / 10);
      var d := Decimal(n);
      assert d[..|d| - 1] == Decimal(n / 10);
    }
  }

  /** Length of the leading run of decimal digits. */
  function DigitRun(s: string): (k: nat)
    ensures k <= |s|
    ensures forall i :: 0 <= i < k ==> IsDecimalDigit(s[i])
    ensures k < |s| ==> !IsDecimalDigit(s[k])
    decreases |s|
  {
    if |s| > 0 && IsDecimalDigit(s[0]) then 1 + DigitRun(s[1..]) else 0
  }

  lemma {:induction false} DigitRunOfDigits(d: string, tail: string)
    requires forall i :: 0 <= i < |d| ==> IsDecimalDigit(d[i])
    requires |tail| == 0 || !IsDecimalDigit(tail[0])
    ensures DigitRun(d + tail) == |d|
    decreases |d|
  {
    if |d| > 0 {
      DigitRunOfDigits(d[1..], tail);
      assert (d + tail)[1..] == d[1..] + tail;
    }
  }

  /**
   * Reads a JSON number that is a non-negative integer without leading
   * zeros, and returns it with the text that follows.
   */
  function ParseNumber(s: string): (r: Option<(nat, string)>)
    ensures r.Some? ==> |r.value.1| < |s|
  {
    var k := DigitRun(s);
    if k == 0 || (s[0] == '0' && k > 1) then None
    else Some((DecimalValue(s[..k]), s[k..]))
  }

  lemma ParseDecimal(n: nat, tail: string)
    requires |tail| == 0 || !IsDecimalDigit(tail[0])
    ensures ParseNumber(Decimal(n) + tail) == Some((n, tail))
  {
    var d := Decimal(n);
    DigitRunOfDigits(d, tail);
    DecimalValueOfDecimal(n);
    assert (d + tail)[..|d|] == d;
    assert (d + tail)[|d|..] == tail;
  }

  // ---------------------------------------------------------------- claims

  const UserIdKey: string := "{\"userId\":"
  const IatKey: string := ",\"iat\":"
  const ExpKey: string := ",\"exp\":"

  /** `JSON.stringify({ userId, iat, exp })`; an absent `exp` is left out, as `undefined` is. */
  function EncodeClaims(c: Claims): string {
    UserIdKey + Quote(c.userId) + IatKey + Decimal(c.iat) + ExpTail(c.exp)
  }

  /** `JSON.parse` of a payload, for payloads with the keys in the order `EncodeClaims` writes them. */
  function DecodeClaims(s: string): Option<Claims> {
    var open := UserIdKey + "\"";
    if !StartsWith(s, open) then None
    else match ParseString(s[|open|..])
      case None => None
      case Some((u, rest)) => DecodeIat(u, rest)
  }

  /** The rest of a payload after the user id: `,"iat":` and a number. */
  function DecodeIat(userId: string, s: string): Option<Claims> {
    if !StartsWith(s, IatKey) then None
    else match ParseNumber(s[|IatKey|..])
      case None => None
      case Some((iat, rest)) => DecodeExp(userId, iat, rest)
  }

  /** The rest of a payload after the issue time: `}`, or `,"exp":`, a number and `}`. */
  function DecodeExp(userId: string, iat: nat, s: string): Option<Claims> {
    if s == "}" then Some(Claims(userId, iat, None))
    else if !StartsWith(s, ExpKey) then None
    else match ParseNumber(s[|ExpKey|..])
      case None => None
      case Some((exp, rest)) => if rest == "}" then Some(Claims(userId, iat, Some(exp))) else None
  }

  /** What follows the user id in an encoded payload. */
  function AfterUserId(c: Claims): string {
    IatKey + Decimal(c.iat) + ExpTail(c.exp)
  }

  function ExpTail(exp: Option<nat>): string {
    (if exp.Some? then ExpKey + Decimal(exp.value) else "") + "}"
  }

  lemma EncodeClaimsShape(c: Claims)
    ensures EncodeClaims(c) == (UserIdKey + "\"") + (Escape(c.userId) + "\"" + AfterUserId(c))
  {
  }

  lemma DecodeExpTail(userId: string, iat: nat, exp: Option<nat>)
    ensures DecodeExp(userId, iat, ExpTail(exp)) == Some(Claims(userId, iat, exp))
  {
    if exp.Some? {
      var tail := ExpTail(exp);
      assert tail == ExpKey + (Decimal(exp.value) + "}");
      assert tail[0] == ',';
      assert tail[|ExpKey|..] == Decimal(exp.value) + "}";
      ParseDecimal(exp.value, "}");
    }
  }

  lemma DecodeIatOfAfterUserId(c: Claims)
    ensures DecodeIat(c.userId, AfterUserId(c)) == Some(c)
  {
    var after := AfterUserId(c);
    assert after == IatKey + (Decimal(c.iat) + ExpTail(c.exp));
    assert after[|IatKey|..] == Decimal(c.iat) + ExpTail(c.exp);
    assert ExpTail(c.exp)[|ExpTail(c.exp)| - 1] == '}';
    ParseDecimal(c.iat, ExpTail(c.exp));
    DecodeExpTail(c.userId, c.iat, c.exp);
  }

  /** Decoding a payload written by `EncodeClaims` gives back the same claims. */
  lemma DecodeEncodeClaims(c: Claims)
    ensures DecodeClaims(EncodeClaims(c)) == Some(c)
  {
    var open := UserIdKey + "\"";
    var after := AfterUserId(c);
    var s := EncodeClaims(c);
    EncodeClaimsShape(c);
    assert s[|open|..] == Escape(c.userId) + "\"" + after;
    ParseQuoted(c.userId, after);
    DecodeIatOfAfterUserId(c);
  }

  lemma DecimalLatin1(n: nat)
    ensures Latin1(Decimal(n))
  {
    var d := Decimal(n);
    forall i | 0 <= i < |d| ensures d[i] as int < 256 { assert IsDecimalDigit(d[i]); }
  }

  /** Everything after the user id is plain ASCII. */
  lemma AfterUserIdLatin1(c: Claims)
    ensures Latin1(AfterUserId(c))
  {
    DecimalLatin1(c.iat);
    var e := if c.exp.Some? then ExpKey + Decimal(c.exp.value) else "";
    if c.exp.Some? {
      DecimalLatin1(c.exp.value);
      Latin1Concat(ExpKey, Decimal(c.exp.value));
    }
    assert ExpTail(c.exp) == e + "}";
    Latin1Concat(e, "}");
    Latin1Concat(IatKey, Decimal(c.iat));
    Latin1Concat(IatKey + Decimal(c.iat), ExpTail(c.exp));
  }

  /** A payload is Latin-1, and so acceptable to `btoa`, exactly when the user id is. */
  lemma EncodeClaimsLatin1(c: Claims)
    ensures Latin1(EncodeClaims(c)) <==> Latin1(c.userId)
  {
    EscapeLatin1(c.userId);
    AfterUserIdLatin1(c);
    var open := UserIdKey + "\"";
    var quoted := Escape(c.userId) + "\"";
    var after := AfterUserId(c);
    EncodeClaimsShape(c);
    assert EncodeClaims(c) == open + (quoted + after);
    assert Latin1(open);
    Latin1Concat(Escape(c.userId), "\"");
    Latin1Concat(quoted, after);
    Latin1Concat(open, quoted + after);
    assert Latin1(quoted + after) <==> Latin1(c.userId);
  }
}
