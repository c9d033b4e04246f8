/**
 * The session token: three base64 parts joined by `.`, shaped like a JWT.
 * The third part is not a MAC but `btoa(header + "." + payload + "." + secret)`,
 * so anyone who knows the secret can forge a token; the model keeps that
 * construction exactly. The clock is a parameter, in milliseconds.
 */
module Token {
  import opened Options
  import opened JsString
  import opened Base64
  import opened TokenJson

  /** Thirty days, in seconds: how long an issued token stays valid. */
  const Lifetime: nat := 30 * 24 * 60 * 60

  /** The claims `generateToken` puts in a token issued at `nowMs`. */
  function IssuedClaims(userId: string, nowMs: nat): (c: Claims)
    ensures c.userId == userId && c.exp.Some? && c.exp.value == c.iat + Lifetime
    ensures c.iat * 1000 <= nowMs < c.iat * 1000 + 1000
  {
    Claims(userId, nowMs / 1000, Some(nowMs / 1000 + Lifetime))
  }

  /** The signature over an encoded header and payload: `None` where `btoa` throws. */
  function Signature(header: string, payload: string, secret: string): Option<string> {
    Btoa(header + "." + payload + "." + secret)
  }

  /** `btoa(JSON.stringify(header))`: the same first part in every token. */
  function EncodedHeader(): (h: string)
    ensures '.' !in h && Latin1(h)
  {
    assert Latin1(HeaderJson);
    Encode(HeaderJson)
  }

  /**
   * `generateToken(userId, secret)` at time `nowMs`; `None` where `btoa`
   * throws, which happens exactly when the user id or the secret has a code
   * unit above 255.
   */
  function GenerateToken(userId: string, secret: string, nowMs: nat): (token: Option<string>)
    ensures token.Some? <==> Latin1(userId) && Latin1(secret)
  {
    EncodeClaimsLatin1(IssuedClaims(userId, nowMs));
    var header := EncodedHeader();
    match Btoa(EncodeClaims(IssuedClaims(userId, nowMs)))
    case None => None
    case Some(payload) =>
      SignatureLatin1(header, payload, secret);
      match Signature(header, payload, secret)
      case None => None
      case Some(signature) => Some(header + "." + payload + "." + signature)
  }

  lemma SignatureLatin1(header: string, payload: string, secret: string)
    requires '.' !in header && Latin1(header) && Latin1(payload)
    ensures Signature(header, payload, secret).Some? <==> Latin1(secret)
  {
    Latin1Concat(header, ".");
    Latin1Concat(header + ".", payload);
    Latin1Concat(header + "." + payload, ".");
    Latin1Concat(header + "." + payload + ".", secret);
  }

  /**
   * `payload.exp && payload.exp < Math.floor(Date.now() / 1000)`: a token
   * is stale only when it carries a non-zero expiry strictly earlier than
   * the current second.
   */
  predicate Expired(c: Claims, nowMs: nat) {
    c.exp.Some? && c.exp.value != 0 && c.exp.value < nowMs / 1000
  }

  /**
   * `verifyToken(token, secret)` at time `nowMs`: the user id, or `None`
   * for a token that does not split into three parts, whose signature does
   * not match, whose payload does not decode, or that has expired. Any
   * exception the source would catch also gives `None`.
   */
  function VerifyToken(token: string, secret: string, nowMs: nat): (userId: Option<string>)
    ensures |Split(token, '.')| != 3 ==> userId.None?
    ensures userId.Some? ==> Signature(Split(token, '.')[0], Split(token, '.')[1], secret) == Some(Split(token, '.')[2])
    ensures userId.Some? <==>
              |Split(token, '.')| == 3
              && Signature(Split(token, '.')[0], Split(token, '.')[1], secret) == Some(Split(token, '.')[2])
              && Atob(Split(token, '.')[1]).Some?
              && DecodeClaims(Atob(Split(token, '.')[1]).value).Some?
              && !Expired(DecodeClaims(Atob(Split(token, '.')[1]).value).value, nowMs)
    ensures userId.Some? ==> userId.value == DecodeClaims(Atob(Split(token, '.')[1]).value).value.userId
  {
    var parts := Split(token, '.');
    if |parts| != 3 then None
    else match Signature(parts[0], parts[1], secret)
      case None => None
      case Some(expected) =>
        if parts[2] != expected then None
        else match Atob(parts[1])
          case None => None
          case Some(json) =>
            match DecodeClaims(json)
            case None => None
            case Some(claims) => if Expired(claims, nowMs) then None else Some(claims.userId)
  }

  /** `extractToken`: the text after a leading `Bearer `, or `None` when the header is absent, empty or lacks that prefix. */
  function ExtractToken(authorization: Option<string>): (token: Option<string>)
    ensures token.Some? <==> authorization.Some? && StartsWith(authorization.value, "Bearer ")
    ensures token.Some? ==> authorization.value == "Bearer " + token.value
  {
    if authorization.None? || authorization.value == "" || !StartsWith(authorization.value, "Bearer ") then None
    else Some(authorization.value[7..])
  }

  // ---------------------------------------------------------------- properties

  /** The three parts of an issued token, as `generateToken` builds them. */
  function Parts(userId: string, secret: string, nowMs: nat): (parts: (string, string, string))
    requires Latin1(userId) && Latin1(secret)
  {
    EncodeClaimsLatin1(IssuedClaims(userId, nowMs));
    var header := EncodedHeader();
    var payload := Encode(EncodeClaims(IssuedClaims(userId, nowMs)));
    SignatureLatin1(header, payload, secret);
    (header, payload, Signature(header, payload, secret).value)
  }

  lemma GeneratedParts(userId: string, secret: string, nowMs: nat)
    requires Latin1(userId) && Latin1(secret)
    ensures var (h, p, s) := Parts(userId, secret, nowMs);
            && GenerateToken(userId, secret, nowMs) == Some(h + "." + p + "." + s)
            && '.' !in h && '.' !in p && '.' !in s
            && Split(h + "." + p + "." + s, '.') == [h, p, s]
  {
    var c := IssuedClaims(userId, nowMs);
    EncodeClaimsLatin1(c);
    var (h, p, s) := Parts(userId, secret, nowMs);
    assert p == Encode(EncodeClaims(c));
    assert Btoa(EncodeClaims(c)) == Some(p);
    SignatureLatin1(h, p, secret);
    assert Signature(h, p, secret) == Some(s);
    assert s == Encode(h + "." + p + "." + secret);
    assert h + "." + p + "." + s == h + ['.'] + p + ['.'] + s;
    SplitThree(h, p, s, '.');
  }

  /** An issued token has exactly two dots, so it splits into exactly three parts. */
  lemma GeneratedTokenHasThreeParts(userId: string, secret: string, nowMs: nat)
    requires Latin1(userId) && Latin1(secret)
    ensures |Split(GenerateToken(userId, secret, nowMs).value, '.')| == 3
    ensures Occurrences(GenerateToken(userId, secret, nowMs).value, '.') == 2
  {
    GeneratedParts(userId, secret, nowMs);
    SplitCount(GenerateToken(userId, secret, nowMs).value, '.');
  }

  /** A token with other than two dots is always rejected. */
  lemma WrongShapeRejected(token: string, secret: string, nowMs: nat)
    requires Occurrences(token, '.') != 2
    ensures VerifyToken(token, secret, nowMs).None?
  {
    SplitCount(token, '.');
  }

  /**
   * Round trip: a token issued at `issuedMs` and checked with the same
   * secret at any `nowMs` up to and including its expiry second yields the
   * user id it was issued for.
   */
  lemma VerifyGeneratedToken(userId: string, secret: string, issuedMs: nat, nowMs: nat)
    requires Latin1(userId) && Latin1(secret)
    requires nowMs / 1000 <= issuedMs / 1000 + Lifetime
    ensures VerifyToken(GenerateToken(userId, secret, issuedMs).value, secret, nowMs) == Some(userId)
  {
    GeneratedParts(userId, secret, issuedMs);
    var c := IssuedClaims(userId, issuedMs);
    EncodeClaimsLatin1(c);
    AtobOfEncode(EncodeClaims(c));
    DecodeEncodeClaims(c);
  }

  /** Once its expiry second has passed, an issued token is rejected even though its signature is right. */
  lemma ExpiredTokenRejected(userId: string, secret: string, issuedMs: nat, nowMs: nat)
    requires Latin1(userId) && Latin1(secret)
    requires nowMs / 1000 > issuedMs / 1000 + Lifetime
    ensures VerifyToken(GenerateToken(userId, secret, issuedMs).value, secret, nowMs).None?
  {
    GeneratedParts(userId, secret, issuedMs);
    var c := IssuedClaims(userId, issuedMs);
    EncodeClaimsLatin1(c);
    AtobOfEncode(EncodeClaims(c));
    DecodeEncodeClaims(c);
  }

  /** Two different secrets never give the same signature over the same header and payload. */
  lemma SignatureDeterminesSecret(h: string, p: string, secret: string, other: string)
    requires Signature(h, p, secret).Some?
    requires other != secret
    ensures Signature(h, p, other) != Signature(h, p, secret)
  {
    var prefix := h + "." + p + ".";
    var signed, forged := prefix + secret, prefix + other;
    assert signed == h + "." + p + "." + secret;
    assert forged == h + "." + p + "." + other;
    assert signed != forged by {
      assert signed[|prefix|..] == secret;
      assert forged[|prefix|..] == other;
    }
    if Latin1(forged) {
      EncodeInjective(signed, forged);
    }
  }

  /** Checking an issued token with any other secret fails: the recomputed signature differs. */
  lemma WrongSecretRejected(userId: string, secret: string, other: string, issuedMs: nat, nowMs: nat)
    requires Latin1(userId) && Latin1(secret)
    requires other != secret
    ensures VerifyToken(GenerateToken(userId, secret, issuedMs).value, other, nowMs).None?
  {
    GeneratedParts(userId, secret, issuedMs);
    var (h, p, s) := Parts(userId, secret, issuedMs);
    var token := GenerateToken(userId, secret, issuedMs).value;
    assert Split(token, '.') == [h, p, s];
    assert Signature(h, p, secret) == Some(s);
    SignatureDeterminesSecret(h, p, secret, other);
  }

  /**
   * Expiry is strict and optional: an expiry equal to the current second
   * still passes, an earlier one fails, and a missing or zero expiry never
   * fails.
   */
  lemma ExpiryIsStrict(c: Claims, nowMs: nat)
    ensures c.exp.Some? && c.exp.value == nowMs / 1000 ==> !Expired(c, nowMs)
    ensures c.exp.Some? && 0 < c.exp.value < nowMs / 1000 ==> Expired(c, nowMs)
    ensures c.exp.None? || c.exp.value == 0 ==> !Expired(c, nowMs)
  {
  }

  /** `extractToken` inverts putting `Bearer ` in front of a token. */
  lemma ExtractBearer(token: string)
    ensures ExtractToken(Some("Bearer " + token)) == Some(token)
  {
    assert ("Bearer " + token)[..7] == "Bearer ";
    assert ("Bearer " + token)[7..] == token;
  }
}
