/**
 * Password hashing and checking. The digest itself (SHA-256 over the UTF-8
 * encoding of the password) is a parameter of type `string -> Digest`:
 * any deterministic function yielding 32 bytes. What is modelled is how the
 * digest is written out, as lower-case hexadecimal, and how a stored hash is
 * checked.
 */
module Credentials {
  import opened JsString

  type Byte = b: int | 0 <= b < 256

  /** A SHA-256 digest: 32 bytes. */
  type Digest = d: seq<Byte> | |d| == 32 witness seq(32, _ => 0)

  /** `b.toString(16).padStart(2, '0')` for each byte, joined. */
  function Hex(bytes: seq<Byte>): (r: string)
    ensures |r| == 2 * |bytes|
    ensures forall i :: 0 <= i < |r| ==> IsLowerHexDigit(r[i])
    decreases |bytes|
  {
    if |bytes| == 0 then ""
    else [HexDigit(bytes[0] / 16), HexDigit(bytes[0] % 16)] + Hex(bytes[1..])
  }

  /** Reads hexadecimal text back into bytes, two digits per byte. */
  function Unhex(s: string): (bytes: seq<Byte>)
    requires |s| % 2 == 0
    requires forall i :: 0 <= i < |s| ==> IsHexDigit(s[i])
    decreases |s|
  {
    if |s| == 0 then []
    else [HexValue(s[0]) * 16 + HexValue(s[1])] + Unhex(s[2..])
  }

  lemma {:induction false} UnhexOfHex(bytes: seq<Byte>)
    ensures Unhex(Hex(bytes)) == bytes
    decreases |bytes|
  {
    if |bytes| > 0 {
      var h := Hex(bytes);
      HexValueOfDigit(bytes[0] / 16);
      HexValueOfDigit(bytes[0] % 16);
      assert h[2..] == Hex(bytes[1..]);
      UnhexOfHex(bytes[1..]);
      assert [bytes[0]] + bytes[1..] == bytes;
    }
  }

  /** Hex rendering loses nothing: two digests render alike only if they are equal. */
  lemma HexInjective(a: seq<Byte>, b: seq<Byte>)
    ensures Hex(a) == Hex(b) <==> a == b
  {
    UnhexOfHex(a);
    UnhexOfHex(b);
  }

  /** `hashPassword`: the digest of the password as 64 lower-case hexadecimal digits. */
  function HashPassword(sha256: string -> Digest, password: string): (hash: string)
    ensures |hash| == 64
    ensures forall i :: 0 <= i < |hash| ==> IsLowerHexDigit(hash[i])
  {
    Hex(sha256(password))
  }

  /** `verifyPassword`: recompute the hash and compare it with the stored one. */
  function VerifyPassword(sha256: string -> Digest, password: string, hash: string): (ok: bool)
    ensures hash == HashPassword(sha256, password) ==> ok
    ensures ok ==> |hash| == 64
  {
    HashPassword(sha256, password) == hash
  }

  /**
   * A hash stored for password `q` accepts password `p` exactly when the two
   * passwords have the same digest: no more and no fewer passwords than the
   * digest itself conflates.
   */
  lemma VerifyAgainstStoredHash(sha256: string -> Digest, p: string, q: string)
    ensures VerifyPassword(sha256, p, HashPassword(sha256, q)) <==> sha256(p) == sha256(q)
  {
    HexInjective(sha256(p), sha256(q));
  }
}
