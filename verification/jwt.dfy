/** Signed tokens as the controllers and the filter use them. The signing
    library is not modelled: it is a pair of functions of the configured secret,
    `sign` and `parse`, constrained by the laws a compact signed token satisfies. */
module Jwt {
  import opened Common

  /** The registered claims a login token carries: `sub` (section 4.1.2 of
      RFC 7519), `iat` (section 4.1.6) and `exp` (section 4.1.4). The times are
      NumericDate values: whole seconds since the epoch. The subject may be
      absent from a parsed token. */
  datatype Claims = Claims(subject: Option<string>, issuedAt: int, expiration: int)

  /** The signing library, keyed by the configured secret string: `sign` builds
      the compact serialization of a claims set; `parse` checks a compact token's
      signature and expiry at a time in milliseconds and returns its claims, or
      None where the library throws. */
  datatype Codec = Codec(sign: (string, Claims) -> string, parse: (string, string, int) -> Option<Claims>)

  function Sign(codec: Codec, secret: string, claims: Claims): string
  {
    codec.sign(secret, claims)
  }

  function Parse(codec: Codec, secret: string, token: string, nowMillis: int): Option<Claims>
  {
    codec.parse(secret, token, nowMillis)
  }

  /** The parser accepts a token until the clock passes its expiration instant. */
  predicate Unexpired(claims: Claims, nowMillis: int)
  {
    nowMillis <= claims.expiration * 1000
  }

  /** A character of the compact serialization (section 7.1 of RFC 7515): the
      base64url alphabet (section 5 of RFC 4648) and the '.' separating the
      three segments. */
  predicate CompactChar(c: char)
  {
    ('A' <= c <= 'Z') || ('a' <= c <= 'z') || ('0' <= c <= '9') || c == '-' || c == '_' || c == '.'
  }

  /** The laws the signing library is relied on for: a token signed with a
      secret parses back, with the same secret, to exactly its claims while it
      is unexpired and fails once it has expired; and a token is written in the
      compact alphabet only. */
  ghost predicate Lawful(codec: Codec)
  {
    && (forall secret, claims, now ::
          Parse(codec, secret, Sign(codec, secret, claims), now)
          == if Unexpired(claims, now) then Some(claims) else None)
    && (forall secret, claims, i :: 0 <= i < |Sign(codec, secret, claims)| ==>
          CompactChar(Sign(codec, secret, claims)[i]))
  }

  /** The number of bytes of the UTF-8 encoding of `s`. */
  function Utf8Length(s: string): (n: nat)
    ensures |s| <= n <= 4 * |s|
  {
    if |s| == 0 then 0
    else
      var c := s[0] as int;
      (if c < 0x80 then 1 else if c < 0x800 then 2 else if c < 0x1_0000 then 3 else 4) + Utf8Length(s[1..])
  }

  /** The smallest HMAC-SHA key the key factory accepts, in bits. */
  const MinKeyBits := 256

  /** The key factory accepts the secret's UTF-8 bytes as an HMAC-SHA key only
      when they are at least 256 bits long; otherwise it throws. */
  predicate KeyAccepted(secret: string)
    ensures |secret| >= 32 ==> KeyAccepted(secret)
    ensures KeyAccepted(secret) ==> |secret| >= 8
  {
    Utf8Length(secret) * 8 >= MinKeyBits
  }

  /** A secret of 32 ASCII characters is long enough; one of 31 is not. */
  lemma KeyLengthBoundary(secret: string)
    requires forall i :: 0 <= i < |secret| ==> secret[i] < 0x80 as char
    ensures KeyAccepted(secret) <==> |secret| >= 32
  {
    AsciiUtf8Length(secret);
  }

  lemma {:induction false} AsciiUtf8Length(s: string)
    requires forall i :: 0 <= i < |s| ==> s[i] < 0x80 as char
    ensures Utf8Length(s) == |s|
  {
    if |s| > 0 {
      AsciiUtf8Length(s[1..]);
    }
  }
}
