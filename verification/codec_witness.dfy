/** A codec that satisfies the signing laws the filter and the login rely on.
    It exists to show that those laws can be met together, so that the lemmas
    assuming them are not vacuous; it is not the wire format of the signing
    library. A claims set is written in the compact alphabet as a subject
    marker and character codes, followed by the two times, every number in
    unary: `n` copies of 'a' closed by '.'. */
module CodecWitness {
  import opened Common
  import opened Jwt

  /** Every character of `s` belongs to the compact alphabet. */
  predicate AllCompact(s: string)
  {
    forall i :: 0 <= i < |s| ==> CompactChar(s[i])
  }

  lemma AllCompactConcat(a: string, b: string)
    requires AllCompact(a) && AllCompact(b)
    ensures AllCompact(a + b)
  {
    forall i | 0 <= i < |a + b| ensures CompactChar((a + b)[i]) {
      if i >= |a| {
        assert (a + b)[i] == b[i - |a|];
      }
    }
  }

  /** `n` in unary, closed by '.'. */
  function EncodeNat(n: nat): (s: string)
    ensures |s| == n + 1 && AllCompact(s)
  {
    if n == 0 then "." else "a" + EncodeNat(n - 1)
  }

  /** Reads a unary number off the front of `t`, returning it with the rest. */
  function DecodeNat(t: string): (r: Option<(nat, string)>)
    ensures r.Some? ==> |r.value.1| < |t|
    decreases |t|
  {
    if |t| == 0 then None
    else if t[0] == '.' then Some((0, t[1..]))
    else if t[0] == 'a' then
      match DecodeNat(t[1..])
      case None => None
      case Some((n, rest)) => Some((n + 1, rest))
    else None
  }

  lemma {:induction false} DecodeEncodeNat(n: nat, rest: string)
    ensures DecodeNat(EncodeNat(n) + rest) == Some((n, rest))
  {
    if n > 0 {
      assert EncodeNat(n) + rest == "a" + (EncodeNat(n - 1) + rest);
      DecodeEncodeNat(n - 1, rest);
    } else {
      assert (EncodeNat(n) + rest)[1..] == rest;
    }
  }

  /** An integer: its sign as 'p' or 'm', then its magnitude. */
  function EncodeInt(i: int): (s: string)
    ensures AllCompact(s)
  {
    AllCompactConcat("p", EncodeNat(if i >= 0 then i else -i));
    AllCompactConcat("m", EncodeNat(if i >= 0 then i else -i));
    if i >= 0 then "p" + EncodeNat(i) else "m" + EncodeNat(-i)
  }

  function DecodeInt(t: string): (r: Option<(int, string)>)
    ensures r.Some? ==> |r.value.1| < |t|
  {
    if |t| == 0 then None
    else match DecodeNat(t[1..])
      case None => None
      case Some((n, rest)) =>
        var magnitude: int := n;
        if t[0] == 'p' then Some((magnitude, rest))
        else if t[0] == 'm' then Some((-magnitude, rest))
        else None
  }

  lemma DecodeEncodeInt(i: int, rest: string)
    ensures DecodeInt(EncodeInt(i) + rest) == Some((i, rest))
  {
    if i >= 0 {
      var t := "p" + EncodeNat(i) + rest;
      assert t[0] == 'p' && t[1..] == EncodeNat(i) + rest;
      DecodeEncodeNat(i, rest);
    } else {
      var t := "m" + EncodeNat(-i) + rest;
      assert t[0] == 'm' && t[1..] == EncodeNat(-i) + rest;
      DecodeEncodeNat(-i, rest);
    }
  }

  /** A code point that is a character. */
  predicate IsCharCode(n: int)
  {
    (0 <= n < 0xD800) || (0xE000 <= n < 0x11_0000)
  }

  /** A string as the codes of its characters, closed by '-'. */
  function EncodeChars(s: string): (r: string)
    ensures AllCompact(r)
  {
    if s == [] then "-"
    else
      AllCompactConcat(EncodeNat(s[0] as int), EncodeChars(s[1..]));
      EncodeNat(s[0] as int) + EncodeChars(s[1..])
  }

  function DecodeChars(t: string): (r: Option<(string, string)>)
    decreases |t|
  {
    if |t| == 0 then None
    else if t[0] == '-' then Some(([], t[1..]))
    else match DecodeNat(t)
      case None => None
      case Some((n, rest)) =>
        if !IsCharCode(n) then None
        else match DecodeChars(rest)
          case None => None
          case Some((s, rest')) => Some(([n as char] + s, rest'))
  }

  lemma {:induction false} DecodeEncodeChars(s: string, rest: string)
    ensures DecodeChars(EncodeChars(s) + rest) == Some((s, rest))
  {
    if s == [] {
      assert (EncodeChars(s) + rest)[1..] == rest;
    } else {
      var n := s[0] as int;
      assert EncodeChars(s) + rest == EncodeNat(n) + (EncodeChars(s[1..]) + rest);
      DecodeEncodeNat(n, EncodeChars(s[1..]) + rest);
      DecodeEncodeChars(s[1..], rest);
      assert [n as char] + s[1..] == s;
    }
  }

  /** A claims set: 'n' for no subject or 's' and its characters, then `iat` and `exp`. */
  function Encode(c: Claims): (t: string)
    ensures AllCompact(t)
  {
    var subject := if c.subject.None? then "n" else "s" + EncodeChars(c.subject.value);
    assert AllCompact(subject) by {
      if c.subject.Some? {
        AllCompactConcat("s", EncodeChars(c.subject.value));
      }
    }
    AllCompactConcat(subject, EncodeInt(c.issuedAt));
    AllCompactConcat(subject + EncodeInt(c.issuedAt), EncodeInt(c.expiration));
    subject + EncodeInt(c.issuedAt) + EncodeInt(c.expiration)
  }

  function DecodeSubject(t: string): (r: Option<(Option<string>, string)>)
  {
    if |t| == 0 then None
    else if t[0] == 'n' then Some((None, t[1..]))
    else if t[0] == 's' then
      match DecodeChars(t[1..])
      case None => None
      case Some((s, rest)) => Some((Some(s), rest))
    else None
  }

  /** Reads a whole token back into a claims set; None if anything is left over or malformed. */
  function Decode(t: string): (r: Option<Claims>)
  {
    match DecodeSubject(t)
    case None => None
    case Some((subject, rest)) =>
      match DecodeInt(rest)
      case None => None
      case Some((iat, rest')) =>
        match DecodeInt(rest')
        case None => None
        case Some((exp, rest'')) => if rest'' == [] then Some(Claims(subject, iat, exp)) else None
  }

  lemma DecodeEncode(c: Claims)
    ensures Decode(Encode(c)) == Some(c)
  {
    var subject := if c.subject.None? then "n" else "s" + EncodeChars(c.subject.value);
    var iat, exp := EncodeInt(c.issuedAt), EncodeInt(c.expiration);
    assert Encode(c) == subject + (iat + exp);
    if c.subject.Some? {
      assert (subject + (iat + exp))[1..] == EncodeChars(c.subject.value) + (iat + exp);
      DecodeEncodeChars(c.subject.value, iat + exp);
    } else {
      assert (subject + (iat + exp))[1..] == iat + exp;
    }
    assert DecodeSubject(Encode(c)) == Some((c.subject, iat + exp));
    DecodeEncodeInt(c.issuedAt, exp);
    DecodeEncodeInt(c.expiration, []);
    assert exp + [] == exp;
  }

  /** The witness codec: the secret is not used, and parsing enforces expiry. */
  function WitnessCodec(): Codec
  {
    Codec(
      (secret: string, c: Claims) => Encode(c),
      (secret: string, t: string, now: int) =>
        match Decode(t)
        case None => None
        case Some(c) => if Unexpired(c, now) then Some(c) else None)
  }

  /** The signing laws can all be met at once. */
  lemma WitnessCodecIsLawful()
    ensures Lawful(WitnessCodec())
  {
    var codec := WitnessCodec();
    forall secret, claims, now
      ensures Parse(codec, secret, Sign(codec, secret, claims), now)
              == if Unexpired(claims, now) then Some(claims) else None
    {
      DecodeEncode(claims);
    }
  }
}
