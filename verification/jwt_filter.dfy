/** The per-request bearer-token filter. It reads the `Authorization` header,
    and when the header starts with the exact, case-sensitive `"Bearer "`, it
    removes every occurrence of that marker, verifies what remains and, for a
    token with a subject, puts the loaded user with its authorities into the
    security context. Every failure is swallowed: the request always continues
    down the chain, authenticated or not. */
module JwtAuthenticationFilter {
  import opened Common
  import opened Entities
  import opened Jwt

  /** The scheme marker of the bearer header. */
  const TokenPrefix := "Bearer "

  /** `target` occurs in `s` at index `i`. */
  predicate OccursAt(target: string, s: string, i: int)
  {
    0 <= i && i + |target| <= |s| && s[i..i + |target|] == target
  }

  /** `target` occurs somewhere in `s`. */
  ghost predicate Occurs(target: string, s: string)
  {
    exists i :: OccursAt(target, s, i)
  }

  /** Java's String.replace(target, ""): one left-to-right pass deleting every
      non-overlapping occurrence of `target`. */
  function RemoveAll(s: string, target: string): (r: string)
    requires |target| > 0
    ensures |r| <= |s|
    ensures !Occurs(target, s) ==> r == s
    decreases |s|
  {
    if |s| == 0 then ""
    else if StartsWith(s, target) then
      assert OccursAt(target, s, 0);
      RemoveAll(s[|target|..], target)
    else
      assert !Occurs(target, s) ==> !Occurs(target, s[1..]) by {
        if Occurs(target, s[1..]) {
          var i :| OccursAt(target, s[1..], i);
          assert s[1..][i..i + |target|] == s[i + 1..i + 1 + |target|];
          assert OccursAt(target, s, i + 1);
        }
      }
      [s[0]] + RemoveAll(s[1..], target)
  }

  /** A marker-free string with at least one character, followed by the
      marker, does not start with the marker: the marker's only space is its
      last character, so a match would have to end inside the marker. */
  lemma NoMarkerStartsBefore(a: string, rest: string)
    requires |a| > 0 && !Occurs(TokenPrefix, a)
    ensures !StartsWith(a + TokenPrefix + rest, TokenPrefix)
  {
    var s := a + TokenPrefix + rest;
    if |a| >= |TokenPrefix| {
      assert s[..|TokenPrefix|] == a[0..|TokenPrefix|];
      assert !OccursAt(TokenPrefix, a, 0);
    } else {
      assert s[6] == TokenPrefix[6 - |a|] != ' ';
    }
  }

  /** Dropping the first character of a marker-free string leaves it marker-free. */
  lemma NoMarkerInTail(a: string)
    requires |a| > 0 && !Occurs(TokenPrefix, a)
    ensures !Occurs(TokenPrefix, a[1..])
  {
    forall i | OccursAt(TokenPrefix, a[1..], i) ensures false {
      assert a[1..][i..i + |TokenPrefix|] == a[i + 1..i + 1 + |TokenPrefix|];
      assert OccursAt(TokenPrefix, a, i + 1);
    }
  }

  /** A header that starts with the marker loses it first. */
  lemma RemoveAllDropsLeadingMarker(b: string)
    ensures RemoveAll(TokenPrefix + b, TokenPrefix) == RemoveAll(b, TokenPrefix)
  {
    var s := TokenPrefix + b;
    assert s[..|TokenPrefix|] == TokenPrefix;
    assert s[|TokenPrefix|..] == b;
  }

  /** A header that does not start with the marker keeps its first character. */
  lemma RemoveAllKeepsFirst(s: string)
    requires |s| > 0 && !StartsWith(s, TokenPrefix)
    ensures RemoveAll(s, TokenPrefix) == [s[0]] + RemoveAll(s[1..], TokenPrefix)
  {
  }

  /** Every marker is removed wherever it stands: the marker-free text before
      the first marker is kept, the marker goes, and the removal carries on
      through the rest of the header. */
  lemma {:induction false} RemoveAllDropsFirstMarker(a: string, b: string)
    requires !Occurs(TokenPrefix, a)
    ensures RemoveAll(a + TokenPrefix + b, TokenPrefix) == a + RemoveAll(b, TokenPrefix)
    decreases |a|
  {
    if |a| == 0 {
      assert a + TokenPrefix + b == TokenPrefix + b;
      RemoveAllDropsLeadingMarker(b);
    } else {
      var s := a + TokenPrefix + b;
      NoMarkerStartsBefore(a, b);
      RemoveAllKeepsFirst(s);
      NoMarkerInTail(a);
      assert s[1..] == a[1..] + TokenPrefix + b;
      RemoveAllDropsFirstMarker(a[1..], b);
      var kept := RemoveAll(b, TokenPrefix);
      assert [a[0]] + (a[1..] + kept) == ([a[0]] + a[1..]) + kept;
      assert [a[0]] + a[1..] == a;
    }
  }

  /** A header made of two marker-free pieces around one marker loses exactly the marker. */
  lemma RemoveAllBetweenMarkerFreePieces(a: string, b: string)
    requires !Occurs(TokenPrefix, a) && !Occurs(TokenPrefix, b)
    ensures RemoveAll(a + TokenPrefix + b, TokenPrefix) == a + b
  {
    RemoveAllDropsFirstMarker(a, b);
  }

  /** What the filter leaves behind: the authentication it put into the
      security context, if any, and how often it passed the request on. */
  datatype FilterResult = FilterResult(context: Option<Principal>, chainCalls: nat)

  /** The principal a bearer token yields: its signature and expiry check out,
      it names a subject, and that subject loads. None stands for every
      exception the filter swallows. */
  function Authenticate(codec: Codec, secret: string, loadUser: string -> Option<Principal>,
                        token: string, nowMillis: int): (p: Option<Principal>)
    ensures p.Some? <==>
      && KeyAccepted(secret)
      && Parse(codec, secret, token, nowMillis).Some?
      && Parse(codec, secret, token, nowMillis).value.subject.Some?
      && loadUser(Parse(codec, secret, token, nowMillis).value.subject.value).Some?
    ensures p.Some? ==> p == loadUser(Parse(codec, secret, token, nowMillis).value.subject.value)
  {
    if !KeyAccepted(secret) then None
    else match Parse(codec, secret, token, nowMillis)
      case None => None
      case Some(claims) =>
        match claims.subject
        case None => None
        case Some(username) => loadUser(username)
  }

  /** `doFilterInternal`. `loadUser` is the user-details service, giving None
      where it throws. */
  function DoFilterInternal(header: Option<string>, codec: Codec, secret: string,
                            loadUser: string -> Option<Principal>, nowMillis: int): (r: FilterResult)
    ensures r.chainCalls == 1
    ensures header.None? ==> r.context.None?
    ensures header.Some? && !StartsWith(header.value, TokenPrefix) ==> r.context.None?
    ensures header.Some? && StartsWith(header.value, TokenPrefix) ==>
      r.context == Authenticate(codec, secret, loadUser, RemoveAll(header.value, TokenPrefix), nowMillis)
  {
    if header.None? || !StartsWith(header.value, TokenPrefix) then
      FilterResult(None, 1)
    else
      var token := RemoveAll(header.value, TokenPrefix);
      FilterResult(Authenticate(codec, secret, loadUser, token, nowMillis), 1)
  }

  /** The scheme marker is matched case-sensitively: a lower-case "bearer"
      header is passed on without authentication, whatever token it carries. */
  lemma LowerCaseSchemeIsIgnored(token: string, codec: Codec, secret: string,
                                 loadUser: string -> Option<Principal>, nowMillis: int)
    ensures DoFilterInternal(Some("bearer " + token), codec, secret, loadUser, nowMillis) == FilterResult(None, 1)
  {
    assert ("bearer " + token)[0] != TokenPrefix[0];
  }

  /** Every occurrence of the marker is removed, not only the leading one. */
  lemma EveryMarkerIsRemoved()
    ensures RemoveAll("Bearer xBearer y", TokenPrefix) == "xy"
  {
    assert RemoveAll("y", TokenPrefix) == "y";
    assert RemoveAll("Bearer y", TokenPrefix) == "y" by {
      assert "Bearer y"[..7] == TokenPrefix;
      assert "Bearer y"[7..] == "y";
    }
    assert RemoveAll("xBearer y", TokenPrefix) == "xy" by {
      assert "xBearer y"[..7][0] == 'x';
      assert "xBearer y"[1..] == "Bearer y";
    }
    assert "Bearer xBearer y"[..7] == TokenPrefix;
    assert "Bearer xBearer y"[7..] == "xBearer y";
  }

  /** A string written in the compact alphabet contains no space, hence no marker. */
  lemma CompactTokenHasNoMarker(token: string)
    requires forall i :: 0 <= i < |token| ==> CompactChar(token[i])
    ensures !Occurs(TokenPrefix, token)
  {
    forall i | 0 <= i && i + |TokenPrefix| <= |token|
      ensures !OccursAt(TokenPrefix, token, i)
    {
      assert CompactChar(token[i + 6]);
      assert token[i..i + |TokenPrefix|][6] == token[i + 6];
    }
  }

  /** Removing the marker from "Bearer " followed by a compact token gives back the token. */
  lemma StripBearerOfCompactToken(token: string)
    requires forall i :: 0 <= i < |token| ==> CompactChar(token[i])
    ensures StartsWith(TokenPrefix + token, TokenPrefix)
    ensures RemoveAll(TokenPrefix + token, TokenPrefix) == token
  {
    var header := TokenPrefix + token;
    assert header[..|TokenPrefix|] == TokenPrefix;
    assert header[|TokenPrefix|..] == token;
    CompactTokenHasNoMarker(token);
  }
}
