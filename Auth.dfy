/**
 * Credential and token-payload helpers of src/utils/auth.ts.
 *
 * The clock (`Date.now()`), the random bytes (`randomBytes(32)`), the
 * `Authorization` header (`req.get`) and the object `jwt.verify` decodes are
 * parameters. Signing and signature checking are not modelled.
 */
module Auth {
  import opened Wrappers

  type byte = x: int | 0 <= x < 256

  const NoAuthorizationHeader: string := "No authorization header"
  const InvalidToken: string := "invalid token"

  /** The scheme literals that `getBearerToken` and `getAPIKey` delete. */
  const BearerScheme: string := "Bearer "
  const ApiKeyScheme: string := "ApiKey "

  /** The fixed `iss` claim of every access token. */
  const Issuer: string := "chirpy"

  // ---------------------------------------------------------------------
  // String.prototype.replace with a string pattern
  // ---------------------------------------------------------------------

  /** `pat` occurs in `s` starting at index `i`. */
  predicate OccursAt(s: string, pat: string, i: nat)
  {
    i + |pat| <= |s| && s[i..i + |pat|] == pat
  }

  /** `i` is the start of the leftmost occurrence of `pat` in `s`. */
  predicate FirstOccurrence(s: string, pat: string, i: nat)
  {
    OccursAt(s, pat, i) && forall j: nat :: j < i ==> !OccursAt(s, pat, j)
  }

  /** The leftmost occurrence of `pat` in `s` at or after `from`; `None` when there is none. */
  function IndexOfFrom(s: string, pat: string, from: nat): (r: Option<nat>)
    ensures r.Some? ==> from <= r.value && OccursAt(s, pat, r.value)
    ensures r.Some? ==> forall j: nat :: from <= j < r.value ==> !OccursAt(s, pat, j)
    ensures r.None? ==> forall j: nat :: from <= j ==> !OccursAt(s, pat, j)
    decreases |s| - from
  {
    if from + |pat| > |s| then None
    else if s[from..from + |pat|] == pat then Some(from)
    else IndexOfFrom(s, pat, from + 1)
  }

  /** `r` is `s` with the leftmost occurrence of `pat` deleted, or `s` itself when there is none. */
  ghost predicate RemovesFirst(s: string, pat: string, r: string)
  {
    && ((forall j: nat :: !OccursAt(s, pat, j)) ==> r == s)
    && (forall i: nat :: FirstOccurrence(s, pat, i) ==> r == s[..i] + s[i + |pat|..])
  }

  /**
   * `s.replace(pat, "")`: only the leftmost occurrence is deleted, wherever
   * it is, and a string without one is returned unchanged.
   */
  function DeleteFirst(s: string, pat: string): (r: string)
    ensures RemovesFirst(s, pat, r)
  {
    match IndexOfFrom(s, pat, 0)
    case None => s
    case Some(i) => s[..i] + s[i + |pat|..]
  }

  // ---------------------------------------------------------------------
  // getBearerToken / getAPIKey
  // ---------------------------------------------------------------------

  /**
   * Shared shape of `getBearerToken` and `getAPIKey`: `!authHeader` throws for
   * a missing header and for the empty string alike; otherwise the first
   * occurrence of `scheme` is deleted with `String.replace`.
   */
  function ExtractCredential(header: Option<string>, scheme: string): (r: Result<string, string>)
    ensures r.Failure? <==> header == None || header == Some("")
    ensures r.Failure? ==> r.error == NoAuthorizationHeader
    ensures r.Success? ==> RemovesFirst(header.value, scheme, r.value)
  {
    match header
    case None => Failure(NoAuthorizationHeader)
    case Some(h) =>
      if h == "" then Failure(NoAuthorizationHeader)
      else Success(DeleteFirst(h, scheme))
  }

  /** `getBearerToken(req)`, with `header` the value of `req.get("Authorization")`. */
  function GetBearerToken(header: Option<string>): (r: Result<string, string>)
    ensures r.Failure? <==> header == None || header == Some("")
    ensures r.Failure? ==> r.error == NoAuthorizationHeader
    ensures r.Success? ==> RemovesFirst(header.value, BearerScheme, r.value)
  {
    ExtractCredential(header, BearerScheme)
  }

  /** `getAPIKey(req)`, with `header` the value of `req.get("Authorization")`. */
  function GetAPIKey(header: Option<string>): (r: Result<string, string>)
    ensures r.Failure? <==> header == None || header == Some("")
    ensures r.Failure? ==> r.error == NoAuthorizationHeader
    ensures r.Success? ==> RemovesFirst(header.value, ApiKeyScheme, r.value)
  {
    ExtractCredential(header, ApiKeyScheme)
  }

  /** A credential sent as `scheme + t` comes back as exactly `t`, whatever `t` is. */
  lemma {:induction false} SchemePrefixRoundTrip(scheme: string, t: string)
    requires scheme != ""
    ensures ExtractCredential(Some(scheme + t), scheme) == Success(t)
  {
    var h := scheme + t;
    assert h[0..|scheme|] == scheme;
    assert FirstOccurrence(h, scheme, 0);
    assert h != "" by { assert |h| == |scheme| + |t|; }
    var r := ExtractCredential(Some(h), scheme);
    assert r.value == h[..0] + h[|scheme|..] == t;
  }

  lemma BearerRoundTrip(t: string)
    ensures GetBearerToken(Some(BearerScheme + t)) == Success(t)
  {
    SchemePrefixRoundTrip(BearerScheme, t);
  }

  lemma APIKeyRoundTrip(t: string)
    ensures GetAPIKey(Some(ApiKeyScheme + t)) == Success(t)
  {
    SchemePrefixRoundTrip(ApiKeyScheme, t);
  }

  /** A non-empty header that never mentions the scheme is returned as the credential unchanged. */
  lemma BearerWithoutSchemeUnchanged(h: string)
    requires h != ""
    requires forall j: nat :: !OccursAt(h, BearerScheme, j)
    ensures GetBearerToken(Some(h)) == Success(h)
  {
  }

  /**
   * The deletion is not anchored at the start: a scheme in the middle of the
   * header is removed too, so "Basic Bearer abc" yields "Basic abc".
   */
  lemma BearerDeletedAnywhere()
    ensures GetBearerToken(Some("Basic Bearer abc")) == Success("Basic abc")
  {
    var h := "Basic Bearer abc";
    assert OccursAt(h, BearerScheme, 6) by {
      assert h[6..13] == BearerScheme;
    }
    forall j: nat | j < 6
      ensures !OccursAt(h, BearerScheme, j)
    {
      assert h[j..j + 7][0] == h[j];
      assert h[j..j + 7][1] == h[j + 1];
    }
    assert FirstOccurrence(h, BearerScheme, 6);
    assert h[..6] + h[13..] == "Basic abc";
  }

  // ---------------------------------------------------------------------
  // makeJWT payload and validateJWT
  // ---------------------------------------------------------------------

  /** The registered claims `makeJWT` puts in a token (section 4.1 of RFC 7519). */
  datatype Payload = Payload(iss: string, sub: string, iat: int, exp: int)

  /**
   * The payload `makeJWT(userID, expiresIn, secret)` signs when `Date.now()`
   * returns `nowMs`: `iat` is the clock in whole seconds, rounded down.
   */
  function MakeJWTPayload(userID: string, expiresIn: int, nowMs: int): (p: Payload)
    ensures p.iss == Issuer && p.sub == userID
    ensures p.iat * 1000 <= nowMs < p.iat * 1000 + 1000
    ensures p.exp - p.iat == expiresIn
  {
    var currentTime := nowMs / 1000;
    Payload(Issuer, userID, currentTime, currentTime + expiresIn)
  }

  /** A lifetime of zero gives a token that expires the second it is issued. */
  lemma ZeroLifetimeExpiresAtIssue(userID: string, nowMs: int)
    ensures MakeJWTPayload(userID, 0, nowMs).exp == MakeJWTPayload(userID, 0, nowMs).iat
  {
  }

  /** A JSON value as it can appear in a decoded claim. */
  datatype Json = JUndefined | JNull | JBool(b: bool) | JNumber(n: int) | JString(s: string)

  /** What `jwt.verify` returns on success: a string payload or a claims object. */
  datatype Decoded = StringPayload(text: string) | ObjectPayload(claims: map<string, Json>)

  /**
   * `validateJWT` after `jwt.verify` has accepted the token and returned
   * `decoded`: the subject is the user id when it is a string, and any other
   * shape is "invalid token".
   */
  function ValidateJWT(decoded: Decoded): (r: Result<string, string>)
    ensures r.Success? <==> decoded.ObjectPayload? && "sub" in decoded.claims && decoded.claims["sub"].JString?
    ensures r.Success? ==> decoded.claims["sub"] == JString(r.value)
    ensures r.Failure? ==> r.error == InvalidToken
  {
    match decoded
    case StringPayload(_) => Failure(InvalidToken)  // `decoded.sub` is undefined
    case ObjectPayload(claims) =>
      if "sub" in claims && claims["sub"].JString? then Success(claims["sub"].s)
      else Failure(InvalidToken)
  }

  /** The claims object that signing `p` embeds and a successful `jwt.verify` gives back. */
  function Claims(p: Payload): (c: map<string, Json>)
    ensures c.Keys == {"iss", "sub", "iat", "exp"}
    ensures c["sub"] == JString(p.sub) && c["iss"] == JString(p.iss)
    ensures c["iat"] == JNumber(p.iat) && c["exp"] == JNumber(p.exp)
    ensures ValidateJWT(ObjectPayload(c)) == Success(p.sub)
  {
    map["iss" := JString(p.iss), "sub" := JString(p.sub), "iat" := JNumber(p.iat), "exp" := JNumber(p.exp)]
  }

  /**
   * Once `jwt.verify` has accepted the token (its signature and expiry are not
   * modelled), the `sub` check on the payload `makeJWT` built yields the user id
   * it was built for. A lifetime of 0 or less makes `jwt.verify` reject it first.
   */
  lemma MakeThenValidate(userID: string, expiresIn: int, nowMs: int)
    ensures ValidateJWT(ObjectPayload(Claims(MakeJWTPayload(userID, expiresIn, nowMs)))) == Success(userID)
  {
  }

  /** Only the type of `sub` is checked: the empty string is accepted as a subject. */
  lemma EmptySubjectAccepted()
    ensures ValidateJWT(ObjectPayload(map["sub" := JString("")])) == Success("")
  {
  }

  // ---------------------------------------------------------------------
  // makeRefreshToken: base16 encoding (section 8 of RFC 4648), lower case
  // ---------------------------------------------------------------------

  /** The lower-case hex digit for `n`. */
  function HexDigit(n: nat): (c: char)
    requires n < 16
    ensures IsLowerHex(c)
  {
    if n < 10 then ('0' as int + n) as char else ('a' as int + n - 10) as char
  }

  predicate IsLowerHex(c: char)
  {
    '0' <= c <= '9' || 'a' <= c <= 'f'
  }

  /** The value of a lower-case hex digit. */
  function HexValue(c: char): (r: Option<nat>)
    ensures r.Some? <==> IsLowerHex(c)
    ensures r.Some? ==> r.value < 16 && HexDigit(r.value) == c
  {
    if '0' <= c <= '9' then Some(c as int - '0' as int)
    else if 'a' <= c <= 'f' then Some(c as int - 'a' as int + 10)
    else None
  }

  /** `Buffer.toString("hex")`: two digits per byte, high nibble first. */
  function HexEncode(bytes: seq<byte>): (r: string)
    ensures |r| == 2 * |bytes|
    ensures forall i :: 0 <= i < |bytes| ==> r[2 * i] == HexDigit(bytes[i] / 16) && r[2 * i + 1] == HexDigit(bytes[i] % 16)
    ensures forall k :: 0 <= k < |r| ==> IsLowerHex(r[k])
  {
    if bytes == [] then []
    else [HexDigit(bytes[0] / 16), HexDigit(bytes[0] % 16)] + HexEncode(bytes[1..])
  }

  /** The inverse of `HexEncode`: `None` for an odd length or a non-digit. */
  function HexDecode(s: string): (r: Option<seq<byte>>)
    ensures r.Some? ==> 2 * |r.value| == |s|
    decreases |s|
  {
    if s == [] then Some([])
    else if |s| == 1 then None
    else
      match (HexValue(s[0]), HexValue(s[1]), HexDecode(s[2..]))
      case (Some(hi), Some(lo), Some(rest)) => Some([(hi * 16 + lo) as byte] + rest)
      case _ => None
  }

  lemma {:induction false} HexRoundTrip(bytes: seq<byte>)
    ensures HexDecode(HexEncode(bytes)) == Some(bytes)
  {
    if bytes != [] {
      var b := bytes[0];
      var s := HexEncode(bytes);
      assert s[2..] == HexEncode(bytes[1..]);
      HexRoundTrip(bytes[1..]);
      assert HexValue(s[0]) == Some(b / 16);
      assert HexValue(s[1]) == Some(b % 16);
      assert [(b / 16 * 16 + b % 16) as byte] + bytes[1..] == bytes;
    }
  }

  /** Distinct byte strings give distinct tokens. */
  lemma HexEncodeInjective(a: seq<byte>, b: seq<byte>)
    requires HexEncode(a) == HexEncode(b)
    ensures a == b
  {
    HexRoundTrip(a);
    HexRoundTrip(b);
  }

  /** `makeRefreshToken()` with `random` the 32 bytes `randomBytes(32)` returned. */
  function MakeRefreshToken(random: seq<byte>): (token: string)
    requires |random| == 32
    ensures |token| == 64
    ensures forall k :: 0 <= k < |token| ==> IsLowerHex(token[k])
    ensures HexDecode(token) == Some(random)
  {
    HexRoundTrip(random);
    HexEncode(random)
  }
}
