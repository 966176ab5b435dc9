/** The decision `AuthMiddlewareService::call` takes for one request
    (src/middleware/auth_middleware.rs:69-129).

    The request is its list of headers. The decision says whether the inner
    service is called, which `String` goes into the request extensions, which
    Set-Cookie value is appended to the response, or which status is sent
    instead; `Panicked` is the `unwrap` on the cookie's header value failing. */
module AuthMiddleware {
  import opened Primitives
  import opened Text
  import opened Jwt
  import TokenService
  import Ledger

  type HeaderValue = seq<U8>

  /** A header as `HeaderMap` keeps it: the name in lower case, the value as bytes. */
  datatype Header = Header(name: string, value: HeaderValue)

  const AuthorizationHeader: string := "authorization"
  const RefreshTokenHeader: string := "refresh-token"
  const BearerPrefix: string := "Bearer "

  /** `HeaderMap::get`: the first value stored under the name. */
  function GetHeader(headers: seq<Header>, name: string): (r: Option<HeaderValue>)
    ensures r.Some? ==> Header(name, r.value) in headers
    ensures r.Some? ==>
      exists i | 0 <= i < |headers| :: headers[i] == Header(name, r.value) && forall j | 0 <= j < i :: headers[j].name != name
    ensures r.None? <==> forall h | h in headers :: h.name != name
  {
    if headers == [] then None
    else if headers[0].name == name then Some(headers[0].value)
    else GetHeader(headers[1..], name)
  }

  /** The bytes `HeaderValue::to_str` accepts: visible ASCII and tab. */
  predicate VisibleAscii(b: U8) {
    b == 9 || (32 <= b && b < 127)
  }

  /** `HeaderValue::to_str`: the value as text when every byte is visible ASCII. */
  function ToStr(v: HeaderValue): (r: Option<string>)
    ensures r.Some? <==> forall i | 0 <= i < |v| :: VisibleAscii(v[i])
    ensures r.Some? ==> |r.value| == |v| && forall i | 0 <= i < |v| :: r.value[i] as int == v[i]
  {
    if forall i | 0 <= i < |v| :: VisibleAscii(v[i]) then Some(seq(|v|, i requires 0 <= i < |v| => v[i] as char))
    else None
  }

  /** `headers().get(name).and_then(|hv| hv.to_str().ok())`: the first value
      under the name, as text, when it is all visible ASCII; nothing when no
      header has the name or that value is not text. */
  function HeaderText(headers: seq<Header>, name: string): (r: Option<string>)
    ensures (forall h | h in headers :: h.name != name) ==> r.None?
    ensures r.Some? <==>
      GetHeader(headers, name).Some? && forall i | 0 <= i < |GetHeader(headers, name).value| ::
        VisibleAscii(GetHeader(headers, name).value[i])
    ensures r.Some? ==>
      && |r.value| == |GetHeader(headers, name).value|
      && forall i | 0 <= i < |r.value| :: r.value[i] as int == GetHeader(headers, name).value[i]
  {
    match GetHeader(headers, name)
    case None => None
    case Some(v) => ToStr(v)
  }

  /** The name-value separator of the cookie and the attributes it is built with. */
  const CookiePrefix: string := "access_token="
  const CookieAttributes: string := "; HttpOnly; Secure; Path=/"

  /** The text `Cookie::build("access_token", token).path("/").http_only(true).secure(true)`
      displays as: the pair `access_token=<token>`, then the attributes in the
      order the cookie library writes them. The token is read back from the
      middle of the text. */
  function AccessTokenCookie(token: string): (c: string)
    ensures |c| == |CookiePrefix| + |token| + |CookieAttributes|
    ensures StartsWith(c, CookiePrefix)
    ensures c[|CookiePrefix|..|CookiePrefix| + |token|] == token
    ensures c[|CookiePrefix| + |token|..] == CookieAttributes
  {
    CookiePrefix + token + CookieAttributes
  }

  /** Distinct tokens make distinct cookies. */
  lemma AccessTokenCookieInjective(t1: string, t2: string)
    requires AccessTokenCookie(t1) == AccessTokenCookie(t2)
    ensures t1 == t2
  {
    var c := AccessTokenCookie(t1);
    assert t1 == c[|CookiePrefix|..|CookiePrefix| + |t1|];
  }

  /** The text `str::parse::<HeaderValue>` accepts: no control character other than tab. */
  predicate ValidHeaderText(s: string) {
    forall i | 0 <= i < |s| :: s[i] as int == 9 || (32 <= s[i] as int && s[i] as int != 127)
  }

  datatype AuthDecision =
    | Forward(identity: Option<string>, setCookie: Option<string>)
    | Reject(status: int)
    /** The cookie text was no valid header value. The source calls the inner
        service before it builds the header value, so the inner call has
        already happened when the `unwrap` fails; this decision does not record
        it. Only a codec whose tokens are not URL-safe reaches this case
        (`UrlSafeCookieIsValidHeader`). */
    | Panicked

  /** The token handed to access-token verification. */
  function AccessTokenOf(authorization: string): string {
    TrimStartMatches(authorization, BearerPrefix)
  }

  function Call(codec: TokenCodec, store: Ledger.Store, fault: Ledger.Fault, headers: seq<Header>, now: nat):
    (d: AuthDecision)
    ensures d.Reject? ==> d.status == 401
    ensures HeaderText(headers, AuthorizationHeader).None? ==> d == Reject(401)
    ensures d.Forward? ==> (d.identity.Some? <==> d.setCookie.None?)
    ensures d.Forward? && d.identity.Some? <==>
      && HeaderText(headers, AuthorizationHeader).Some?
      && TokenService.VerifyAccessToken(codec, AccessTokenOf(HeaderText(headers, AuthorizationHeader).value), now).Ok?
    ensures d.Forward? && d.identity.Some? ==>
      d.identity.value
      == TokenService.VerifyAccessToken(codec, AccessTokenOf(HeaderText(headers, AuthorizationHeader).value), now).value.id
    ensures d.Forward? && d.setCookie.Some? ==>
      && HeaderText(headers, RefreshTokenHeader).Some?
      && var refreshed := TokenService.VerifyRefreshToken(codec, store, fault, HeaderText(headers, RefreshTokenHeader).value, now);
         refreshed.Ok? && d.setCookie.value == AccessTokenCookie(refreshed.value)
  {
    match HeaderText(headers, AuthorizationHeader)
    case None => Reject(401)
    case Some(authorization) =>
      match TokenService.VerifyAccessToken(codec, AccessTokenOf(authorization), now)
      case Ok(claims) => Forward(Some(claims.id), None)
      case Err(_) =>
        match HeaderText(headers, RefreshTokenHeader)
        case None => Reject(401)
        case Some(refreshToken) =>
          match TokenService.VerifyRefreshToken(codec, store, fault, refreshToken, now)
          case Ok(newAccessToken) =>
            var cookie := AccessTokenCookie(newAccessToken);
            if ValidHeaderText(cookie) then Forward(None, Some(cookie)) else Panicked
          case Err(_) => Reject(401)
  }

  /** Tokens made of base64url characters and dots always make a valid cookie header. */
  lemma UrlSafeCookieIsValidHeader(token: string)
    requires forall i | 0 <= i < |token| :: TokenChar(token[i])
    ensures ValidHeaderText(AccessTokenCookie(token))
  {
    var s := AccessTokenCookie(token);
    forall i | 0 <= i < |s|
      ensures s[i] as int == 9 || (32 <= s[i] as int && s[i] as int != 127)
    {
      if i < |CookiePrefix| {
        assert s[i] == CookiePrefix[i];
      } else if i < |CookiePrefix| + |token| {
        assert s[i] == token[i - |CookiePrefix|];
      } else {
        assert s[i] == CookieAttributes[i - |CookiePrefix| - |token|];
      }
    }
  }

  /** An invalid access token but a valid refresh token: the request goes through
      with exactly one Set-Cookie carrying the new access token, and no identity. */
  lemma RefreshFallbackSetsCookie(codec: TokenCodec, store: Ledger.Store, fault: Ledger.Fault,
                                  headers: seq<Header>, now: nat)
    requires codec.UrlSafe()
    requires HeaderText(headers, AuthorizationHeader).Some?
    requires TokenService.VerifyAccessToken(codec, AccessTokenOf(HeaderText(headers, AuthorizationHeader).value), now).Err?
    requires HeaderText(headers, RefreshTokenHeader).Some?
    requires TokenService.VerifyRefreshToken(codec, store, fault, HeaderText(headers, RefreshTokenHeader).value, now).Ok?
    ensures Call(codec, store, fault, headers, now) == Forward(None, Some(AccessTokenCookie(
      TokenService.VerifyRefreshToken(codec, store, fault, HeaderText(headers, RefreshTokenHeader).value, now).value)))
  {
    var refreshed := TokenService.VerifyRefreshToken(codec, store, fault, HeaderText(headers, RefreshTokenHeader).value, now);
    UrlSafeCookieIsValidHeader(refreshed.value);
  }

  /** An invalid access token with no usable `Refresh-token` header, or one that
      fails verification, is answered 401 and the request is not forwarded. */
  lemma FailedFallbackIsRejected(codec: TokenCodec, store: Ledger.Store, fault: Ledger.Fault,
                                 headers: seq<Header>, now: nat)
    requires HeaderText(headers, AuthorizationHeader).Some?
    requires TokenService.VerifyAccessToken(codec, AccessTokenOf(HeaderText(headers, AuthorizationHeader).value), now).Err?
    requires HeaderText(headers, RefreshTokenHeader).None? ||
             TokenService.VerifyRefreshToken(codec, store, fault, HeaderText(headers, RefreshTokenHeader).value, now).Err?
    ensures Call(codec, store, fault, headers, now) == Reject(401)
  {
  }

  /** When the access token verifies, the ledger plays no part: any store and any ledger fault give the same decision. */
  lemma AccessPathIgnoresLedger(codec: TokenCodec, s1: Ledger.Store, f1: Ledger.Fault, s2: Ledger.Store,
                                f2: Ledger.Fault, headers: seq<Header>, now: nat)
    requires HeaderText(headers, AuthorizationHeader).Some?
    requires TokenService.VerifyAccessToken(codec, AccessTokenOf(HeaderText(headers, AuthorizationHeader).value), now).Ok?
    ensures Call(codec, s1, f1, headers, now) == Call(codec, s2, f2, headers, now)
  {
  }

  /** The token verified is the header value with every leading `Bearer ` removed:
      one more prefix changes nothing, and a value without it is used as it is. */
  lemma BearerPrefixesAreStripped(authorization: string)
    ensures AccessTokenOf(BearerPrefix + authorization) == AccessTokenOf(authorization)
    ensures !StartsWith(authorization, BearerPrefix) ==> AccessTokenOf(authorization) == authorization
    ensures !StartsWith(AccessTokenOf(authorization), BearerPrefix)
  {
    TrimStartMatchesAbsorbs(authorization, BearerPrefix);
  }
}
