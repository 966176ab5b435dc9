/** Claims, token lifetimes and token minting (src/utils/jwt.rs).

    `jsonwebtoken::encode` and `decode` are a foreign library; here they are
    the two function fields of `TokenCodec`, keyed by a secret, together with
    the laws a correct codec obeys. The laws are predicates that lemmas take as
    hypotheses; nothing assumes them. The wall clock is the parameter `now`
    (seconds since the epoch). */
module Jwt {
  import opened Primitives

  /** The payload of every token: the account id as text, the role, and the expiry in epoch seconds. */
  datatype Claims = Claims(id: string, role: string, exp: nat)

  /** A chrono `Duration`, as a whole number of seconds. */
  type Duration = int

  /** `ACCESS_TOKEN_EXPIRY`: `Duration::seconds(30)` */
  const AccessTokenExpiry: Duration := 30
  /** `REFRESH_TOKEN_EXPIRY`: `Duration::minutes(1)` */
  const RefreshTokenExpiry: Duration := 60

  function GetAccessExp(): Duration {
    AccessTokenExpiry
  }

  function GetRefreshExp(): Duration {
    RefreshTokenExpiry
  }

  /** `Duration::num_minutes`: whole minutes, truncated toward zero. */
  function NumMinutes(d: Duration): (m: int)
    ensures d >= 0 ==> 0 <= 60 * m <= d < 60 * (m + 1)
    ensures d < 0 ==> 60 * (m - 1) < d <= 60 * m <= 0
  {
    if d >= 0 then d / 60 else -((-d) / 60)
  }

  /** The lifetimes the two getters hand out, and the one-minute refresh
      lifetime as `num_minutes` reports it. */
  lemma Lifetimes()
    ensures GetAccessExp() == 30 && GetRefreshExp() == 60
    ensures GetAccessExp() < GetRefreshExp()
    ensures NumMinutes(GetRefreshExp()) == 1
  {
  }

  /** The characters of a base64url-encoded, dot-separated JWT. */
  predicate TokenChar(c: char) {
    ('A' <= c <= 'Z') || ('a' <= c <= 'z') || ('0' <= c <= '9') || c == '-' || c == '_' || c == '.'
  }

  /** The two secrets (`JWT_ACCESS_SECRET`, `JWT_REFRESH_SECRET`) and the
      signing library. `encode(secret, claims)` and `decode(secret, token)` may fail. */
  datatype TokenCodec = TokenCodec(
    accessSecret: string,
    refreshSecret: string,
    encode: (string, Claims) -> Option<string>,
    decode: (string, string) -> Option<Claims>)
  {
    /** Decoding a token with the secret it was encoded with gives back its claims. */
    ghost predicate RoundTrips() {
      forall secret, claims | encode(secret, claims).Some? ::
        decode(secret, encode(secret, claims).value) == Some(claims)
    }

    /** A token encoded with one secret does not decode with another. */
    ghost predicate SecretsSeparate() {
      forall secret, other, claims | secret != other && encode(secret, claims).Some? ::
        decode(other, encode(secret, claims).value) == None
    }

    /** Signing never fails: HMAC over JSON claims, the case of the default header. */
    ghost predicate Encodes() {
      forall secret, claims :: encode(secret, claims).Some?
    }

    /** Every token the library produces is made of base64url characters and dots. */
    ghost predicate UrlSafe() {
      forall secret, claims, i | encode(secret, claims).Some? && 0 <= i < |encode(secret, claims).value| ::
        TokenChar(encode(secret, claims).value[i])
    }
  }

  /** `generate_access_token`: claims with the given id and role that expire
      `ACCESS_TOKEN_EXPIRY` after `now`, signed with the access secret. */
  function GenerateAccessToken(codec: TokenCodec, userId: string, role: string, now: nat): (r: Option<string>)
    ensures codec.Encodes() ==> r.Some?
    ensures codec.RoundTrips() && r.Some? ==>
      codec.decode(codec.accessSecret, r.value) == Some(Claims(userId, role, now + GetAccessExp()))
    ensures codec.UrlSafe() && r.Some? ==> forall i | 0 <= i < |r.value| :: TokenChar(r.value[i])
  {
    codec.encode(codec.accessSecret, Claims(userId, role, now + AccessTokenExpiry))
  }

  /** `generate_refresh_token`: the same, with `REFRESH_TOKEN_EXPIRY` and the refresh secret. */
  function GenerateRefreshToken(codec: TokenCodec, userId: string, role: string, now: nat): (r: Option<string>)
    ensures codec.Encodes() ==> r.Some?
    ensures codec.RoundTrips() && r.Some? ==>
      codec.decode(codec.refreshSecret, r.value) == Some(Claims(userId, role, now + GetRefreshExp()))
    ensures codec.UrlSafe() && r.Some? ==> forall i | 0 <= i < |r.value| :: TokenChar(r.value[i])
  {
    codec.encode(codec.refreshSecret, Claims(userId, role, now + RefreshTokenExpiry))
  }

  /** `Jwt::verify_refresh_token`: decode with the refresh secret. A token
      minted by `generate_refresh_token` gives back the claims it was minted
      with; with distinct secrets, one minted by `generate_access_token` is refused. */
  function VerifyRefreshToken(codec: TokenCodec, token: string): (r: Option<Claims>)
    ensures codec.RoundTrips() ==>
      forall userId, role, now: nat | GenerateRefreshToken(codec, userId, role, now) == Some(token) ::
        r == Some(Claims(userId, role, now + RefreshTokenExpiry))
    ensures codec.SecretsSeparate() && codec.accessSecret != codec.refreshSecret ==>
      forall userId, role, now: nat | GenerateAccessToken(codec, userId, role, now) == Some(token) :: r == None
  {
    codec.decode(codec.refreshSecret, token)
  }

  /** A minted refresh token verifies to exactly the id, role and expiry it was minted with. */
  lemma RefreshTokenRoundTrip(codec: TokenCodec, userId: string, role: string, now: nat)
    requires codec.RoundTrips()
    requires GenerateRefreshToken(codec, userId, role, now).Some?
    ensures VerifyRefreshToken(codec, GenerateRefreshToken(codec, userId, role, now).value)
      == Some(Claims(userId, role, now + RefreshTokenExpiry))
  {
  }

  /** With distinct secrets, an access token is never accepted where a refresh token is expected. */
  lemma AccessTokenIsNoRefreshToken(codec: TokenCodec, userId: string, role: string, now: nat)
    requires codec.SecretsSeparate() && codec.accessSecret != codec.refreshSecret
    requires GenerateAccessToken(codec, userId, role, now).Some?
    ensures VerifyRefreshToken(codec, GenerateAccessToken(codec, userId, role, now).value) == None
  {
  }
}
