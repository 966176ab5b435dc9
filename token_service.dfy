/** Token verification (src/service/token_service.rs).

    `TokenService` holds only the ledger connection, and both operations only
    read it, so they are functions of the ledger's store, of the fault the
    ledger call meets, and of the clock. */
module TokenService {
  import opened Primitives
  import opened Jwt
  import opened ServiceErrors
  import Ledger

  /** `verify_refresh_token`: the ledger first, then the signature, then a new access token. */
  function VerifyRefreshToken(codec: TokenCodec, store: Ledger.Store, fault: Ledger.Fault, token: string, now: nat):
    (r: Result<string, ServiceError>)
    ensures Ledger.ExistsReply(store, token, now, fault).Err? ==> r == Err(RedisError)
    ensures Ledger.ExistsReply(store, token, now, fault) == Ok(false) ==> r == Err(UnAuthorizedError)
    ensures Ledger.ExistsReply(store, token, now, fault) == Ok(true) && codec.decode(codec.refreshSecret, token).None?
      ==> r == Err(JwtError)
    ensures r.Ok? <==>
      && fault == Ledger.NoFault && Ledger.Live(store, Ledger.Key(token), now)
      && codec.decode(codec.refreshSecret, token).Some?
      && GenerateAccessToken(codec, codec.decode(codec.refreshSecret, token).value.id,
                             codec.decode(codec.refreshSecret, token).value.role, now).Some?
    ensures (Ledger.ExistsReply(store, token, now, fault) == Ok(true) && codec.decode(codec.refreshSecret, token).Some? &&
             GenerateAccessToken(codec, codec.decode(codec.refreshSecret, token).value.id,
                                 codec.decode(codec.refreshSecret, token).value.role, now).None?)
      ==> r == Err(JwtError)
    ensures r.Err? ==> r.error in {RedisError, UnAuthorizedError, JwtError}
    ensures r.Ok? && codec.RoundTrips() ==>
      var claims := codec.decode(codec.refreshSecret, token).value;
      codec.decode(codec.accessSecret, r.value) == Some(Claims(claims.id, claims.role, now + AccessTokenExpiry))
  {
    match Ledger.ExistsReply(store, token, now, fault)
    case Err(_) => Err(RedisError)
    case Ok(isValid) =>
      if !isValid then Err(UnAuthorizedError)
      else
        match codec.decode(codec.refreshSecret, token)
        case None => Err(JwtError)
        case Some(claims) =>
          match GenerateAccessToken(codec, claims.id, claims.role, now)
          case None => Err(JwtError)
          case Some(accessToken) => Ok(accessToken)
  }

  /** `verify_access_token`: the signature, then the expiry; `exp < now` is expired,
      so a token is still accepted in the second its `exp` names. */
  function VerifyAccessToken(codec: TokenCodec, token: string, now: nat): (r: Result<Claims, ServiceError>)
    ensures codec.decode(codec.accessSecret, token).None? ==> r == Err(JwtError)
    ensures r.Ok? <==>
      codec.decode(codec.accessSecret, token).Some? && now <= codec.decode(codec.accessSecret, token).value.exp
    ensures r.Ok? ==> codec.decode(codec.accessSecret, token) == Some(r.value)
    ensures codec.decode(codec.accessSecret, token).Some? ==>
      && (r.Ok? <==> codec.decode(codec.accessSecret, token).value.exp >= now)
      && (r.Err? ==> r == Err(UnAuthorizedError))
    ensures r.Err? ==> r.error == JwtError || r.error == UnAuthorizedError
  {
    match codec.decode(codec.accessSecret, token)
    case None => Err(JwtError)
    case Some(claims) =>
      if claims.exp < now then Err(UnAuthorizedError) else Ok(claims)
  }

  /** When the ledger does not vouch for the token, the outcome does not depend
      on the codec at all: the token is never decoded. */
  lemma {:induction false} RefreshDecodesOnlyLiveTokens(c1: TokenCodec, c2: TokenCodec, store: Ledger.Store,
                                                        fault: Ledger.Fault, token: string, now: nat)
    requires Ledger.ExistsReply(store, token, now, fault) != Ok(true)
    ensures VerifyRefreshToken(c1, store, fault, token, now) == VerifyRefreshToken(c2, store, fault, token, now)
    ensures VerifyRefreshToken(c1, store, fault, token, now).Err?
  {
  }

  /** A token whose ledger entry was deleted is refused, whatever its signature and expiry. */
  lemma RevokedRefreshTokenIsRefused(codec: TokenCodec, store: Ledger.Store, token: string, now: nat)
    ensures VerifyRefreshToken(codec, Ledger.DeleteStep(store, token, Ledger.NoFault).1, Ledger.NoFault, token, now)
      == Err(UnAuthorizedError)
  {
  }

  /** A refresh token minted for an account and stored with a TTL yields, while
      the entry lives, a new access token for the same id and role. */
  lemma StoredRefreshTokenRefreshes(codec: TokenCodec, store: Ledger.Store, userId: string, role: string,
                                    issued: nat, ttl: int, now: nat)
    requires codec.RoundTrips()
    requires GenerateRefreshToken(codec, userId, role, issued).Some?
    requires GenerateAccessToken(codec, userId, role, now).Some?
    requires Ledger.SetexAccepts(ttl) && issued <= now < issued + ttl
    ensures var token := GenerateRefreshToken(codec, userId, role, issued).value;
      var refreshed := VerifyRefreshToken(codec, Ledger.StoreStep(store, userId, token, ttl, issued, Ledger.NoFault).1,
                                          Ledger.NoFault, token, now);
      && refreshed == Ok(GenerateAccessToken(codec, userId, role, now).value)
      && codec.decode(codec.accessSecret, refreshed.value) == Some(Claims(userId, role, now + AccessTokenExpiry))
  {
  }

  /** Once the ledger entry has expired, refresh is refused even if the token's own `exp` lies ahead. */
  lemma ExpiredLedgerEntryIsRefused(codec: TokenCodec, store: Ledger.Store, userId: string, token: string,
                                    issued: nat, ttl: int, now: nat)
    requires Ledger.SetexAccepts(ttl) && issued + ttl <= now
    ensures VerifyRefreshToken(codec, Ledger.StoreStep(store, userId, token, ttl, issued, Ledger.NoFault).1,
                               Ledger.NoFault, token, now) == Err(UnAuthorizedError)
  {
  }

  /** A minted access token verifies to its own claims up to and including the
      second of its expiry, and is refused as unauthorized after it. */
  lemma AccessTokenLifetime(codec: TokenCodec, userId: string, role: string, issued: nat, now: nat)
    requires codec.RoundTrips()
    requires GenerateAccessToken(codec, userId, role, issued).Some?
    ensures VerifyAccessToken(codec, GenerateAccessToken(codec, userId, role, issued).value, now)
      == if now <= issued + AccessTokenExpiry then Ok(Claims(userId, role, issued + AccessTokenExpiry))
         else Err(UnAuthorizedError)
  {
  }
}
