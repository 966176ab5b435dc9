/** Registration and login (src/service/auth_service.rs).

    `AuthService` holds the account table and the refresh-token ledger. The
    database, the hasher, the token codec and the ledger may each fail: the
    faults, the hasher, the codec, the salt and the clock are parameters of
    each call. `AuthRepository::get_auth_info_by_username` is read as the
    username lookup of the account table; its implementation is not part of
    this model. */
module AuthService {
  import opened Primitives
  import opened Http
  import opened Sqlx
  import opened Text
  import opened Jwt
  import opened Password
  import opened AccountRepo
  import Ledger
  import TokenService
  import ServiceErrors

  /** src/model/account.rs `LoginInfo`: the body of a register or login request. */
  datatype LoginInfo = LoginInfo(username: string, password: string)

  /** src/model/token.rs */
  datatype Token = Token(accessToken: string, refreshToken: string)

  /** The TTL login stores the refresh token with: `get_refresh_exp().num_minutes()`. */
  function LoginLedgerTtl(): int {
    NumMinutes(GetRefreshExp())
  }

  class AuthService {
    const pgRepo: AccountTable
    const redisRepo: Ledger.TokenRedisRepo

    constructor (pgRepo: AccountTable, redisRepo: Ledger.TokenRedisRepo)
      ensures this.pgRepo == pgRepo && this.redisRepo == redisRepo
    {
      this.pgRepo := pgRepo;
      this.redisRepo := redisRepo;
    }

    /** `add_account`: a username the lookup finds is a conflict; a lookup that
        fails for any other reason counts as "not there". A failed hash or a
        failed insert is a server error. */
    method AddAccount(loginInfo: LoginInfo, hasher: PasswordHasher, salt: string,
                      existFault: DbFault, insertFault: DbFault)
      returns (r: Result<U64, HttpError>)
      modifies pgRepo
      ensures r == Err(HttpError(StatusConflict)) <==>
        IsAccountExist(old(pgRepo.rows), loginInfo.username, existFault).Ok?
      ensures (IsAccountExist(old(pgRepo.rows), loginInfo.username, existFault).Err? &&
               hasher.hash(loginInfo.password, salt).None?) ==> r == Err(HttpError(StatusInternalServerError))
      ensures r.Ok? <==>
        && IsAccountExist(old(pgRepo.rows), loginInfo.username, existFault).Err?
        && hasher.hash(loginInfo.password, salt).Some?
        && insertFault == DbUp && FindByUsername(old(pgRepo.rows), loginInfo.username).None?
        && old(pgRepo.nextId) <= I32Max
      ensures r.Ok? ==> r.value == 1
      ensures r.Ok? ==>
        pgRepo.rows == old(pgRepo.rows) + [Account(old(pgRepo.nextId), loginInfo.username,
                                                   Some(hasher.hash(loginInfo.password, salt).value), DefaultRole)]
      ensures r.Err? ==> r.error.status in {StatusConflict, StatusInternalServerError}
      ensures r.Err? ==> pgRepo.rows == old(pgRepo.rows)
      ensures pgRepo.nextId ==
        if && IsAccountExist(old(pgRepo.rows), loginInfo.username, existFault).Err?
           && hasher.hash(loginInfo.password, salt).Some?
           && insertFault == DbUp && old(pgRepo.nextId) <= I32Max
        then old(pgRepo.nextId) + 1 else old(pgRepo.nextId)
    {
      if IsAccountExist(pgRepo.rows, loginInfo.username, existFault).Ok? {
        return Err(HttpError(StatusConflict));
      }
      var passwordHash := hasher.hash(loginInfo.password, salt);
      if passwordHash.None? {
        return Err(HttpError(StatusInternalServerError));
      }
      var inserted := InsertAccount(pgRepo, loginInfo.username, passwordHash.value, insertFault);
      match inserted
      case Err(_) => return Err(HttpError(StatusInternalServerError));
      case Ok(rowsAffected) => return Ok(rowsAffected);
    }

    /** `verify_account`: the account by username (missing is 404, any other
        failure 500), its password checked (a mismatch is 500), then access and
        refresh tokens for its id and role, the refresh token recorded in the
        ledger. A row without a password, a codec that fails and a ledger that
        fails each hit an `unwrap` and panic. The ledger changes only on success. */
    method VerifyAccount(loginInfo: LoginInfo, hasher: PasswordHasher, codec: TokenCodec, now: nat,
                         lookupFault: DbFault, storeFault: Ledger.Fault)
      returns (r: Outcome<Token>)
      modifies redisRepo
      ensures var lookup := GetAccountByUsername(pgRepo.rows, loginInfo.username, lookupFault);
        && (lookup == Err(RowNotFound) ==> r == Returned(Err(HttpError(StatusNotFound))))
        && (lookup.Err? && lookup.error != RowNotFound ==> r == Returned(Err(HttpError(StatusInternalServerError))))
        && (lookup.Ok? && lookup.value.password.None? ==> r == Panicked)
        && (lookup.Ok? && lookup.value.password.Some? && !hasher.verify(loginInfo.password, lookup.value.password.value)
            ==> r == Returned(Err(HttpError(StatusInternalServerError))))
      ensures r.Returned? && r.result.Err? ==> r.result.error.status in {StatusNotFound, StatusInternalServerError}
      ensures r.Returned? && r.result.Ok? ==>
        var acc := GetAccountByUsername(pgRepo.rows, loginInfo.username, lookupFault).value;
        var id := IntToDecimal(acc.id);
        && acc.password.Some? && hasher.verify(loginInfo.password, acc.password.value)
        && GenerateAccessToken(codec, id, acc.role, now) == Some(r.result.value.accessToken)
        && GenerateRefreshToken(codec, id, acc.role, now) == Some(r.result.value.refreshToken)
        && (Ok(()), redisRepo.store)
           == Ledger.StoreStep(old(redisRepo.store), id, r.result.value.refreshToken, LoginLedgerTtl(), now, storeFault)
      ensures !(r.Returned? && r.result.Ok?) ==> redisRepo.store == old(redisRepo.store)
      ensures var lookup := GetAccountByUsername(pgRepo.rows, loginInfo.username, lookupFault);
        (lookup.Ok? && lookup.value.password.Some? && hasher.verify(loginInfo.password, lookup.value.password.value)
         && (|| GenerateAccessToken(codec, IntToDecimal(lookup.value.id), lookup.value.role, now).None?
             || GenerateRefreshToken(codec, IntToDecimal(lookup.value.id), lookup.value.role, now).None?
             || storeFault != Ledger.NoFault)) ==> r == Panicked
      ensures var lookup := GetAccountByUsername(pgRepo.rows, loginInfo.username, lookupFault);
        (lookup.Ok? && lookup.value.password.Some? && hasher.verify(loginInfo.password, lookup.value.password.value)
         && GenerateAccessToken(codec, IntToDecimal(lookup.value.id), lookup.value.role, now).Some?
         && GenerateRefreshToken(codec, IntToDecimal(lookup.value.id), lookup.value.role, now).Some?
         && storeFault == Ledger.NoFault) ==> r.Returned? && r.result.Ok?
    {
      var authInfo: Account;
      match GetAccountByUsername(pgRepo.rows, loginInfo.username, lookupFault) {
        case Ok(a) => authInfo := a;
        case Err(RowNotFound) => return Returned(Err(HttpError(StatusNotFound)));
        case Err(_) => return Returned(Err(HttpError(StatusInternalServerError)));
      }

      if authInfo.password.None? {
        return Panicked;
      }
      if hasher.verify(loginInfo.password, authInfo.password.value) {
        var idStr := IntToDecimal(authInfo.id);
        var accessToken := GenerateAccessToken(codec, idStr, authInfo.role, now);
        if accessToken.None? {
          return Panicked;
        }
        var refreshToken := GenerateRefreshToken(codec, idStr, authInfo.role, now);
        if refreshToken.None? {
          return Panicked;
        }
        var stored := redisRepo.StoreRefreshToken(idStr, refreshToken.value, LoginLedgerTtl(), now, storeFault);
        if stored.Err? {
          return Panicked;
        }
        return Returned(Ok(Token(accessToken.value, refreshToken.value)));
      }
      return Returned(Err(HttpError(StatusInternalServerError)));
    }
  }

  /** The ledger entry login writes lives one second: the refresh token is
      accepted in the second it was issued and refused from the next one on,
      although the token's own `exp` lies sixty seconds ahead. */
  lemma LoginRefreshWindow(codec: TokenCodec, store: Ledger.Store, userId: string, role: string,
                           token: string, issued: nat, later: nat)
    requires codec.RoundTrips()
    requires GenerateRefreshToken(codec, userId, role, issued) == Some(token)
    ensures LoginLedgerTtl() == 1
    ensures issued < later ==>
      TokenService.VerifyRefreshToken(codec, Ledger.StoreStep(store, userId, token, LoginLedgerTtl(), issued,
                                      Ledger.NoFault).1, Ledger.NoFault, token, later)
      == Err(ServiceErrors.UnAuthorizedError)
    ensures codec.decode(codec.refreshSecret, token).value.exp == issued + RefreshTokenExpiry
  {
    Lifetimes();
  }

  /** Login after registration: under a sound hasher, a codec whose signing
      never fails and a working ledger, logging in with the registered
      password returns the two tokens, and the refresh token is live in the
      ledger. */
  method RegisterThenLogin(service: AuthService, loginInfo: LoginInfo, hasher: PasswordHasher, salt: string,
                           codec: TokenCodec, now: nat)
    returns (registered: Result<U64, HttpError>, loggedIn: Outcome<Token>)
    requires hasher.Sound() && hasher.hash(loginInfo.password, salt).Some?
    requires FindByUsername(service.pgRepo.rows, loginInfo.username).None?
    requires service.pgRepo.nextId <= I32Max
    requires codec.Encodes()
    modifies service.pgRepo, service.redisRepo
    ensures registered == Ok(1)
    ensures loggedIn.Returned? && loggedIn.result.Ok?
    ensures Ledger.Live(service.redisRepo.store, Ledger.Key(loggedIn.result.value.refreshToken), now)
  {
    registered := service.AddAccount(loginInfo, hasher, salt, DbUp, DbUp);
    var added := service.pgRepo.rows[|service.pgRepo.rows| - 1];
    FindByUsernameAppended(old(service.pgRepo.rows), added, loginInfo.username);
    loggedIn := service.VerifyAccount(loginInfo, hasher, codec, now, DbUp, Ledger.NoFault);
    Lifetimes();
  }
}
