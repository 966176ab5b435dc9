# Auth-Service: token lifecycle and request authorization, in Dafny

This project models the core of Auth-Service, an actix-web authentication
service written in Rust. It covers:

- registration and login over an account table;
- minting of short-lived JWT access tokens and longer-lived refresh tokens;
- a Redis ledger of the refresh tokens that are still honoured;
- the authentication middleware, which accepts an access token or falls back
  to a refresh token and sends a new access token back as a cookie;
- the role-based access control (RBAC) middleware, which maps path prefixes
  to allowed roles;
- account lookup by id;
- the three error-to-status mappings.

The foreign libraries are capabilities passed in as values:

- JWT signing is `Jwt.TokenCodec`, an encode/decode pair keyed by a secret.
  Its laws (`RoundTrips`, `SecretsSeparate`, `UrlSafe`, `Encodes`) are
  predicates that lemmas take as hypotheses.
- argon2 is `Password.PasswordHasher`.
- What the database or Redis does on one call is a parameter:
  `Sqlx.DbFault` or `Ledger.Fault`.
- The wall clock is `now: nat`, in seconds since the epoch.

State that the source changes in place is held by classes:

- the ledger is `Ledger.TokenRedisRepo`, a map from key to entry with an
  expiry time;
- the account table is `AccountRepo.AccountTable`, its rows plus the next
  serial id.

The meaning of each ledger command is a pure function (`StoreStep`,
`ExistsReply`, `DeleteStep`), and the methods are proved equal to it.
`RbacMiddleware.HasPermission` keeps the loop of `has_permission`. A `HashMap`
iterates in no fixed order, so each step picks the next entry with `:|`, and
the result is proved the same for every order.

One module per source file:

- `Primitives`, `Text`, `Http`, `Sqlx` and `Password` hold the shared
  vocabulary: Rust's `Option`/`Result`, fixed-width integers, `trim_start_matches`,
  the decimal `to_string` and `parse::<i32>`, status codes, and `sqlx::Error`.
- `Pipeline` composes the two middlewares, authentication outside
  authorization. `src/main.rs` wraps neither middleware around any route,
  so this is the composition the two middlewares are written for, not the
  application's configuration.

Several behaviours of the code are worth noting; the model follows the code:

- **Expiry boundary.** An access token is refused only when `exp < now`, so
  it is still accepted in the second its `exp` names
  (`TokenService.AccessTokenLifetime`).
- **Refresh decode failure.** A refresh token that is in the ledger but does
  not decode gives `JwtError`. That maps to 500, not 401.
- **Wrong password.** A wrong password at login is answered 500, not 401.
- **Fallback token source.** The fallback refresh token comes from the
  `Refresh-token` request header, not from a cookie.
- **Refresh ledger TTL.** Login stores the refresh token in the ledger with
  TTL `get_refresh_exp().num_minutes()`, which is 1. SETEX reads that as one
  second, so a refresh token is honoured only in the second it was issued
  (`AuthService.LoginRefreshWindow`), although its claims say sixty seconds.
- **Extension type mismatch.** Authentication stores the account id in the
  request extensions as a `String`, while RBAC looks up `Claims`. Behind both
  middlewares, every authenticated request is therefore answered 500
  (`Pipeline.NoRequestIsHandled`). This holds for the composition `Pipeline`
  models; the application as configured in `src/main.rs` uses neither
  middleware.
- **No logout.** `AuthService` has no logout operation, and nothing ever
  deletes a ledger entry except `delete_refresh_token` itself.
- **Duplicate-check errors.** `AuthService::add_account` treats any failure
  of the existence check as "no such account". `db::add_account` propagates
  the same failure as an error.

## Model

| member | source | states |
|---|---|---|
| Text.TrimStartMatches | src/middleware/auth_middleware.rs:78 | the result is a suffix of the input. It no longer starts with the (non-empty) pattern, and input without the pattern comes back unchanged |
| Text.TrimStartMatchesSplits | src/middleware/auth_middleware.rs:78 | the input is a run of copies of the pattern followed by the trimmed result |
| Text.TrimStartMatchesAbsorbs | src/middleware/auth_middleware.rs:78 | one more leading copy of the pattern does not change the trimmed result |
| Text.ParseI32 | src/service/account_service.rs:41-43 | the empty text is refused, and what is accepted is an optional sign followed by at least one digit. Digits alone or after `+` parse to their value iff it is at most 2^31 - 1. Digits after `-` parse to minus their value iff it is at least -2^31. A negative result comes from a leading `-` |
| Text.IntToDecimal | src/service/auth_service.rs:75-83 | `i32::to_string()`: a non-negative id is its digits, without leading zeros, denoting the id. A negative id is `-` followed by such digits denoting its magnitude |
| Text.ParseI32OfDecimal | src/service/account_service.rs:41-43 | parsing the decimal text of any `i32`, negative ones included, gives that `i32` back |
| Jwt.NumMinutes | src/service/auth_service.rs:85 | whole minutes, truncated toward zero, for positive and negative durations |
| Jwt.Lifetimes | src/utils/jwt.rs:15-29 | the getters give 30 s and 60 s, access is shorter than refresh, and the refresh lifetime is 1 in whole minutes |
| Jwt.GenerateAccessToken | src/utils/jwt.rs:31-47 | under a codec whose signing never fails, a token is minted. Under a round-tripping codec, the token decodes with the access secret to exactly (id, role, now + 30). Under a URL-safe codec it is made of base64url characters and dots |
| Jwt.GenerateRefreshToken | src/utils/jwt.rs:49-65 | the same, with the refresh secret and now + 60 |
| Jwt.VerifyRefreshToken | src/utils/jwt.rs:67-76 | under a round-tripping codec, a token minted as a refresh token verifies to the id, role and expiry it was minted with. With separate secrets, a token minted as an access token is refused |
| Jwt.RefreshTokenRoundTrip | src/utils/jwt.rs:67-76 | `verify_refresh_token` of a minted refresh token recovers its id, role and expiry |
| Jwt.AccessTokenIsNoRefreshToken | src/utils/jwt.rs:31-76 | with separate secrets, an access token never verifies as a refresh token |
| ServiceErrors.ErrorResponseStatus | src/error/service_error.rs:25-33 | every status is 401, 404 or 500. 401 iff `UnAuthorizedError`, 404 iff `NotFound` |
| ServiceErrors.InternalFailuresAre500 | src/error/service_error.rs:29-31 | Jwt, Redis, database and id-format errors are all 500 |
| DbErrors.StatusCode | src/error/db_error.rs:12-19 | every status is 404, 409 or 500. 409 iff `Existed`, 404 iff `NotFound` |
| Errors.StatusCode | src/error.rs:13-19 | every status is 409 or 500, and 409 iff `Exists` |
| Ledger.StoreStep | src/repository/token_redis_repo.rs:42-63 | a pool failure is `PoolError` and a command failure is `RedisError`, including SETEX refusing a TTL that is not positive. Success iff no fault and a positive TTL. On success the key `refresh_token:<token>` holds `{"user_id": <id>, "exp": <ttl>}` until now + ttl and every other key is unchanged. On failure nothing changes |
| Ledger.ExistsReply | src/repository/token_redis_repo.rs:76-93 | `Ok` iff no fault, and `Ok(true)` iff the prefixed key is present and unexpired. The two faults give their two errors |
| Ledger.DeleteStep | src/repository/token_redis_repo.rs:105-119 | success iff no fault, even when the key is absent. The key is removed and every other entry is unchanged. The two faults give their two errors and change nothing |
| Ledger.KeyInjective | src/repository/token_redis_repo.rs:51 | two tokens have the same key iff they are equal |
| Ledger.StoredTokenIsValidUntilTtl | src/repository/token_redis_repo.rs:56-92 | after a successful store, EXISTS answers true exactly until the TTL elapses |
| Ledger.StoreOverwrites | src/repository/token_redis_repo.rs:56-60 | storing the same token twice is the same as storing it once with the second user id and TTL |
| Ledger.DeletedTokenIsInvalid | src/repository/token_redis_repo.rs:112-118 | delete succeeds whatever the store held, and afterwards EXISTS answers false |
| Ledger.OtherTokensUnaffected | src/repository/token_redis_repo.rs:42-119 | storing or deleting one token does not change what EXISTS says about any other token |
| Ledger.TokenRedisRepo.constructor | src/repository/token_redis_repo.rs:22-24 | a new repository sees exactly what the server already holds, and changes nothing |
| Ledger.TokenRedisRepo.StoreRefreshToken | src/repository/token_redis_repo.rs:42-63 | result and new store are those of `StoreStep` on the old store |
| Ledger.TokenRedisRepo.IsRefreshTokenValid | src/repository/token_redis_repo.rs:76-93 | the answer is `ExistsReply` of the store, which it does not change |
| Ledger.TokenRedisRepo.DeleteRefreshToken | src/repository/token_redis_repo.rs:105-119 | result and new store are those of `DeleteStep` on the old store |
| RedisRepo.StoreRefreshToken | src/repository/redis_repo.rs:6-24 | the free function with a `u64` TTL: result and new store are those of `StoreStep` |
| RedisRepo.IsRefreshTokenValid | src/repository/redis_repo.rs:26-40 | the answer is `ExistsReply` of the store |
| RedisRepo.DeleteRefreshToken | src/repository/redis_repo.rs:42-53 | result and new store are those of `DeleteStep` |
| RedisRepo.StoreThenCheck | src/repository/redis_repo.rs:6-53 | with a positive TTL, store then exists answers true, and delete then exists answers false |
| TokenService.VerifyRefreshToken | src/service/token_service.rs:51-85 | a ledger fault is `RedisError` and an absent token is `UnAuthorizedError`. A present token that does not decode is `JwtError`. A live token that decodes but whose new access token is not minted is `JwtError`. The only errors are `RedisError`, `UnAuthorizedError` and `JwtError`. Success iff the token is live, decodes with the refresh secret and a new access token is minted. That token carries the decoded id and role and expires now + 30 |
| TokenService.VerifyAccessToken | src/service/token_service.rs:99-125 | a token that does not decode is `JwtError`. A token that decodes succeeds iff `exp >= now`, and otherwise is `UnAuthorizedError`. On success the decoded claims are returned unchanged. The only errors are `JwtError` and `UnAuthorizedError` |
| TokenService.RefreshDecodesOnlyLiveTokens | src/service/token_service.rs:56-70 | when the ledger does not vouch for the token the call fails, and its outcome does not depend on the codec (nothing is decoded) |
| TokenService.RevokedRefreshTokenIsRefused | src/service/token_service.rs:56-70 | after the token's entry is deleted, refresh is `UnAuthorizedError` |
| TokenService.StoredRefreshTokenRefreshes | src/service/token_service.rs:51-85 | a minted refresh token stored with a TTL refreshes, while the entry lives, into an access token for the same id and role |
| TokenService.ExpiredLedgerEntryIsRefused | src/service/token_service.rs:56-70 | once the ledger entry has expired, refresh is `UnAuthorizedError` |
| TokenService.AccessTokenLifetime | src/service/token_service.rs:113-121 | a minted access token verifies to its own claims up to and including second issued + 30, and is `UnAuthorizedError` after |
| AuthMiddleware.GetHeader | src/middleware/auth_middleware.rs:74-76 | the first value under the name, and `None` iff no header has that name |
| AuthMiddleware.HeaderText | src/middleware/auth_middleware.rs:74-77 | the first value under the name, as text of the same bytes, iff it is all visible ASCII; nothing when no header has the name. The `Refresh-token` header (lines 91-94) is read the same way |
| AuthMiddleware.AccessTokenCookie | src/middleware/auth_middleware.rs:101-106 | the text is `access_token=`, then the token, then `; HttpOnly; Secure; Path=/`, and the token is read back from its middle |
| AuthMiddleware.AccessTokenCookieInjective | src/middleware/auth_middleware.rs:101-106 | distinct tokens give distinct cookies |
| AuthMiddleware.ToStr | src/middleware/auth_middleware.rs:77 | text iff every byte is visible ASCII or tab, and it is the same bytes |
| AuthMiddleware.Call | src/middleware/auth_middleware.rs:69-129 | every rejection is 401, and a missing or non-text `Authorization` is 401 whatever `Refresh-token` holds. A forward sets either an identity or a cookie, never both. The identity is set iff the stripped access token verifies, and it is the claims' id. The cookie is `access_token=<t>; HttpOnly; Secure; Path=/` for the token `t` that refresh returned |
| AuthMiddleware.UrlSafeCookieIsValidHeader | src/middleware/auth_middleware.rs:101-111 | a cookie built from a base64url token always parses as a header value, so the `unwrap` cannot fail for a URL-safe codec |
| AuthMiddleware.RefreshFallbackSetsCookie | src/middleware/auth_middleware.rs:96-113 | a failing access token with a verifying refresh token forwards with exactly that one cookie and no identity |
| AuthMiddleware.FailedFallbackIsRejected | src/middleware/auth_middleware.rs:89-127 | a failing access token with no `Refresh-token`, or with one that fails, is 401 and not forwarded |
| AuthMiddleware.AccessPathIgnoresLedger | src/middleware/auth_middleware.rs:81-87 | when the access token verifies, the decision is the same for every ledger state and fault |
| AuthMiddleware.BearerPrefixesAreStripped | src/middleware/auth_middleware.rs:78 | one more `Bearer ` prefix changes nothing, a value without it is used as it is, and the result never starts with it |
| RbacMiddleware.PrefixesAreExclusive | src/middleware/rbac_middleware.rs:93-101 | no path starts with both `/api/admin` and `/api/user` |
| RbacMiddleware.HasPermission | src/middleware/rbac_middleware.rs:92-104 | for every iteration order of the table, the answer is the allow-list reading `Permitted` |
| RbacMiddleware.AdminPathsNeedAdmin | src/middleware/rbac_middleware.rs:94-99 | under `/api/admin`, permitted iff the role is `admin` |
| RbacMiddleware.UserPathsNeedUserOrAdmin | src/middleware/rbac_middleware.rs:95-99 | under `/api/user`, permitted iff the role is `user` or `admin` |
| RbacMiddleware.UnlistedPathsAreDenied | src/middleware/rbac_middleware.rs:103 | a path under neither prefix is denied to every role |
| RbacMiddleware.PrefixMatchIsTextual | src/middleware/rbac_middleware.rs:98 | `/api/administrator` falls under the admin rule |
| RbacMiddleware.Call | src/middleware/rbac_middleware.rs:64-87 | no `Claims` iff 500. 403 iff claims are present and do not permit the path. Forward iff they do |
| Pipeline.ExtensionsAfterAuthentication | src/middleware/auth_middleware.rs:84 | authentication leaves the `Claims` slot empty and puts the identity in the `String` slot, so authorization answers 500 for these extensions on every path |
| Pipeline.Run | src/middleware/rbac_middleware.rs:71-85 | a status answer is 401 or 500, and 401 iff authentication rejected |
| Pipeline.NoRequestIsHandled | src/middleware/rbac_middleware.rs:71-82 | no request reaches the handler and 403 is never sent. Every request authentication forwards is answered 500, carrying the cookie authentication appended |
| Pipeline.ValidAdminTokenIsRefused | src/middleware/auth_middleware.rs:81-87 | a fresh admin access token authenticates, and the admin path is still answered 500 |
| AccountRepo.FindFirst | src/repository/account_repo.rs:11-14 | the first row, in insertion order, that satisfies the condition, and `None` iff no row does |
| AccountRepo.FindFirstAppended | src/repository/account_repo.rs:11-14 | a row appended after none that satisfies the condition is the one found |
| AccountRepo.FindByUsername | src/repository/account_repo.rs:11-14 | the first row with that username, and `None` iff no row has it |
| AccountRepo.FindById | src/traits/account_trait.rs:6 | the first row with that id, and `None` iff no row has it |
| AccountRepo.GetAccountByUsername | src/repository/account_repo.rs:5-20 | a database failure is passed on. No matching row iff `RowNotFound`. When a row matches, the result is the first such row |
| AccountRepo.IsAccountExist | src/traits/account_trait.rs:7 | `Ok` iff the database answers and some row has the username |
| AccountRepo.GetAccountById | src/traits/account_trait.rs:6 | a database failure is passed on. No matching row iff `RowNotFound`. When a row matches, the result is the first such row |
| AccountRepo.AccountTable.Insert | src/repository/account_repo.rs:27-33 | success iff the database answers, the username is free and the serial id fits `i32`. Then one row with the given values and the next id is appended and 1 is returned. A taken username is the unique violation, and the only other error is a database failure. On failure no row is added. The id is used up whenever the database answers and the sequence is not exhausted, even when the username is taken. Unique usernames are preserved |
| AccountRepo.InsertAccount | src/repository/account_repo.rs:22-36 | inserts the username and password as given with role `user` and returns 1 row affected. A taken username comes back as the unique violation, any other failure as a database failure, and no row is added. The id sequence advances as in `Insert` |
| Db.AddAccount | src/db.rs:24-66 | a failed lookup is `Database`, a taken username is `Exists` and a failed hash is `Hashing`. Success iff none of these happens and the insert succeeds; an insert that fails there is `Database` of the database failure. Then the row holds the digest, not the password, and role `user`, and 1 is returned. On every error the table is unchanged |
| Db.AddedAccountVerifies | src/db.rs:24-66 | after registering a new username, a lookup by it finds a `user` row whose digest verifies against the registered password |
| AuthService.AuthService.constructor | src/service/auth_service.rs:18-23 | the service holds the given table and ledger |
| AuthService.AuthService.AddAccount | src/service/auth_service.rs:25-46 | 409 iff the existence check succeeds, with nothing hashed or inserted. Any failed check continues. A failed hash is 500, and so is a failed insert, a taken username included. Success iff the insert succeeds, and then the digest with role `user` is appended and 1 is returned. Errors are 409 or 500 and add no row; the id sequence advances exactly when the insert is attempted, the database answers and the sequence is not exhausted |
| AuthService.AuthService.VerifyAccount | src/service/auth_service.rs:48-98 | a missing account is 404 and any other lookup failure 500. A row without password panics, and a password that does not verify is 500. On success both tokens are minted from the decimal id and the role, and the refresh token is stored under its own key with TTL `num_minutes(60 s)`. The returned pair is exactly those two tokens. The ledger changes only on success. With a verifying password, a working codec and ledger always give success, and a codec that fails to mint either token or a failing ledger panics |
| AuthService.LoginRefreshWindow | src/service/auth_service.rs:81-88 | the login TTL is 1, so from the second after login on the refresh token is refused, although its claims expire 60 s after issue |
| AuthService.RegisterThenLogin | src/service/auth_service.rs:25-98 | registering a free username and then logging in with the same password returns tokens whose refresh token is live in the ledger |
| AccountService.GetAccountInfo | src/service/account_service.rs:39-62 | text that is no `i32` is 500 before the table is read. Success iff the parsed id has a row, and then the result is the first such row, as `get_account_by_id` returns it. 404 iff the database answers and no row has the id. The only errors are 404 and 500 |
| AccountService.DisplayedIdFindsAccount | src/service/account_service.rs:41-46 | the decimal text of an account's id finds an account with that id |
| AccountService.UnparsableIdIgnoresTable | src/service/account_service.rs:41-43 | for text that is no `i32`, the answer is the same for every table and database state |
| AccountService.MalformedIdsAreServerErrors | src/service/account_service.rs:41-43 | a sign alone and the empty text are each 500 |
| AccountService.OutOfRangeIdIsServerError | src/service/account_service.rs:41-43 | a digit string whose value is past the `i32` range is 500, not 404, for every table and database state |

## Left out

- **JWT internals.** The internals of `jsonwebtoken` are an abstract codec:
  HMAC, base64, JSON, and the library's own `exp` check with its leeway
  inside `Validation::default()`. On the access path the code's own
  `exp < now` test is modelled. On the refresh path no expiry test is
  modelled; the one-second ledger entry expires long before the token.
- **Password hashing.** argon2 is an abstract hasher that may fail. The salt
  it draws from the operating system is a parameter.
- **Database, Redis and transport.** Redis and Postgres transport,
  connection pools and the SQL text are left out.
  - Each query's success or failure is the fault parameter.
  - The SQL files are not part of this model. The account table is assumed
    to have a serial `i32` id and a unique username, and a lookup returns
    the first matching row. As in Postgres, the serial default is drawn
    before the unique check, so a refused duplicate uses up an id.
- TokenService.AccessTokenLifetime: states the code's own `exp < now` test
  only. `Validation::default()` also checks `exp`, with 60 s of leeway, so
  after issued + 90 the real decode fails and the answer is `JwtError`, not
  `UnAuthorizedError`. The codec here does not depend on the clock.
- TokenService.StoredRefreshTokenRefreshes: holds while the ledger entry
  lives. The library's expiry check would also refuse the token after
  issued + 60 + 60 s of leeway; the codec here does not depend on the clock.
- **One clock per call.** Each operation takes a single `now`. The code
  reads the clock separately for the access mint, the refresh mint and the
  expiry check (src/utils/jwt.rs:39 and 57, src/service/token_service.rs:113),
  and Redis expires keys by its own clock. Here all of these reads are one
  value, so a second boundary falling between two reads is not modelled.
- **Redis TTLs.** Expiry is modelled in whole seconds, against the `now`
  of the call. The upper bound Redis puts on a TTL is not modelled.
- `AccountRepo.IsAccountExist`: its implementation is not part of the
  repository, so it is read as "`Ok` iff a row has the username".
- `AccountRepo.GetAccountById`: its implementation is not part of the
  repository, so it is read as the id lookup.
- `AuthService.AuthService.VerifyAccount`: reads
  `get_auth_info_by_username` as the username lookup of the table, because
  its implementation is not part of the repository. A digest that does not
  parse and a password that does not match both count as `verify` being
  false.
- **Names without a definition.** A few names the code uses are not
  defined in the repository. Each is taken to mean the definition that does
  exist:
  - the bounds `AuthRepository` and `RedisRepository`
    (src/service/auth_service.rs:8,12) are the traits `AccountRepository`
    and `TokenRedisRepository`;
  - `jwt::JwtUtils` (src/service/token_service.rs:83) is `Jwt` of
    src/utils/jwt.rs;
  - `utils::password::Hasher` (src/service/auth_service.rs:36,64) is the
    free functions of src/utils/password.rs.
- **actix plumbing.** The `Transform`/`Service` impls, `poll_ready`, async,
  and `Rc`/`Arc` are left out. Only the decision each `call` takes is
  modelled.
- **Headers.** Header names are taken as already lower-cased. A repeated
  header contributes its first value.
- **Routing and handlers.** `src/main.rs`, `src/handlers.rs` and the
  handlers are route wiring and response glue. The `logout` handler calls a
  method `AuthService` does not define.
- **Logging and environment.** Logging and environment lookups are left
  out. A missing secret panics in the code; here the secrets are fields of
  the codec.
- **Concurrency.** The check-then-insert race of registration is not
  modelled, because operations run one at a time here.
- **Timestamp casts.** The `as usize` casts of timestamps are not modelled:
  times are natural numbers of seconds.

