/** Authentication wrapped around authorization: the request goes through
    `AuthMiddleware` first and, if forwarded, through `RbacMiddleware`, whose
    inner service is the handler.

    Authentication stores the account id into the request extensions as a
    `String` (src/middleware/auth_middleware.rs:84), while authorization looks
    the extensions up by the type `Claims` (src/middleware/rbac_middleware.rs:71).
    An extension map is keyed by type, so the `Claims` slot is always empty
    when authorization runs. */
module Pipeline {
  import opened Primitives
  import opened Jwt
  import Ledger
  import Text
  import AuthMiddleware
  import RbacMiddleware

  datatype Response =
    /** The handler ran, with these extensions; the Set-Cookie authentication appends. */
    | Handled(extensions: RbacMiddleware.Extensions, setCookie: Option<string>)
    /** A middleware answered with this status; authentication may still append its Set-Cookie. */
    | Respond(status: int, setCookie: Option<string>)
    | Panicked

  /** The extensions the inner service sees after authentication forwarded with this identity. */
  function ExtensionsAfterAuthentication(identity: Option<string>): (e: RbacMiddleware.Extensions)
    ensures e.claims.None?
    ensures e.text == identity
    ensures forall path :: RbacMiddleware.Call(e, path) == RbacMiddleware.Reject(500)
  {
    RbacMiddleware.Extensions(None, identity)
  }

  function Run(codec: TokenCodec, store: Ledger.Store, fault: Ledger.Fault,
               headers: seq<AuthMiddleware.Header>, path: string, now: nat): (res: Response)
    ensures res.Respond? ==> res.status == 401 || res.status == 500
    ensures res.Respond? && res.status == 401 <==>
      AuthMiddleware.Call(codec, store, fault, headers, now).Reject?
  {
    match AuthMiddleware.Call(codec, store, fault, headers, now)
    case Reject(status) => Respond(status, None)
    case Panicked => Panicked
    case Forward(identity, setCookie) =>
      var extensions := ExtensionsAfterAuthentication(identity);
      match RbacMiddleware.Call(extensions, path)
      case Reject(status) => Respond(status, setCookie)
      case Forward => Handled(extensions, setCookie)
  }

  /** No request reaches the handler: whatever authentication forwards,
      authorization answers 500, and 403 is never sent. */
  lemma NoRequestIsHandled(codec: TokenCodec, store: Ledger.Store, fault: Ledger.Fault,
                           headers: seq<AuthMiddleware.Header>, path: string, now: nat)
    ensures !Run(codec, store, fault, headers, path, now).Handled?
    ensures Run(codec, store, fault, headers, path, now) != Respond(403, None)
    ensures AuthMiddleware.Call(codec, store, fault, headers, now).Forward? ==>
      Run(codec, store, fault, headers, path, now)
      == Respond(500, AuthMiddleware.Call(codec, store, fault, headers, now).setCookie)
  {
  }

  /** Even an admin with a fresh access token is refused an admin path with 500. */
  lemma ValidAdminTokenIsRefused(codec: TokenCodec, store: Ledger.Store, fault: Ledger.Fault,
                                 headers: seq<AuthMiddleware.Header>, now: nat, userId: string)
    requires codec.RoundTrips()
    requires GenerateAccessToken(codec, userId, "admin", now).Some?
    requires AuthMiddleware.HeaderText(headers, AuthMiddleware.AuthorizationHeader) ==
      Some(AuthMiddleware.BearerPrefix + GenerateAccessToken(codec, userId, "admin", now).value)
    requires !Text.StartsWith(GenerateAccessToken(codec, userId, "admin", now).value, AuthMiddleware.BearerPrefix)
    ensures AuthMiddleware.Call(codec, store, fault, headers, now) == AuthMiddleware.Forward(Some(userId), None)
    ensures Run(codec, store, fault, headers, RbacMiddleware.AdminPrefix, now) == Respond(500, None)
  {
    var token := GenerateAccessToken(codec, userId, "admin", now).value;
    AuthMiddleware.BearerPrefixesAreStripped(token);
    assert AuthMiddleware.AccessTokenOf(AuthMiddleware.BearerPrefix + token) == token;
  }
}
