/** Role-based access control (src/middleware/rbac_middleware.rs).

    `has_permission` builds a `HashMap` from path prefix to allowed roles and
    returns at the first entry whose prefix the path starts with. A `HashMap`
    iterates in no specified order, so the method below picks the next entry
    with `:|`, which lets the verifier consider every order. */
module RbacMiddleware {
  import opened Primitives
  import opened Text
  import opened Jwt

  const AdminPrefix: string := "/api/admin"
  const UserPrefix: string := "/api/user"

  /** The permission table: prefix to roles allowed under it. */
  const Permissions: map<string, seq<string>> := map[AdminPrefix := ["admin"], UserPrefix := ["user", "admin"]]

  /** The table read as an allow-list: some entry matches the path and lists the role. */
  predicate Permitted(role: string, path: string) {
    || (StartsWith(path, AdminPrefix) && role in Permissions[AdminPrefix])
    || (StartsWith(path, UserPrefix) && role in Permissions[UserPrefix])
  }

  /** No path starts with both prefixes, so at most one entry can ever match. */
  lemma PrefixesAreExclusive(path: string)
    ensures !(StartsWith(path, AdminPrefix) && StartsWith(path, UserPrefix))
  {
    if StartsWith(path, AdminPrefix) {
      assert path[5] == path[..|AdminPrefix|][5] == 'a';
      assert path[..|UserPrefix|] != UserPrefix by {
        assert path[..|UserPrefix|][5] == 'a' != UserPrefix[5];
      }
    }
  }

  /** `has_permission`: the same answer for every iteration order of the table. */
  method HasPermission(userInfo: Claims, path: string) returns (r: bool)
    ensures r == Permitted(userInfo.role, path)
  {
    var permissions: map<string, seq<string>> := map[];
    permissions := permissions[AdminPrefix := ["admin"]];
    permissions := permissions[UserPrefix := ["user", "admin"]];
    assert permissions == Permissions;
    PrefixesAreExclusive(path);

    var unvisited := permissions.Keys;
    while unvisited != {}
      invariant unvisited <= permissions.Keys
      invariant forall prefix | prefix in permissions.Keys - unvisited :: !StartsWith(path, prefix)
      decreases unvisited
    {
      var prefix :| prefix in unvisited;
      if StartsWith(path, prefix) {
        return userInfo.role in permissions[prefix];
      }
      unvisited := unvisited - {prefix};
    }
    return false;
  }

  /** Paths under `/api/admin` are for admins only. */
  lemma AdminPathsNeedAdmin(role: string, path: string)
    requires StartsWith(path, AdminPrefix)
    ensures Permitted(role, path) <==> role == "admin"
  {
    PrefixesAreExclusive(path);
  }

  /** Paths under `/api/user` are for users and admins. */
  lemma UserPathsNeedUserOrAdmin(role: string, path: string)
    requires StartsWith(path, UserPrefix)
    ensures Permitted(role, path) <==> role == "user" || role == "admin"
  {
    PrefixesAreExclusive(path);
  }

  /** A path under neither prefix is denied to every role. */
  lemma UnlistedPathsAreDenied(role: string, path: string)
    requires !StartsWith(path, AdminPrefix) && !StartsWith(path, UserPrefix)
    ensures !Permitted(role, path)
  {
  }

  /** Matching is by plain string prefix: `/api/administrator` falls under the admin rule. */
  lemma PrefixMatchIsTextual(role: string)
    ensures Permitted(role, "/api/administrator") <==> role == "admin"
  {
    assert StartsWith("/api/administrator", AdminPrefix);
    AdminPathsNeedAdmin(role, "/api/administrator");
  }

  /** The request extensions, by type: a `Claims` value and a `String` value may each be present. */
  datatype Extensions = Extensions(claims: Option<Claims>, text: Option<string>)

  datatype RbacDecision = Forward | Reject(status: int)

  /** `RbacMiddlewareServie::call`: no `Claims` is a server error, a denied role is forbidden. */
  function Call(extensions: Extensions, path: string): (d: RbacDecision)
    ensures extensions.claims.None? <==> d == Reject(500)
    ensures d == Reject(403) <==> extensions.claims.Some? && !Permitted(extensions.claims.value.role, path)
    ensures d == Forward <==> extensions.claims.Some? && Permitted(extensions.claims.value.role, path)
  {
    match extensions.claims
    case None => Reject(500)
    case Some(userInfo) => if !Permitted(userInfo.role, path) then Reject(403) else Forward
  }
}
