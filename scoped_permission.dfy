/**
  The grant/deny rule of `require_scoped_permission`
  (golf_api/security/permissions.py): a user may act on `scope` when the
  scope itself, or the wildcard of its resource (`<resource>:*`), is among
  the user's effective permissions; otherwise the request is refused with
  HTTP 403.
 */
module ScopedPermission {
  import opened Wrappers
  import opened Permissions
  import opened AuthRoles

  /** The status code of FastAPI's `HTTP_403_FORBIDDEN`. */
  const Forbidden: int := 403

  /** An `HTTPException`: a status code and a detail message. */
  datatype HttpError = HttpError(status: int, detail: string)

  /**
    `s.split(":")[0]`: the text before the first `:`, or all of `s` when it
    has none.
   */
  function Head(s: string): (h: string)
    ensures h <= s
    ensures ':' !in h
    ensures |h| < |s| ==> s[|h|] == ':'
  {
    if s == [] || s[0] == ':' then [] else [s[0]] + Head(s[1..])
  }

  /** The wildcard scope that also grants `scope`: `f'{scope.split(":")[0]}:*'`. */
  function Wildcard(scope: string): string
  {
    Head(scope) + ":*"
  }

  /** The access rule: an exact match or the resource's wildcard. */
  predicate Grants(permissions: set<string>, scope: string)
  {
    scope in permissions || Wildcard(scope) in permissions
  }

  /** The message of the 403 raised for a missing scope. */
  function DenyDetail(scope: string): string
  {
    "User does not have the required scope: " + scope
  }

  /**
    The dependency returned by `require_scoped_permission(scope)`: compute the
    user's effective permissions, return the same user when the scope is
    granted, and fail with 403 naming the scope otherwise.
   */
  method RequireScopedPermission(scope: string, user: User) returns (r: Result<User, HttpError>)
    ensures r.Success? <==> scope in EffectivePermissions(user) || Head(scope) + ":*" in EffectivePermissions(user)
    ensures r.Success? ==> r.value == user
    ensures r.Failure? ==> r.error.status == Forbidden && r.error.detail == DenyDetail(scope)
  {
    var permissions := GetEffectivePermissions(user);
    if Grants(permissions, scope) {
      return Success(user);
    }
    return Failure(HttpError(Forbidden, DenyDetail(scope)));
  }

  /** Text before a first `:` is the head of anything that continues after it. */
  lemma {:induction false} HeadBeforeColon(prefix: string, rest: string)
    requires ':' !in prefix
    ensures Head(prefix + ":" + rest) == prefix
  {
    if prefix != [] {
      assert (prefix + ":" + rest)[1..] == prefix[1..] + ":" + rest;
      HeadBeforeColon(prefix[1..], rest);
    }
  }

  /** A scope without `:` is its own head, so its wildcard is the whole scope followed by `:*`. */
  lemma WildcardWithoutColon(scope: string)
    requires ':' !in scope
    ensures Wildcard(scope) == scope + ":*"
  {
    var h := Head(scope);
    assert forall i :: 0 <= i < |scope| ==> scope[i] != ':';
    assert |h| == |scope|;
  }

  /** Holding `users:*` grants every `users:`-prefixed scope. */
  lemma UsersWildcardGrantsUsersScopes(permissions: set<string>, action: string)
    requires Scope(All) in permissions
    ensures Grants(permissions, "users:" + action)
  {
    HeadBeforeColon("users", action);
    assert "users" + ":" + action == "users:" + action;
    assert Wildcard("users:" + action) == "users" + ":*" == Scope(All);
  }

  /** End to end: an admin without a deny override on `users:*` may do any `users:` action. */
  lemma AdminMayDoAnyUsersAction(user: User, action: string)
    requires RoleName(Admin) in user.roles
    requires Scope(All) in user.permissions ==> user.permissions[Scope(All)]
    ensures Grants(EffectivePermissions(user), "users:" + action)
  {
    AdminHoldsUsersWildcard(user);
    UsersWildcardGrantsUsersScopes(EffectivePermissions(user), action);
  }

  /** Granting is monotone: more permissions never turn a grant into a deny. */
  lemma GrantsMonotone(smaller: set<string>, larger: set<string>, scope: string)
    requires smaller <= larger && Grants(smaller, scope)
    ensures Grants(larger, scope)
  {
  }

  /** The wildcard of one resource grants nothing of another. */
  lemma WildcardStaysInResource(resource: string, other: string, action: string)
    requires ':' !in resource && ':' !in other && resource != other
    ensures !Grants({resource + ":*"}, other + ":" + action)
  {
    HeadBeforeColon(other, action);
    HeadBeforeColon(resource, "*");
    HeadBeforeColon(other, "*");
    assert resource + ":" + "*" == resource + ":*";
    assert other + ":" + "*" == other + ":*";
    assert Wildcard(other + ":" + action) == other + ":*";
  }
}
