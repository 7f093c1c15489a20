/**
  Role expansion and effective permissions (golf_api/security/auth_roles.py).

  A user holds a list of role names and a map of per-permission overrides.
  Roles inherit from one another through a hierarchy; `ExpandRoles` computes
  every role reachable from the valid names, and `GetEffectivePermissions`
  unions the permissions of those roles and then applies the overrides.
 */
module AuthRoles {
  import opened Wrappers
  import opened Permissions

  /** `dict[Roles, set[Roles]]`: the roles each role inherits directly. */
  type Hierarchy = map<Role, set<Role>>

  /**
    The authenticated user. `roles` and `permissions` are the fields the
    authorisation code reads; they are filled from the user's stored record.
   */
  datatype User = User(
    email: Option<string>,
    userid: string,
    name: Option<string>,
    roles: seq<string>,
    permissions: map<string, bool>)

  /** `ROLE_HIERARCHY`: admin inherits writer, writer inherits reader. */
  const RoleHierarchy: Hierarchy := map[Admin := {Writer}, Writer := {Reader}, Reader := {}]

  /** `ROLE_PERMISSIONS`: the scopes each role grants by itself. */
  const RolePermissions: map<Role, set<string>> :=
    map[Reader := {Scope(Read)}, Writer := {Scope(Create), Scope(Edit)}, Admin := {Scope(All)}]

  /** `hierarchy.get(role, [])`. */
  function Inherited(h: Hierarchy, r: Role): set<Role>
  {
    if r in h then h[r] else {}
  }

  /** `ROLE_PERMISSIONS.get(role, set())`. */
  function PermissionsOf(r: Role): set<string>
  {
    if r in RolePermissions then RolePermissions[r] else {}
  }

  /** A set of roles that already contains everything its members inherit. */
  predicate Closed(h: Hierarchy, s: set<Role>)
  {
    forall r :: r in s ==> Inherited(h, r) <= s
  }

  /** The roles whose names occur in `names`; every other string is not a role. */
  function ValidRoles(names: seq<string>): set<Role>
  {
    set r | r in AllRoles && RoleName(r) in names
  }

  /** Everything the roles of `s` inherit directly. */
  function Successors(h: Hierarchy, s: set<Role>): set<Role>
  {
    set r, q | r in s && q in Inherited(h, r) :: q
  }

  /**
    Reference definition of role expansion: the roles reachable from `roots`,
    computed by adding direct successors until nothing changes.
   */
  function Close(h: Hierarchy, roots: set<Role>): set<Role>
    decreases AllRoles - roots
  {
    var next := roots + Successors(h, roots);
    if next == roots then roots
    else
      ProperGrowth(roots, next);
      Close(h, next)
  }

  /** Adding a role leaves fewer roles to add: the measure of `Close` and `AddRole`. */
  lemma ProperGrowth(smaller: set<Role>, larger: set<Role>)
    requires smaller < larger
    ensures AllRoles - larger < AllRoles - smaller
  {
    forall r: Role ensures r in AllRoles {
      EveryRoleInAllRoles(r);
    }
  }

  lemma SuccessorsOf(h: Hierarchy, s: set<Role>, r: Role, q: Role)
    requires r in s && q in Inherited(h, r)
    ensures q in Successors(h, s)
  {
  }

  /** `Close` is the least closed set of roles that contains the roots. */
  lemma {:induction false} CloseIsLeastClosedSuperset(h: Hierarchy, roots: set<Role>)
    ensures roots <= Close(h, roots)
    ensures Closed(h, Close(h, roots))
    ensures forall s :: roots <= s && Closed(h, s) ==> Close(h, roots) <= s
    decreases AllRoles - roots
  {
    var next := roots + Successors(h, roots);
    if next == roots {
      forall r, q | r in roots && q in Inherited(h, r)
        ensures q in roots
      {
        SuccessorsOf(h, roots, r, q);
      }
    } else {
      ProperGrowth(roots, next);
      CloseIsLeastClosedSuperset(h, next);
      forall s | roots <= s && Closed(h, s)
        ensures Close(h, roots) <= s
      {
        assert Successors(h, roots) <= s;
      }
    }
  }

  /** The three properties of `CloseIsLeastClosedSuperset` determine the set. */
  lemma LeastClosedSupersetIsClose(h: Hierarchy, roots: set<Role>, x: set<Role>)
    requires roots <= x && Closed(h, x)
    requires forall s :: roots <= s && Closed(h, s) ==> x <= s
    ensures x == Close(h, roots)
  {
    CloseIsLeastClosedSuperset(h, roots);
  }

  /** Expansion is monotone: more roots never lose a reachable role. */
  lemma CloseMonotone(h: Hierarchy, a: set<Role>, b: set<Role>)
    requires a <= b
    ensures Close(h, a) <= Close(h, b)
  {
    CloseIsLeastClosedSuperset(h, a);
    CloseIsLeastClosedSuperset(h, b);
  }

  /**
    `add_role`: adds `role` and, if it was new, everything it inherits.
    The Python closure mutates the `expanded` set of its caller; here the set
    is passed in and the grown set is returned. The recursion only descends
    into roles not yet in the set, so it terminates for every hierarchy,
    cyclic ones included: each call has fewer roles left to add.
   */
  method AddRole(h: Hierarchy, role: Role, expanded: set<Role>) returns (result: set<Role>)
    ensures expanded + {role} <= result
    ensures forall r :: r in result && r !in expanded ==> Inherited(h, r) <= result
    ensures forall s :: Closed(h, s) && role in s && expanded <= s ==> result <= s
    decreases AllRoles - expanded
  {
    if role in expanded {
      return expanded;
    }
    result := expanded + {role};
    var pending := Inherited(h, role);
    while pending != {}
      invariant expanded + {role} <= result
      invariant Inherited(h, role) - pending <= result
      invariant forall r :: r in result && r !in expanded && r != role ==> Inherited(h, r) <= result
      invariant forall s :: Closed(h, s) && role in s && expanded <= s ==> result <= s
      decreases pending
    {
      var inherited :| inherited in pending;
      assert role in AllRoles;
      result := AddRole(h, inherited, result);
      pending := pending - {inherited};
    }
  }

  /**
    `expand_roles`: every valid role name in `roles` together with all the
    roles it inherits; strings that name no role are skipped (the source logs
    a warning for each).
   */
  method ExpandRoles(roles: seq<string>, h: Hierarchy) returns (expanded: set<Role>)
    ensures ValidRoles(roles) <= expanded
    ensures Closed(h, expanded)
    ensures forall s :: Closed(h, s) && ValidRoles(roles) <= s ==> expanded <= s
    ensures expanded == Close(h, ValidRoles(roles))
  {
    expanded := {};
    for i := 0 to |roles|
      invariant ValidRoles(roles[..i]) <= expanded
      invariant Closed(h, expanded)
      invariant forall s :: Closed(h, s) && ValidRoles(roles[..i]) <= s ==> expanded <= s
    {
      assert roles[..i + 1] == roles[..i] + [roles[i]];
      match ParseRole(roles[i]) {
        case Some(role) =>
          expanded := AddRole(h, role, expanded);
        case None =>
      }
    }
    assert roles[..|roles|] == roles;
    LeastClosedSupersetIsClose(h, ValidRoles(roles), expanded);
  }

  /** The union of the permissions granted by each role in `roles`. */
  function RolePermissionUnion(roles: set<Role>): set<string>
  {
    set r, p | r in roles && p in PermissionsOf(r) :: p
  }

  /** Apply per-user overrides: `true` adds the permission, `false` removes it. */
  function ApplyOverrides(base: set<string>, overrides: map<string, bool>): (r: set<string>)
    ensures forall p :: p in overrides ==> (p in r <==> overrides[p])
    ensures forall p :: p !in overrides ==> (p in r <==> p in base)
  {
    (base - set p | p in overrides && !overrides[p]) + set p | p in overrides && overrides[p]
  }

  /** Reference definition of a user's effective permissions. */
  function EffectivePermissions(user: User): set<string>
  {
    ApplyOverrides(RolePermissionUnion(Close(RoleHierarchy, ValidRoles(user.roles))), user.permissions)
  }

  lemma RolePermissionUnionAdd(roles: set<Role>, role: Role)
    ensures RolePermissionUnion(roles + {role}) == RolePermissionUnion(roles) + PermissionsOf(role)
  {
    var lhs, rhs := RolePermissionUnion(roles + {role}), RolePermissionUnion(roles) + PermissionsOf(role);
    forall p | p in rhs ensures p in lhs {
      if p !in PermissionsOf(role) {
        var r :| r in roles && p in PermissionsOf(r);
        assert r in roles + {role};
      }
    }
  }

  /**
    `get_effective_permissions`: the permissions of every expanded role, then
    the user's overrides on top. An override decides its permission outright;
    every other permission is held exactly when some expanded role grants it.
   */
  method GetEffectivePermissions(user: User) returns (effective: set<string>)
    ensures forall p :: p in user.permissions ==> (p in effective <==> user.permissions[p])
    ensures forall p :: p !in user.permissions ==>
      (p in effective <==> exists r :: r in Close(RoleHierarchy, ValidRoles(user.roles)) && p in PermissionsOf(r))
    ensures effective == EffectivePermissions(user)
  {
    var roles := ExpandRoles(user.roles, RoleHierarchy);

    // Start with role-based permissions.
    effective := {};
    var todo := roles;
    while todo != {}
      invariant todo <= roles
      invariant effective == RolePermissionUnion(roles - todo)
      decreases todo
    {
      var role :| role in todo;
      var permissions := PermissionsOf(role);
      RolePermissionUnionAdd(roles - todo, role);
      assert roles - (todo - {role}) == (roles - todo) + {role};
      if permissions != {} {
        effective := effective + permissions;
      }
      todo := todo - {role};
    }
    assert roles - todo == roles;

    // Apply user-specific permission overrides.
    ghost var base := effective;
    var overrides := user.permissions;
    var keys := overrides.Keys;
    while keys != {}
      invariant keys <= overrides.Keys
      invariant forall p :: p in effective <==>
        (if p in overrides && p !in keys then overrides[p] else p in base)
      decreases keys
    {
      var perm :| perm in keys;
      if overrides[perm] {
        effective := effective + {perm};
      } else {
        effective := effective - {perm};
      }
      keys := keys - {perm};
    }
  }

  /** With the shipped hierarchy, `['admin']` expands to every role. */
  lemma AdminExpandsToAllRoles()
    ensures Close(RoleHierarchy, ValidRoles(["admin"])) == {Admin, Writer, Reader}
  {
    assert ValidRoles(["admin"]) == {Admin};
    CloseIsLeastClosedSuperset(RoleHierarchy, {Admin});
  }

  /** With the shipped hierarchy, `['writer', 'reader']` does not reach `admin`. */
  lemma WriterReaderExcludesAdmin()
    ensures Close(RoleHierarchy, ValidRoles(["writer", "reader"])) == {Writer, Reader}
  {
    assert ValidRoles(["writer", "reader"]) == {Writer, Reader};
    CloseIsLeastClosedSuperset(RoleHierarchy, {Writer, Reader});
    assert Closed(RoleHierarchy, {Writer, Reader});
  }

  /** Strings that name no role change nothing, wherever they occur in the list. */
  lemma InvalidNamesIgnored(h: Hierarchy, names: seq<string>, junk: seq<string>)
    requires forall i :: 0 <= i < |junk| ==> ParseRole(junk[i]).None?
    ensures ValidRoles(names + junk) == ValidRoles(names)
    ensures Close(h, ValidRoles(names + junk)) == Close(h, ValidRoles(names))
  {
    forall r | r in ValidRoles(names + junk)
      ensures r in ValidRoles(names)
    {
      var k :| 0 <= k < |names + junk| && (names + junk)[k] == RoleName(r);
      assert forall j :: 0 <= j < |junk| ==> junk[j] != RoleName(r);
      assert k < |names|;
    }
  }

  /** The fixture user of the test suite: no roles, one override granting `users:read`. */
  lemma OverrideOnlyUser(user: User)
    requires user.roles == [] && user.permissions == map[Scope(Read) := true]
    ensures EffectivePermissions(user) == {Scope(Read)}
  {
    assert ValidRoles([]) == {};
    CloseIsLeastClosedSuperset(RoleHierarchy, {});
    assert Close(RoleHierarchy, {}) == {};
  }

  /** A user holding `admin`, with no override denying it, holds the `users:*` wildcard. */
  lemma AdminHoldsUsersWildcard(user: User)
    requires RoleName(Admin) in user.roles
    requires Scope(All) in user.permissions ==> user.permissions[Scope(All)]
    ensures Scope(All) in EffectivePermissions(user)
  {
    assert Admin in ValidRoles(user.roles);
    CloseIsLeastClosedSuperset(RoleHierarchy, ValidRoles(user.roles));
    assert Scope(All) in PermissionsOf(Admin);
  }

  /** Giving a user more roles never takes a permission away. */
  lemma MoreRolesNeverRevoke(user: User, extra: seq<string>)
    ensures EffectivePermissions(user) <= EffectivePermissions(user.(roles := user.roles + extra))
  {
    var more := user.(roles := user.roles + extra);
    assert ValidRoles(user.roles) <= ValidRoles(more.roles);
    CloseMonotone(RoleHierarchy, ValidRoles(user.roles), ValidRoles(more.roles));
  }
}
