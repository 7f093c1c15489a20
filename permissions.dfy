/**
  The two string enums of the users API: the roles a user can hold and the
  permission scopes of the users resource (golf_api/permissions.py).
 */
module Permissions {
  import opened Wrappers

  /** `Roles`: a StrEnum, so every member is also the string shown by `RoleName`. */
  datatype Role = Admin | Writer | Reader

  /** Every value of `Role`; the set is finite, which is what makes role expansion terminate. */
  const AllRoles: set<Role> := {Admin, Writer, Reader}

  function RoleName(r: Role): string
  {
    match r
    case Admin => "admin"
    case Writer => "writer"
    case Reader => "reader"
  }

  /** `Roles(s)`: the member whose value is `s`, or the ValueError Python raises otherwise. */
  function ParseRole(s: string): (r: Option<Role>)
    ensures r.Some? ==> RoleName(r.value) == s
    ensures r.None? ==> forall role: Role :: RoleName(role) != s
  {
    if s == "admin" then Some(Admin)
    else if s == "writer" then Some(Writer)
    else if s == "reader" then Some(Reader)
    else None
  }

  lemma EveryRoleInAllRoles(r: Role)
    ensures r in AllRoles
  {
  }

  /** The role names are distinct, so parsing a role's name gives back that role. */
  lemma ParseRoleName(r: Role)
    ensures ParseRole(RoleName(r)) == Some(r)
  {
  }

  /** `UserPermissions`: the scopes of the users resource; `All` is the wildcard scope. */
  datatype UserPermission = Read | Create | Edit | Delete | All

  function Scope(p: UserPermission): string
  {
    match p
    case Read => "users:read"
    case Create => "users:create"
    case Edit => "users:edit"
    case Delete => "users:delete"
    case All => "users:*"
  }
}
