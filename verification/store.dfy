/**
 * A snapshot of the RBAC tables the tenancy models and the permission
 * resolver work on. Each table is a sequence of rows in listing order. The
 * per-user meta, key and token tables live in their own modules.
 */
module Store {
  import opened Wrappers
  import opened Errors
  import RbacService
  import Seqs

  /** A `users` row. `password` is the salted hash; `verifiedAt` is null until verified. */
  datatype UserRec = UserRec(
    id: string, email: string, admin: bool, enabled: bool,
    createdAt: int, updatedAt: Option<int>, verifiedAt: Option<int>,
    password: string, salt: string)

  /** A `tenants` row. `owner` becomes null when the owning user row goes; `enabled` is the value as read. */
  datatype TenantRec = TenantRec(id: string, owner: Option<string>, domain: string, name: string, enabled: RbacService.Value)

  /** A `tenant_users` row: membership of `user` in `tenant`. */
  datatype TenantUser = TenantUser(id: string, tenant: string, user: string)

  /** A `permissions` row. */
  datatype Permission = Permission(id: string, name: string)

  /** A `tenant_permissions` row: a permission activated for a tenant. */
  datatype TenantPermission = TenantPermission(id: string, tenant: string, permission: string)

  /** A `tenant_roles` row. */
  datatype Role = Role(id: string, tenant: string, name: string)

  /** A `tenant_role_permissions` row: a role grants a tenant permission. */
  datatype RolePermission = RolePermission(id: string, role: string, tenantPermission: string)

  /** A `tenant_user_roles` row: a tenant user holds a role. */
  datatype UserRole = UserRole(id: string, tenantUser: string, role: string)

  /** A `tenant_teams` row. */
  datatype Team = Team(id: string, tenant: string, name: string)

  /** A `tenant_user_teams` row: a tenant user is in a team. */
  datatype UserTeam = UserTeam(id: string, tenantUser: string, team: string)

  /** A `tenant_invitations` row; `deleted` is the soft-delete mark. */
  datatype Invitation = Invitation(id: string, email: string, tenant: string, role: string, expiresAt: int, deleted: bool)

  datatype Store = Store(
    users: seq<UserRec>,
    tenants: seq<TenantRec>,
    tenantUsers: seq<TenantUser>,
    permissions: seq<Permission>,
    tenantPermissions: seq<TenantPermission>,
    roles: seq<Role>,
    rolePermissions: seq<RolePermission>,
    userRoles: seq<UserRole>,
    teams: seq<Team>,
    userTeams: seq<UserTeam>,
    invitations: seq<Invitation>)

  /** The owner of every tenant, when it has one, is a tenant user of it. */
  predicate OwnerIsMember(s: Store) {
    forall t :: t in s.tenants && t.owner.Some? ==> IsMember(s, t.id, t.owner.value)
  }

  /** A `tenant_users` row links `user` to `tenant`. */
  predicate IsMember(s: Store, tenant: string, user: string) {
    exists tu :: tu in s.tenantUsers && tu.tenant == tenant && tu.user == user
  }

  /** The keys and unique constraints of the tables the tenancy operations write. */
  predicate Keys(s: Store) {
    && Seqs.UniqueBy(s.users, (u: UserRec) => u.id)
    && Seqs.UniqueBy(s.users, (u: UserRec) => u.email)
    && Seqs.UniqueBy(s.tenants, (t: TenantRec) => t.id)
    && Seqs.UniqueBy(s.tenants, (t: TenantRec) => t.domain)
    && Seqs.UniqueBy(s.tenantUsers, (tu: TenantUser) => tu.id)
    && Seqs.UniqueBy(s.tenantUsers, (tu: TenantUser) => (tu.tenant, tu.user))
    && Seqs.UniqueBy(s.userRoles, (ur: UserRole) => ur.id)
    && Seqs.UniqueBy(s.userRoles, (ur: UserRole) => (ur.tenantUser, ur.role))
    && Seqs.UniqueBy(s.invitations, (v: Invitation) => v.id)
    && Seqs.UniqueBy(s.invitations, (v: Invitation) => (v.email, v.tenant))
  }

  /** The store invariant: keys, unique constraints and the ownership invariant. */
  predicate Valid(s: Store) {
    Keys(s) && OwnerIsMember(s)
  }

  /** The user with primary key `id`. */
  function UserById(s: Store, id: string): (r: Option<UserRec>)
    ensures r.Some? ==> r.value in s.users && r.value.id == id
    ensures r.None? <==> forall i :: 0 <= i < |s.users| ==> s.users[i].id != id
  {
    match Seqs.FirstIndex(s.users, (u: UserRec) => u.id == id)
    case None => None
    case Some(i) => Some(s.users[i])
  }

  /** The tenant with primary key `id`. */
  function TenantById(s: Store, id: string): (r: Option<TenantRec>)
    ensures r.Some? ==> r.value in s.tenants && r.value.id == id
    ensures r.None? <==> forall i :: 0 <= i < |s.tenants| ==> s.tenants[i].id != id
  {
    match Seqs.FirstIndex(s.tenants, (t: TenantRec) => t.id == id)
    case None => None
    case Some(i) => Some(s.tenants[i])
  }

  /** The tenant-user row with primary key `id`. */
  function TenantUserById(s: Store, id: string): (r: Option<TenantUser>)
    ensures r.Some? ==> r.value in s.tenantUsers && r.value.id == id
    ensures r.None? <==> forall i :: 0 <= i < |s.tenantUsers| ==> s.tenantUsers[i].id != id
  {
    match Seqs.FirstIndex(s.tenantUsers, (tu: TenantUser) => tu.id == id)
    case None => None
    case Some(i) => Some(s.tenantUsers[i])
  }

  /** PHP truthiness of a string column: `""` and `"0"` are falsy. */
  predicate FalsyString(v: string) {
    v == "" || v == "0"
  }

  /**
   * `TenantsModel::getOwnerId`: the `owner` column of the tenant, or
   * `DoesNotExist` when there is no such tenant or the column is null or falsy.
   */
  function GetOwnerId(s: Store, tenant: string): (r: Result<string, OrmError>)
    ensures r.Ok? <==> TenantById(s, tenant).Some? && TenantById(s, tenant).value.owner.Some?
                       && !FalsyString(TenantById(s, tenant).value.owner.value)
    ensures r.Ok? ==> TenantById(s, tenant).value.owner == Some(r.value)
    ensures r.Err? ==> r.error == DoesNotExist
  {
    match TenantById(s, tenant)
    case None => Err(DoesNotExist)
    case Some(t) =>
      if t.owner.None? || FalsyString(t.owner.value) then Err(DoesNotExist) else Ok(t.owner.value)
  }

  /** `TenantUsersModel::userInTenant`: whether a (tenant, user) row exists. */
  function UserInTenant(s: Store, tenant: string, user: string): (r: bool)
    ensures r <==> IsMember(s, tenant, user)
  {
    Seqs.FirstIndex(s.tenantUsers, (tu: TenantUser) => tu.tenant == tenant && tu.user == user).Some?
  }

  /** `TenantUsersModel::findByUserId`: the (tenant, user) row, or `DoesNotExist`. */
  function FindByUserId(s: Store, tenant: string, user: string): (r: Result<TenantUser, OrmError>)
    ensures r.Ok? ==> r.value in s.tenantUsers && r.value.tenant == tenant && r.value.user == user
    ensures r.Err? <==> !IsMember(s, tenant, user)
    ensures r.Err? ==> r.error == DoesNotExist
  {
    match Seqs.FirstIndex(s.tenantUsers, (tu: TenantUser) => tu.tenant == tenant && tu.user == user)
    case None =>
      assert UserInTenant(s, tenant, user) == false;
      Err(DoesNotExist)
    case Some(i) => Ok(s.tenantUsers[i])
  }

  /** Under unique tenant ids, a listed tenant is the one found by its id. */
  lemma TenantByIdUnique(s: Store, t: TenantRec)
    requires Seqs.UniqueBy(s.tenants, (x: TenantRec) => x.id)
    requires t in s.tenants
    ensures TenantById(s, t.id) == Some(t)
  {
    var j :| 0 <= j < |s.tenants| && s.tenants[j] == t;
    var k := Seqs.FirstIndex(s.tenants, (x: TenantRec) => x.id == t.id).value;
    Seqs.UniqueByIndex(s.tenants, (x: TenantRec) => x.id, k, j);
  }

  /** The row is the membership of its tenant's owner (the row the ownership invariant rests on). */
  predicate OwnerRow(s: Store, tu: TenantUser) {
    exists t :: t in s.tenants && t.id == tu.tenant && t.owner == Some(tu.user)
  }

  /** The ids of the tenant users selected by `p`. */
  function RemovedIds(s: Store, p: TenantUser -> bool): set<string> {
    set tu | tu in s.tenantUsers && p(tu) :: tu.id
  }

  /**
   * Deleting the tenant users selected by `p`, with the `ON DELETE CASCADE`
   * of `tenant_user_roles` and `tenant_user_teams` on their tenant user.
   * No other table changes.
   */
  function RemoveTenantUsers(s: Store, p: TenantUser -> bool): (r: Store)
    ensures forall tu :: tu in r.tenantUsers <==> tu in s.tenantUsers && !p(tu)
    ensures forall ur :: ur in r.userRoles <==> ur in s.userRoles && ur.tenantUser !in RemovedIds(s, p)
    ensures forall ut :: ut in r.userTeams <==> ut in s.userTeams && ut.tenantUser !in RemovedIds(s, p)
    ensures r.users == s.users && r.tenants == s.tenants && r.invitations == s.invitations
    ensures r.permissions == s.permissions && r.tenantPermissions == s.tenantPermissions
    ensures r.roles == s.roles && r.rolePermissions == s.rolePermissions && r.teams == s.teams
  {
    var gone := RemovedIds(s, p);
    var keep := (tu: TenantUser) => !p(tu);
    var keepRole := (ur: UserRole) => ur.tenantUser !in gone;
    var keepTeam := (ut: UserTeam) => ut.tenantUser !in gone;
    Seqs.FilterMembers(s.tenantUsers, keep);
    Seqs.FilterMembers(s.userRoles, keepRole);
    Seqs.FilterMembers(s.userTeams, keepTeam);
    s.(tenantUsers := Seqs.Filter(s.tenantUsers, keep),
       userRoles := Seqs.Filter(s.userRoles, keepRole),
       userTeams := Seqs.Filter(s.userTeams, keepTeam))
  }

  /**
   * Removing tenant users keeps the store valid as long as no removed row is
   * the membership of its tenant's owner.
   */
  lemma RemoveKeepsValid(s: Store, p: TenantUser -> bool)
    requires Valid(s)
    requires forall tu :: tu in s.tenantUsers && p(tu) ==> !OwnerRow(s, tu)
    ensures Valid(RemoveTenantUsers(s, p))
  {
    var r := RemoveTenantUsers(s, p);
    var gone := RemovedIds(s, p);
    Seqs.UniqueByFilter(s.tenantUsers, (tu: TenantUser) => tu.id, (tu: TenantUser) => !p(tu));
    Seqs.UniqueByFilter(s.tenantUsers, (tu: TenantUser) => (tu.tenant, tu.user), (tu: TenantUser) => !p(tu));
    Seqs.UniqueByFilter(s.userRoles, (ur: UserRole) => ur.id, (ur: UserRole) => ur.tenantUser !in gone);
    Seqs.UniqueByFilter(s.userRoles, (ur: UserRole) => (ur.tenantUser, ur.role), (ur: UserRole) => ur.tenantUser !in gone);
    forall t | t in r.tenants && t.owner.Some?
      ensures IsMember(r, t.id, t.owner.value)
    {
      var w :| w in s.tenantUsers && w.tenant == t.id && w.user == t.owner.value;
      assert OwnerRow(s, w);
      assert w in r.tenantUsers;
    }
  }
}
