/**
 * The per-request view of one user (`User`): the tenants they belong to,
 * their roles and teams in a tenant, the permissions they hold there, and
 * their meta values. Every answer is computed from the store on first use
 * and memoised in the session, so a later call returns the first answer
 * whatever the store holds by then.
 */
module Resolver {
  import opened Wrappers
  import opened Store
  import RbacService
  import Seqs
  import Json
  import UserMeta
  import ProtectedPrefix

  /** A tenant the user belongs to, with the id of the `tenant_users` row that links them. */
  datatype Membership = Membership(tenantUser: string, tenant: TenantRec)

  /**
   * The memo of one `User` object. `None` and an absent map key mean "not
   * loaded yet"; a loaded empty list is memoised like any other.
   */
  datatype Session = Session(
    user: UserRec,
    invitations: Option<seq<Invitation>>,
    tenants: Option<seq<Membership>>,
    roles: map<string, seq<Role>>,
    teams: map<string, seq<Team>>,
    permissions: map<string, seq<Permission>>,
    meta: map<string, Json.Json>)

  /** A fresh `User` object for the row `u`: nothing loaded yet. */
  function Open(u: UserRec): Session {
    Session(u, None, None, map[], map[], map[], map[])
  }

  // ----- Primary-key lookups (the joins of the list queries) -----

  function RoleById(s: Store, id: string): (r: Option<Role>)
    ensures r.Some? ==> r.value in s.roles && r.value.id == id
    ensures r.None? <==> forall i :: 0 <= i < |s.roles| ==> s.roles[i].id != id
  {
    match Seqs.FirstIndex(s.roles, (x: Role) => x.id == id)
    case None => None
    case Some(i) => Some(s.roles[i])
  }

  function TeamById(s: Store, id: string): (r: Option<Team>)
    ensures r.Some? ==> r.value in s.teams && r.value.id == id
    ensures r.None? <==> forall i :: 0 <= i < |s.teams| ==> s.teams[i].id != id
  {
    match Seqs.FirstIndex(s.teams, (x: Team) => x.id == id)
    case None => None
    case Some(i) => Some(s.teams[i])
  }

  function PermissionById(s: Store, id: string): (r: Option<Permission>)
    ensures r.Some? ==> r.value in s.permissions && r.value.id == id
    ensures r.None? <==> forall i :: 0 <= i < |s.permissions| ==> s.permissions[i].id != id
  {
    match Seqs.FirstIndex(s.permissions, (x: Permission) => x.id == id)
    case None => None
    case Some(i) => Some(s.permissions[i])
  }

  function TenantPermissionById(s: Store, id: string): (r: Option<TenantPermission>)
    ensures r.Some? ==> r.value in s.tenantPermissions && r.value.id == id
    ensures r.None? <==> forall i :: 0 <= i < |s.tenantPermissions| ==> s.tenantPermissions[i].id != id
  {
    match Seqs.FirstIndex(s.tenantPermissions, (x: TenantPermission) => x.id == id)
    case None => None
    case Some(i) => Some(s.tenantPermissions[i])
  }

  // ----- The relations the store holds, stated independently of the queries -----

  /** `user` has a `tenant_users` row in an existing tenant. */
  ghost predicate Belongs(s: Store, user: string, tenant: string) {
    IsMember(s, tenant, user) && TenantById(s, tenant).Some?
  }

  /** `user` holds `role` in `tenant` through a `tenant_user_roles` row of their membership. */
  ghost predicate RoleHeld(s: Store, user: string, tenant: string, role: Role) {
    TenantById(s, tenant).Some? &&
    exists tu, ur :: tu in s.tenantUsers && tu.user == user && tu.tenant == tenant
      && ur in s.userRoles && ur.tenantUser == tu.id && RoleById(s, ur.role) == Some(role)
  }

  /** `user` is in `team` in `tenant` through a `tenant_user_teams` row of their membership. */
  ghost predicate TeamHeld(s: Store, user: string, tenant: string, team: Team) {
    TenantById(s, tenant).Some? &&
    exists tu, ut :: tu in s.tenantUsers && tu.user == user && tu.tenant == tenant
      && ut in s.userTeams && ut.tenantUser == tu.id && TeamById(s, ut.team) == Some(team)
  }

  /** `p` is activated for `tenant` by a `tenant_permissions` row. */
  ghost predicate Activated(s: Store, tenant: string, p: Permission) {
    exists tp :: tp in s.tenantPermissions && tp.tenant == tenant && PermissionById(s, tp.permission) == Some(p)
  }

  /** `p` is reachable from a role `user` holds in `tenant`: role, role permission, tenant permission, permission. */
  ghost predicate ReachableByRole(s: Store, user: string, tenant: string, p: Permission) {
    exists role, rp, tp :: RoleHeld(s, user, tenant, role)
      && rp in s.rolePermissions && rp.role == role.id
      && TenantPermissionById(s, rp.tenantPermission) == Some(tp)
      && PermissionById(s, tp.permission) == Some(p)
  }

  /**
   * The permission policy as a decision table over the relations: the first
   * matching rule decides whether `u` holds `p` in `tenant`.
   */
  ghost predicate PermissionGranted(s: Store, u: UserRec, tenant: string, p: Permission) {
    if !u.enabled then false
    else if u.admin then p in s.permissions
    else if !(Belongs(s, u.id, tenant) && TenantById(s, tenant).value.enabled == RbacService.VBool(true)) then false
    else if TenantById(s, tenant).value.owner == Some(u.id) then Activated(s, tenant, p)
    else ReachableByRole(s, u.id, tenant, p)
  }

  // ----- The list queries -----

  /** `defineTenants`: the user's `tenant_users` rows joined with their tenants. */
  function Memberships(s: Store, user: string): (r: seq<Membership>)
    ensures forall m :: m in r ==>
      exists tu :: tu in s.tenantUsers && tu.user == user && tu.id == m.tenantUser && TenantById(s, tu.tenant) == Some(m.tenant)
    ensures forall tu :: tu in s.tenantUsers && tu.user == user && TenantById(s, tu.tenant).Some? ==>
      Membership(tu.id, TenantById(s, tu.tenant).value) in r
  {
    var f := (tu: TenantUser) =>
      if tu.user == user && TenantById(s, tu.tenant).Some? then Some(Membership(tu.id, TenantById(s, tu.tenant).value)) else None;
    Seqs.FilterMapMembers(s.tenantUsers, f);
    Seqs.FilterMap(s.tenantUsers, f)
  }

  /** `defineRoles`: the roles of the tenant user's `tenant_user_roles` rows. */
  function RolesFor(s: Store, tenantUser: string): (r: seq<Role>)
    ensures forall role :: role in r <==> exists ur :: ur in s.userRoles && ur.tenantUser == tenantUser && RoleById(s, ur.role) == Some(role)
  {
    var f := (ur: UserRole) => if ur.tenantUser == tenantUser then RoleById(s, ur.role) else None;
    Seqs.FilterMapMembers(s.userRoles, f);
    Seqs.FilterMap(s.userRoles, f)
  }

  /** `defineTeams`: the teams of the tenant user's `tenant_user_teams` rows. */
  function TeamsFor(s: Store, tenantUser: string): (r: seq<Team>)
    ensures forall team :: team in r <==> exists ut :: ut in s.userTeams && ut.tenantUser == tenantUser && TeamById(s, ut.team) == Some(team)
  {
    var f := (ut: UserTeam) => if ut.tenantUser == tenantUser then TeamById(s, ut.team) else None;
    Seqs.FilterMapMembers(s.userTeams, f);
    Seqs.FilterMap(s.userTeams, f)
  }

  /** The owner branch of `definePermissions`: the permissions of the tenant's `tenant_permissions` rows. */
  function OwnerPermissions(s: Store, tenant: string): (r: seq<Permission>)
    ensures forall p :: p in r <==> Activated(s, tenant, p)
  {
    var f := (tp: TenantPermission) => if tp.tenant == tenant then PermissionById(s, tp.permission) else None;
    Seqs.FilterMapMembers(s.tenantPermissions, f);
    Seqs.FilterMap(s.tenantPermissions, f)
  }

  /**
   * The role branch of `definePermissions`: for every `tenant_role_permissions`
   * row whose role is among `roleIds`, the permission of its tenant
   * permission. A permission granted by two roles is listed twice.
   */
  function RolePermissions(s: Store, roleIds: seq<string>): (r: seq<Permission>)
    ensures forall p :: p in r <==>
      exists rp, tp :: rp in s.rolePermissions && rp.role in roleIds
        && TenantPermissionById(s, rp.tenantPermission) == Some(tp) && PermissionById(s, tp.permission) == Some(p)
  {
    var f := (rp: RolePermission) =>
      if rp.role in roleIds && TenantPermissionById(s, rp.tenantPermission).Some?
      then PermissionById(s, TenantPermissionById(s, rp.tenantPermission).value.permission) else None;
    Seqs.FilterMapMembers(s.rolePermissions, f);
    Seqs.FilterMap(s.rolePermissions, f)
  }

  // ----- `Arr::hasAllValues` / `Arr::hasAnyValues` -----

  /** Every wanted value is present; vacuously true for an empty `want`. */
  function HasAllValues<T(==)>(have: seq<T>, want: seq<T>): (r: bool)
    ensures r <==> forall i :: 0 <= i < |want| ==> want[i] in have
  {
    if |want| == 0 then true
    else want[0] in have && HasAllValues(have, want[1..])
  }

  /** Some wanted value is present; false for an empty `want`. */
  function HasAnyValues<T(==)>(have: seq<T>, want: seq<T>): (r: bool)
    ensures r <==> exists i :: 0 <= i < |want| && want[i] in have
  {
    if |want| == 0 then false
    else want[0] in have || HasAnyValues(have, want[1..])
  }

  function RoleIds(rs: seq<Role>): seq<string> {
    Seqs.Map(rs, (x: Role) => x.id)
  }

  function TeamIds(ts: seq<Team>): seq<string> {
    Seqs.Map(ts, (x: Team) => x.id)
  }

  function PermissionIds(ps: seq<Permission>): seq<string> {
    Seqs.Map(ps, (x: Permission) => x.id)
  }

  function PermissionNames(ps: seq<Permission>): seq<string> {
    Seqs.Map(ps, (x: Permission) => x.name)
  }

  // ----- Tenants -----

  /** `defineTenants` under its `is_array` guard: memberships are loaded at most once per session. */
  function LoadTenants(sess: Session, s: Store): (r: Session)
    ensures r.tenants.Some?
    ensures sess.tenants.Some? ==> r == sess
    ensures sess.tenants.None? ==> r == sess.(tenants := Some(Memberships(s, sess.user.id)))
  {
    if sess.tenants.Some? then sess else sess.(tenants := Some(Memberships(s, sess.user.id)))
  }

  /** `getTenants`: the tenant records of the memberships. */
  function GetTenants(sess: Session, s: Store): (r: (seq<TenantRec>, Session))
    ensures r.1 == LoadTenants(sess, s)
    ensures forall m :: m in r.1.tenants.value ==> m.tenant in r.0
  {
    var sess1 := LoadTenants(sess, s);
    (Seqs.Map(sess1.tenants.value, (m: Membership) => m.tenant), sess1)
  }

  /** The first membership of `tenant`, if any. */
  function FirstMembership(ms: seq<Membership>, tenant: string): (r: Option<Membership>)
    ensures r.Some? ==> r.value in ms && r.value.tenant.id == tenant
    ensures r.None? <==> forall m :: m in ms ==> m.tenant.id != tenant
  {
    match Seqs.FirstIndex(ms, (m: Membership) => m.tenant.id == tenant)
    case None => None
    case Some(i) => Some(ms[i])
  }

  /** `inTenant`: some loaded tenant has the id. */
  function InTenant(sess: Session, s: Store, tenant: string): (r: (bool, Session))
    ensures r.1 == LoadTenants(sess, s)
    ensures r.0 <==> exists t :: t in GetTenants(sess, s).0 && t.id == tenant
  {
    var (ts, sess1) := GetTenants(sess, s);
    (tenant in Seqs.Map(ts, (t: TenantRec) => t.id), sess1)
  }

  /** `tenantIsEnabled`: the first loaded tenant with the id has `enabled` exactly `true`. */
  function TenantIsEnabled(sess: Session, s: Store, tenant: string): (r: (bool, Session))
    ensures r.1 == LoadTenants(sess, s)
    ensures r.0 <==> FirstMembership(r.1.tenants.value, tenant).Some?
                     && FirstMembership(r.1.tenants.value, tenant).value.tenant.enabled == RbacService.VBool(true)
  {
    var sess1 := LoadTenants(sess, s);
    match FirstMembership(sess1.tenants.value, tenant)
    case None => (false, sess1)
    case Some(m) => (m.tenant.enabled == RbacService.VBool(true), sess1)
  }

  /** `inEnabledTenant`: finds the tenant among the loaded ones, then asks `tenantIsEnabled`. */
  function InEnabledTenant(sess: Session, s: Store, tenant: string): (r: (bool, Session))
    ensures r == TenantIsEnabled(sess, s, tenant)
  {
    var sess1 := LoadTenants(sess, s);
    if FirstMembership(sess1.tenants.value, tenant).Some? then TenantIsEnabled(sess1, s, tenant)
    else (false, sess1)
  }

  /** `getOwnedTenants`: the loaded tenants whose `owner` is the user. */
  function GetOwnedTenants(sess: Session, s: Store): (r: (seq<TenantRec>, Session))
    ensures r.1 == LoadTenants(sess, s)
    ensures forall t :: t in r.0 <==> t in GetTenants(sess, s).0 && t.owner == Some(sess.user.id)
  {
    var (ts, sess1) := GetTenants(sess, s);
    var owned := (t: TenantRec) => t.owner == Some(sess.user.id);
    Seqs.FilterMembers(ts, owned);
    (Seqs.Filter(ts, owned), sess1)
  }

  /** `ownsTenant`: some owned tenant has the id. */
  function OwnsTenant(sess: Session, s: Store, tenant: string): (r: (bool, Session))
    ensures r.1 == LoadTenants(sess, s)
    ensures r.0 <==> exists t :: t in GetTenants(sess, s).0 && t.id == tenant && t.owner == Some(sess.user.id)
  {
    var (owned, sess1) := GetOwnedTenants(sess, s);
    (tenant in Seqs.Map(owned, (t: TenantRec) => t.id), sess1)
  }

  /** `getTenantUserId`: the tenant-user id of the first loaded membership of the tenant, or null. */
  function TenantUserId(sess: Session, s: Store, tenant: string): (r: (Option<string>, Session))
    ensures r.1 == LoadTenants(sess, s)
    ensures r.0.Some? ==> exists m :: m in r.1.tenants.value && m.tenant.id == tenant && m.tenantUser == r.0.value
    ensures r.0.None? <==> forall m :: m in r.1.tenants.value ==> m.tenant.id != tenant
  {
    var sess1 := LoadTenants(sess, s);
    match FirstMembership(sess1.tenants.value, tenant)
    case None => (None, sess1)
    case Some(m) => (Some(m.tenantUser), sess1)
  }

  // ----- Roles and teams -----

  /** `getRoles`: memoised per tenant; a user outside the tenant gets (and memoises) no roles. */
  function GetRoles(sess: Session, s: Store, tenant: string): (r: (seq<Role>, Session))
    ensures tenant in sess.roles ==> r == (sess.roles[tenant], sess)
    ensures r.1.roles == sess.roles[tenant := r.0]
    ensures r.1.user == sess.user && r.1.permissions == sess.permissions && r.1.teams == sess.teams
    ensures r.1.meta == sess.meta && r.1.invitations == sess.invitations
    ensures tenant !in sess.roles ==> r.1.tenants == LoadTenants(sess, s).tenants
    ensures tenant in sess.roles ==> r.1.tenants == sess.tenants
    ensures tenant !in sess.roles && TenantUserId(sess, s, tenant).0.None? ==> r.0 == []
  {
    if tenant in sess.roles then (sess.roles[tenant], sess)
    else
      var (tu, sess1) := TenantUserId(sess, s, tenant);
      var roles := if tu.None? then [] else RolesFor(s, tu.value);
      (roles, sess1.(roles := sess1.roles[tenant := roles]))
  }

  /** `getTeams`: memoised per tenant; a user outside the tenant gets (and memoises) no teams. */
  function GetTeams(sess: Session, s: Store, tenant: string): (r: (seq<Team>, Session))
    ensures tenant in sess.teams ==> r == (sess.teams[tenant], sess)
    ensures r.1.teams == sess.teams[tenant := r.0]
    ensures r.1.user == sess.user && r.1.permissions == sess.permissions && r.1.roles == sess.roles
    ensures r.1.meta == sess.meta && r.1.invitations == sess.invitations
    ensures tenant !in sess.teams ==> r.1.tenants == LoadTenants(sess, s).tenants
    ensures tenant !in sess.teams && TenantUserId(sess, s, tenant).0.None? ==> r.0 == []
  {
    if tenant in sess.teams then (sess.teams[tenant], sess)
    else
      var (tu, sess1) := TenantUserId(sess, s, tenant);
      var teams := if tu.None? then [] else TeamsFor(s, tu.value);
      (teams, sess1.(teams := sess1.teams[tenant := teams]))
  }

  /** `hasRole`. */
  function HasRole(sess: Session, s: Store, tenant: string, role: string): (r: (bool, Session))
    ensures r.1 == GetRoles(sess, s, tenant).1
    ensures r.0 <==> exists x :: x in GetRoles(sess, s, tenant).0 && x.id == role
  {
    var (roles, sess1) := GetRoles(sess, s, tenant);
    (role in RoleIds(roles), sess1)
  }

  /** `hasAllRoles`: every listed id is among the roles (true for an empty list). */
  function HasAllRoles(sess: Session, s: Store, tenant: string, roles: seq<string>): (r: (bool, Session))
    ensures r.1 == GetRoles(sess, s, tenant).1
    ensures r.0 <==> forall i :: 0 <= i < |roles| ==> exists x :: x in GetRoles(sess, s, tenant).0 && x.id == roles[i]
  {
    var (have, sess1) := GetRoles(sess, s, tenant);
    (HasAllValues(RoleIds(have), roles), sess1)
  }

  /** `hasAnyRoles`: some listed id is among the roles (false for an empty list). */
  function HasAnyRoles(sess: Session, s: Store, tenant: string, roles: seq<string>): (r: (bool, Session))
    ensures r.1 == GetRoles(sess, s, tenant).1
    ensures r.0 <==> exists i :: 0 <= i < |roles| && exists x :: x in GetRoles(sess, s, tenant).0 && x.id == roles[i]
  {
    var (have, sess1) := GetRoles(sess, s, tenant);
    (HasAnyValues(RoleIds(have), roles), sess1)
  }

  /** `inTeam`. */
  function InTeam(sess: Session, s: Store, tenant: string, team: string): (r: (bool, Session))
    ensures r.1 == GetTeams(sess, s, tenant).1
    ensures r.0 <==> exists x :: x in GetTeams(sess, s, tenant).0 && x.id == team
  {
    var (teams, sess1) := GetTeams(sess, s, tenant);
    (team in TeamIds(teams), sess1)
  }

  /** `inAllTeams`: every listed id is among the teams (true for an empty list). */
  function InAllTeams(sess: Session, s: Store, tenant: string, teams: seq<string>): (r: (bool, Session))
    ensures r.1 == GetTeams(sess, s, tenant).1
    ensures r.0 <==> forall i :: 0 <= i < |teams| ==> exists x :: x in GetTeams(sess, s, tenant).0 && x.id == teams[i]
  {
    var (have, sess1) := GetTeams(sess, s, tenant);
    (HasAllValues(TeamIds(have), teams), sess1)
  }

  /** `inAnyTeams`: some listed id is among the teams (false for an empty list). */
  function InAnyTeams(sess: Session, s: Store, tenant: string, teams: seq<string>): (r: (bool, Session))
    ensures r.1 == GetTeams(sess, s, tenant).1
    ensures r.0 <==> exists i :: 0 <= i < |teams| && exists x :: x in GetTeams(sess, s, tenant).0 && x.id == teams[i]
  {
    var (have, sess1) := GetTeams(sess, s, tenant);
    (HasAnyValues(TeamIds(have), teams), sess1)
  }

  // ----- Permissions -----

  /**
   * `getPermissions` (`definePermissions` under its memo guard). The first
   * matching rule wins: a disabled user gets nothing; an admin gets every
   * permission; a non-admin whose tenant is not an enabled tenant of theirs
   * gets nothing; an owner gets the tenant's activated permissions; anyone
   * else gets the permissions of their roles. The tenant check is made only
   * for non-admins, so an admin's session may stay unloaded.
   */
  function GetPermissions(sess: Session, s: Store, tenant: string): (r: (seq<Permission>, Session))
    ensures tenant in sess.permissions ==> r == (sess.permissions[tenant], sess)
    ensures r.1.permissions == sess.permissions[tenant := r.0]
    ensures r.1.user == sess.user && r.1.meta == sess.meta && r.1.invitations == sess.invitations
    ensures tenant !in sess.permissions && !sess.user.enabled ==> r.0 == []
    ensures tenant !in sess.permissions && sess.user.enabled && sess.user.admin ==> r.0 == s.permissions
  {
    if tenant in sess.permissions then (sess.permissions[tenant], sess)
    else
      var (ps, sess1) := DefinePermissions(sess, s, tenant);
      (ps, sess1.(permissions := sess.permissions[tenant := ps]))
  }

  /** The rule chain of `definePermissions`, before the answer is memoised. */
  function DefinePermissions(sess: Session, s: Store, tenant: string): (r: (seq<Permission>, Session))
    ensures r.1.user == sess.user && r.1.meta == sess.meta && r.1.invitations == sess.invitations
    ensures !sess.user.enabled ==> r.0 == []
    ensures sess.user.enabled && sess.user.admin ==> r.0 == s.permissions
  {
    if !sess.user.enabled then ([], sess)
    else if sess.user.admin then (s.permissions, sess)
    else
      var (enabled, sess1) := TenantIsEnabled(sess, s, tenant);
      if !enabled then ([], sess1)
      else
        var (owns, sess2) := OwnsTenant(sess1, s, tenant);
        if owns then (OwnerPermissions(s, tenant), sess2)
        else
          var (roles, sess3) := GetRoles(sess2, s, tenant);
          (RolePermissions(s, RoleIds(roles)), sess3)
  }

  /** `hasAllPermissions`: every listed id is among the permissions (true for an empty list). */
  function HasAllPermissions(sess: Session, s: Store, tenant: string, ids: seq<string>): (r: (bool, Session))
    ensures r.1 == GetPermissions(sess, s, tenant).1
    ensures r.0 <==> forall i :: 0 <= i < |ids| ==> exists p :: p in GetPermissions(sess, s, tenant).0 && p.id == ids[i]
  {
    var (have, sess1) := GetPermissions(sess, s, tenant);
    (HasAllValues(PermissionIds(have), ids), sess1)
  }

  /** `hasAnyPermissions`: some listed id is among the permissions (false for an empty list). */
  function HasAnyPermissions(sess: Session, s: Store, tenant: string, ids: seq<string>): (r: (bool, Session))
    ensures r.1 == GetPermissions(sess, s, tenant).1
    ensures r.0 <==> exists i :: 0 <= i < |ids| && exists p :: p in GetPermissions(sess, s, tenant).0 && p.id == ids[i]
  {
    var (have, sess1) := GetPermissions(sess, s, tenant);
    (HasAnyValues(PermissionIds(have), ids), sess1)
  }

  /** `canDoAll`: every listed name is the name of a permission held (case-sensitive; true for an empty list). */
  function CanDoAll(sess: Session, s: Store, tenant: string, names: seq<string>): (r: (bool, Session))
    ensures r.1 == GetPermissions(sess, s, tenant).1
    ensures r.0 <==> forall i :: 0 <= i < |names| ==> exists p :: p in GetPermissions(sess, s, tenant).0 && p.name == names[i]
  {
    var (have, sess1) := GetPermissions(sess, s, tenant);
    (HasAllValues(PermissionNames(have), names), sess1)
  }

  /** `canDoAny`: some listed name is the name of a permission held (false for an empty list). */
  function CanDoAny(sess: Session, s: Store, tenant: string, names: seq<string>): (r: (bool, Session))
    ensures r.1 == GetPermissions(sess, s, tenant).1
    ensures r.0 <==> exists i :: 0 <= i < |names| && exists p :: p in GetPermissions(sess, s, tenant).0 && p.name == names[i]
  {
    var (have, sess1) := GetPermissions(sess, s, tenant);
    (HasAnyValues(PermissionNames(have), names), sess1)
  }

  // ----- Invitations and meta -----

  /** `getTenantInvitations`: the live invitations addressed to the user's email, loaded once per session. */
  function GetTenantInvitations(sess: Session, s: Store): (r: (seq<Invitation>, Session))
    ensures sess.invitations.Some? ==> r == (sess.invitations.value, sess)
    ensures sess.invitations.None? ==>
      (forall v :: v in r.0 <==> v in s.invitations && v.email == sess.user.email && !v.deleted)
    ensures r.1 == sess.(invitations := Some(r.0))
  {
    if sess.invitations.Some? then (sess.invitations.value, sess)
    else
      var mine := (v: Invitation) => v.email == sess.user.email && !v.deleted;
      Seqs.FilterMembers(s.invitations, mine);
      var vs := Seqs.Filter(s.invitations, mine);
      (vs, sess.(invitations := Some(vs)))
  }

  /** `hasTenantInvitation`. */
  function HasTenantInvitation(sess: Session, s: Store, id: string): (r: (bool, Session))
    ensures r.1 == GetTenantInvitations(sess, s).1
    ensures r.0 <==> exists v :: v in GetTenantInvitations(sess, s).0 && v.id == id
  {
    var (vs, sess1) := GetTenantInvitations(sess, s);
    (id in Seqs.Map(vs, (v: Invitation) => v.id), sess1)
  }

  /**
   * `getUserMeta`: the value is read through a fresh meta model (both
   * prefix flags off, so a protected key reads as null). A found value is
   * memoised; null is stored too, but `isset` is false for null, so the
   * next call queries again.
   */
  function GetUserMeta(sess: Session, rows: seq<UserMeta.MetaRow>, cfg: RbacService.Config, key: string): (r: (Option<Json.Json>, Session))
    ensures key in sess.meta ==> r == (Some(sess.meta[key]), sess)
    ensures r.0.Some? ==> r.1 == sess.(meta := sess.meta[key := r.0.value])
    ensures r.0.None? ==> r.1 == sess
    ensures key !in sess.meta && UserMeta.Valid(rows) ==>
      (r.0.Some? <==> UserMeta.HasKey(rows, sess.user.id, key)
                      && !ProtectedPrefix.StartsWithInsensitive(key, RbacService.ProtectedPrefix(cfg)))
  {
    if key in sess.meta then (Some(sess.meta[key]), sess)
    else
      var found := UserMeta.FindByKey(UserMeta.MetaModel(rows, ProtectedPrefix.Default), cfg, sess.user.id, key).0;
      if found.Ok? then (Some(found.value.value), sess.(meta := sess.meta[key := found.value.value]))
      else (None, sess)
  }

  // ----- The queries against the relations -----

  /** The session's memberships, if loaded, are those the store holds now. */
  ghost predicate Current(sess: Session, s: Store) {
    sess.tenants.None? || sess.tenants == Some(Memberships(s, sess.user.id))
  }

  /** A membership of `tenant` is the join of a `tenant_users` row of the user with that (existing) tenant, and one exists exactly when the user belongs. */
  lemma MembershipsOfTenant(s: Store, user: string, tenant: string)
    ensures forall m :: m in Memberships(s, user) && m.tenant.id == tenant ==>
      TenantById(s, tenant) == Some(m.tenant) &&
      exists tu :: tu in s.tenantUsers && tu.user == user && tu.tenant == tenant && tu.id == m.tenantUser
    ensures Belongs(s, user, tenant) <==> exists m :: m in Memberships(s, user) && m.tenant.id == tenant
  {
    var ms := Memberships(s, user);
    if Belongs(s, user, tenant) {
      var tu :| tu in s.tenantUsers && tu.tenant == tenant && tu.user == user;
      assert Membership(tu.id, TenantById(s, tu.tenant).value) in ms;
    }
  }

  /** Loaded from the store, the user is in a tenant exactly when they belong to it. */
  lemma InTenantQuery(sess: Session, s: Store, tenant: string)
    requires Current(sess, s)
    ensures InTenant(sess, s, tenant).0 <==> Belongs(s, sess.user.id, tenant)
  {
    var ms := LoadTenants(sess, s).tenants.value;
    MembershipsOfTenant(s, sess.user.id, tenant);
    var ts := GetTenants(sess, s).0;
    if InTenant(sess, s, tenant).0 {
      var t :| t in ts && t.id == tenant;
      var i :| 0 <= i < |ts| && ts[i] == t;
      assert ms[i] in ms;
    }
    if Belongs(s, sess.user.id, tenant) {
      var m :| m in ms && m.tenant.id == tenant;
      assert m.tenant in ts;
    }
  }

  /** Loaded from the store, a tenant is an enabled tenant of the user exactly when they belong to it and its `enabled` is `true`. */
  lemma EnabledQuery(sess: Session, s: Store, tenant: string)
    requires Current(sess, s)
    ensures InEnabledTenant(sess, s, tenant).0 <==>
      Belongs(s, sess.user.id, tenant) && TenantById(s, tenant).value.enabled == RbacService.VBool(true)
  {
    MembershipsOfTenant(s, sess.user.id, tenant);
  }

  /** Loaded from the store, the user owns a tenant exactly when they belong to it and its `owner` is them. */
  lemma OwnsQuery(sess: Session, s: Store, tenant: string)
    requires Current(sess, s)
    ensures OwnsTenant(sess, s, tenant).0 <==>
      Belongs(s, sess.user.id, tenant) && TenantById(s, tenant).value.owner == Some(sess.user.id)
  {
    var user := sess.user.id;
    var ms := LoadTenants(sess, s).tenants.value;
    MembershipsOfTenant(s, user, tenant);
    var ts := GetTenants(sess, s).0;
    if OwnsTenant(sess, s, tenant).0 {
      var t :| t in ts && t.id == tenant && t.owner == Some(user);
      var i :| 0 <= i < |ts| && ts[i] == t;
      assert ms[i] in ms;
    }
    if Belongs(s, user, tenant) && TenantById(s, tenant).value.owner == Some(user) {
      var m :| m in ms && m.tenant.id == tenant;
      assert m.tenant in ts;
    }
  }

  /**
   * Loaded from the store, `getTenantUserId` is null exactly for a tenant the
   * user does not belong to, and otherwise, under the unique (tenant, user)
   * pair, the id of their one row there.
   */
  lemma TenantUserIdQuery(sess: Session, s: Store, tenant: string)
    requires Current(sess, s)
    ensures TenantUserId(sess, s, tenant).0.None? <==> !Belongs(s, sess.user.id, tenant)
    ensures Keys(s) ==> forall tu :: tu in s.tenantUsers && tu.user == sess.user.id && tu.tenant == tenant && TenantById(s, tenant).Some? ==>
      TenantUserId(sess, s, tenant).0 == Some(tu.id)
  {
    var user := sess.user.id;
    var ms := LoadTenants(sess, s).tenants.value;
    MembershipsOfTenant(s, user, tenant);
    if Keys(s) {
      forall tu | tu in s.tenantUsers && tu.user == user && tu.tenant == tenant && TenantById(s, tenant).Some?
        ensures TenantUserId(sess, s, tenant).0 == Some(tu.id)
      {
        assert Belongs(s, user, tenant);
        var m := FirstMembership(ms, tenant).value;
        var tu2 :| tu2 in s.tenantUsers && tu2.user == user && tu2.tenant == tenant && tu2.id == m.tenantUser;
        Seqs.UniqueByMembers(s.tenantUsers, (x: TenantUser) => (x.tenant, x.user), tu, tu2);
      }
    }
  }

  /**
   * Loaded from the store, a tenant's roles are exactly the roles the user
   * holds there through their membership; a user outside the tenant has
   * none.
   */
  lemma RolesQuery(sess: Session, s: Store, tenant: string)
    requires Keys(s) && Current(sess, s) && tenant !in sess.roles
    ensures forall role :: role in GetRoles(sess, s, tenant).0 <==> RoleHeld(s, sess.user.id, tenant, role)
  {
    var user := sess.user.id;
    TenantUserIdQuery(sess, s, tenant);
    var id := TenantUserId(sess, s, tenant).0;
    forall role
      ensures role in GetRoles(sess, s, tenant).0 <==> RoleHeld(s, user, tenant, role)
    {
      if id.Some? {
        assert Belongs(s, user, tenant);
        if role in GetRoles(sess, s, tenant).0 {
          var ur :| ur in s.userRoles && ur.tenantUser == id.value && RoleById(s, ur.role) == Some(role);
          var tu :| tu in s.tenantUsers && tu.user == user && tu.tenant == tenant;
          assert TenantUserId(sess, s, tenant).0 == Some(tu.id);
        }
        if RoleHeld(s, user, tenant, role) {
          var tu, ur :| tu in s.tenantUsers && tu.user == user && tu.tenant == tenant
            && ur in s.userRoles && ur.tenantUser == tu.id && RoleById(s, ur.role) == Some(role);
          assert TenantUserId(sess, s, tenant).0 == Some(tu.id);
        }
      }
    }
  }

  /** Loaded from the store, a tenant's teams are exactly the teams the user is in there; a user outside the tenant has none. */
  lemma TeamsQuery(sess: Session, s: Store, tenant: string)
    requires Keys(s) && Current(sess, s) && tenant !in sess.teams
    ensures forall team :: team in GetTeams(sess, s, tenant).0 <==> TeamHeld(s, sess.user.id, tenant, team)
  {
    var user := sess.user.id;
    TenantUserIdQuery(sess, s, tenant);
    var id := TenantUserId(sess, s, tenant).0;
    forall team
      ensures team in GetTeams(sess, s, tenant).0 <==> TeamHeld(s, user, tenant, team)
    {
      if id.Some? {
        assert Belongs(s, user, tenant);
        if team in GetTeams(sess, s, tenant).0 {
          var ut :| ut in s.userTeams && ut.tenantUser == id.value && TeamById(s, ut.team) == Some(team);
          var tu :| tu in s.tenantUsers && tu.user == user && tu.tenant == tenant;
          assert TenantUserId(sess, s, tenant).0 == Some(tu.id);
        }
        if TeamHeld(s, user, tenant, team) {
          var tu, ut :| tu in s.tenantUsers && tu.user == user && tu.tenant == tenant
            && ut in s.userTeams && ut.tenantUser == tu.id && TeamById(s, ut.team) == Some(team);
          assert TenantUserId(sess, s, tenant).0 == Some(tu.id);
        }
      }
    }
  }

  /** The permissions of a list of roles are those reachable from some role of the list. */
  lemma RolePermissionsOfRoles(s: Store, roles: seq<Role>, p: Permission)
    ensures p in RolePermissions(s, RoleIds(roles)) <==>
      exists role, rp, tp :: role in roles && rp in s.rolePermissions && rp.role == role.id
        && TenantPermissionById(s, rp.tenantPermission) == Some(tp) && PermissionById(s, tp.permission) == Some(p)
  {
    var ids := RoleIds(roles);
    if p in RolePermissions(s, ids) {
      var rp, tp :| rp in s.rolePermissions && rp.role in ids
        && TenantPermissionById(s, rp.tenantPermission) == Some(tp) && PermissionById(s, tp.permission) == Some(p);
      var i :| 0 <= i < |ids| && ids[i] == rp.role;
      assert roles[i] in roles;
    }
    if exists role, rp, tp :: role in roles && rp in s.rolePermissions && rp.role == role.id
        && TenantPermissionById(s, rp.tenantPermission) == Some(tp) && PermissionById(s, tp.permission) == Some(p) {
      var role, rp, tp :| role in roles && rp in s.rolePermissions && rp.role == role.id
        && TenantPermissionById(s, rp.tenantPermission) == Some(tp) && PermissionById(s, tp.permission) == Some(p);
      assert rp.role in ids;
    }
  }

  /**
   * The resolver agrees with the decision table: computed from the store,
   * the permissions of the user in a tenant are exactly those
   * `PermissionGranted` allows.
   */
  lemma PermissionsQuery(sess: Session, s: Store, tenant: string)
    requires Keys(s) && Current(sess, s) && tenant !in sess.permissions && tenant !in sess.roles
    ensures forall p :: p in GetPermissions(sess, s, tenant).0 <==> PermissionGranted(s, sess.user, tenant, p)
  {
    var u := sess.user;
    if u.enabled && !u.admin {
      EnabledQuery(sess, s, tenant);
      var sess1 := TenantIsEnabled(sess, s, tenant).1;
      assert sess1 == LoadTenants(sess, s);
      if TenantIsEnabled(sess, s, tenant).0 {
        OwnsQuery(sess1, s, tenant);
        var owns := OwnsTenant(sess1, s, tenant).0;
        if !owns {
          RolesQuery(sess1, s, tenant);
          var roles := GetRoles(sess1, s, tenant).0;
          forall p
            ensures p in GetPermissions(sess, s, tenant).0 <==> PermissionGranted(s, u, tenant, p)
          {
            RolePermissionsOfRoles(s, roles, p);
          }
        }
      }
    }
  }

  /** Loaded from the store, the user's invitations are the live ones addressed to their email. */
  lemma InvitationQuery(sess: Session, s: Store, id: string)
    requires sess.invitations.None?
    ensures HasTenantInvitation(sess, s, id).0 <==>
      exists v :: v in s.invitations && v.id == id && v.email == sess.user.email && !v.deleted
  {
    var vs := GetTenantInvitations(sess, s).0;
    if HasTenantInvitation(sess, s, id).0 {
      var ids := Seqs.Map(vs, (v: Invitation) => v.id);
      var i :| 0 <= i < |ids| && ids[i] == id;
      assert vs[i] in vs;
    }
  }

  /** The user of the de-duplication example: an enabled member who neither administers nor owns. */
  function SampleUser(): UserRec {
    UserRec("u", "u@example.com", false, true, 0, None, None, "", "")
  }

  /** A tenant owned by someone else in which the sample user holds two roles that grant the same tenant permission. */
  function SampleStore(): Store {
    Store([SampleUser()], [TenantRec("t", Some("o"), "example.com", "T", RbacService.VBool(true))],
          [TenantUser("m", "t", "u")], [Permission("p", "read")],
          [TenantPermission("tp", "t", "p")], [Role("r1", "t", "A"), Role("r2", "t", "B")],
          [RolePermission("g1", "r1", "tp"), RolePermission("g2", "r2", "tp")],
          [UserRole("x1", "m", "r1"), UserRole("x2", "m", "r2")], [], [], [])
  }

  lemma SampleRoles()
    ensures RolesFor(SampleStore(), "m") == [Role("r1", "t", "A"), Role("r2", "t", "B")]
  {
    var s := SampleStore();
    assert "r1"[1] != "r2"[1];
    assert RoleById(s, "r1") == Some(s.roles[0]);
    assert RoleById(s, "r2") == Some(s.roles[1]);
    assert s.userRoles[1..] == [s.userRoles[1]];
  }

  lemma SampleRolePermissions()
    ensures RolePermissions(SampleStore(), ["r1", "r2"]) == [Permission("p", "read"), Permission("p", "read")]
  {
    var s := SampleStore();
    assert TenantPermissionById(s, "tp") == Some(s.tenantPermissions[0]);
    assert PermissionById(s, "p") == Some(s.permissions[0]);
    assert s.rolePermissions[1..] == [s.rolePermissions[1]];
  }

  /**
   * The role branch does not de-duplicate: a member whose two roles both
   * grant the same tenant permission sees that permission twice.
   */
  lemma PermissionsNotDeduplicated()
    ensures GetPermissions(Open(SampleUser()), SampleStore(), "t").0 == [Permission("p", "read"), Permission("p", "read")]
  {
    var s := SampleStore();
    var t := s.tenants[0];
    assert TenantById(s, "t") == Some(t);
    var ms := Memberships(s, "u");
    assert ms == [Membership("m", t)];
    var sess1 := LoadTenants(Open(SampleUser()), s);
    assert TenantIsEnabled(Open(SampleUser()), s, "t") == (true, sess1);
    assert GetTenants(sess1, s).0 == [t];
    assert OwnsTenant(sess1, s, "t").0 == false;
    assert TenantUserId(sess1, s, "t").0 == Some("m");
    SampleRoles();
    var roles := GetRoles(sess1, s, "t").0;
    assert RoleIds(roles) == ["r1", "r2"];
    SampleRolePermissions();
  }
}
