/**
 * `TenantInvitationsModel`: invitations of an email address to a tenant role,
 * and their acceptance, which makes the invited user a tenant user holding
 * the role. Deleting an invitation is a soft delete (the row is marked); an
 * accepted invitation is removed for good.
 */
module Invitations {
  import opened Wrappers
  import opened Errors
  import opened Store
  import RbacService
  import Rules
  import Seqs
  import TenantUsers
  import Users

  predicate IdUsed(s: Store, id: string) {
    exists v :: v in s.invitations && v.id == id
  }

  predicate RoleExists(s: Store, role: string) {
    exists x :: x in s.roles && x.id == role
  }

  /** The tenant user holds the role. */
  predicate HasRole(s: Store, tenantUser: string, role: string) {
    exists ur :: ur in s.userRoles && ur.tenantUser == tenantUser && ur.role == role
  }

  /** The write rules of the fields a create supplies: `email|maxLength:255`, and `tenant` and `role` are UUIDs. */
  predicate FieldsValid(IsEmail: string -> bool, email: string, tenant: string, role: string) {
    Rules.EmailRule(IsEmail, email) && Rules.IsUuid(tenant) && Rules.IsUuid(role)
  }

  /**
   * `create`: the fields must pass their write rules, tenant and role must
   * exist, the (email, tenant) pair is unique (soft-deleted rows included),
   * and the invitation expires `invitation_duration` minutes from now.
   */
  function Create(s: Store, cfg: RbacService.Config, IsEmail: string -> bool, freshId: string, email: string, tenant: string,
                  role: string, now: int): (r: (Result<Invitation, OrmError>, Store))
    ensures r.0.Err? ==> r.1 == s
    ensures r.0 == Err(InvalidField) <==> !FieldsValid(IsEmail, email, tenant, role)
    ensures r.0 == Err(DoesNotExist) <==>
      FieldsValid(IsEmail, email, tenant, role) && (TenantById(s, tenant).None? || !RoleExists(s, role))
    ensures r.0 == Err(AlreadyExists) <==>
      && FieldsValid(IsEmail, email, tenant, role) && TenantById(s, tenant).Some? && RoleExists(s, role)
      && exists v :: v in s.invitations && v.email == email && v.tenant == tenant
    ensures r.0.Ok? <==>
      && FieldsValid(IsEmail, email, tenant, role) && TenantById(s, tenant).Some? && RoleExists(s, role)
      && (forall v :: v in s.invitations ==> v.email != email || v.tenant != tenant) && !IdUsed(s, freshId)
    ensures r.0.Ok? ==>
      && r.0.value == Invitation(freshId, email, tenant, role, now + RbacService.InvitationDuration(cfg) * 60, false)
      && r.1 == s.(invitations := s.invitations + [r.0.value])
    ensures Valid(s) ==> Valid(r.1)
  {
    if !FieldsValid(IsEmail, email, tenant, role) then (Err(InvalidField), s)
    else if TenantById(s, tenant).None? || !RoleExists(s, role) then (Err(DoesNotExist), s)
    else if exists i :: 0 <= i < |s.invitations| && s.invitations[i].email == email && s.invitations[i].tenant == tenant
    then (Err(AlreadyExists), s)
    else if IdUsed(s, freshId) then (Err(Unexpected), s)
    else
      var v := Invitation(freshId, email, tenant, role, now + RbacService.InvitationDuration(cfg) * 60, false);
      AppendKeepsValid(s, v);
      (Ok(v), s.(invitations := s.invitations + [v]))
  }

  lemma AppendKeepsValid(s: Store, v: Invitation)
    requires !IdUsed(s, v.id)
    requires forall i :: 0 <= i < |s.invitations| ==> (s.invitations[i].email, s.invitations[i].tenant) != (v.email, v.tenant)
    ensures Valid(s) ==> Valid(s.(invitations := s.invitations + [v]))
  {
    if Valid(s) {
      forall i | 0 <= i < |s.invitations|
        ensures s.invitations[i].id != v.id
      {
        assert s.invitations[i] in s.invitations;
      }
      Seqs.UniqueByAppend(s.invitations, (x: Invitation) => x.id, v);
      Seqs.UniqueByAppend(s.invitations, (x: Invitation) => (x.email, x.tenant), v);
    }
  }

  /** The soft delete of an expired invitation: the row stays, marked deleted. */
  function SoftDelete(s: Store, id: string): (r: Store)
    ensures |r.invitations| == |s.invitations|
    ensures forall i :: 0 <= i < |s.invitations| ==>
      r.invitations[i] == (if s.invitations[i].id == id then s.invitations[i].(deleted := true) else s.invitations[i])
    ensures r == s.(invitations := r.invitations)
    ensures Valid(s) ==> Valid(r)
  {
    var r := s.(invitations := MarkDeleted(s.invitations, id));
    if Valid(s) then
      Seqs.UniqueBySameKeys(s.invitations, r.invitations, (x: Invitation) => x.id);
      Seqs.UniqueBySameKeys(s.invitations, r.invitations, (x: Invitation) => (x.email, x.tenant));
      r
    else r
  }

  function MarkDeleted(vs: seq<Invitation>, id: string): (r: seq<Invitation>)
    ensures |r| == |vs|
    ensures forall i :: 0 <= i < |vs| ==> r[i] == (if vs[i].id == id then vs[i].(deleted := true) else vs[i])
  {
    if |vs| == 0 then [] else [if vs[0].id == id then vs[0].(deleted := true) else vs[0]] + MarkDeleted(vs[1..], id)
  }

  /** The hard delete of an accepted invitation. */
  function HardDelete(s: Store, id: string): (r: Store)
    ensures forall v :: v in r.invitations <==> v in s.invitations && v.id != id
    ensures r == s.(invitations := r.invitations)
    ensures Valid(s) ==> Valid(r)
  {
    var p := (v: Invitation) => v.id != id;
    Seqs.FilterMembers(s.invitations, p);
    var r := s.(invitations := Seqs.Filter(s.invitations, p));
    if Valid(s) then
      Seqs.UniqueByFilter(s.invitations, (x: Invitation) => x.id, p);
      Seqs.UniqueByFilter(s.invitations, (x: Invitation) => (x.email, x.tenant), p);
      r
    else r
  }

  /**
   * The role grant `acceptInvitation` makes through `TenantUserRolesModel`
   * (that model is not part of this one beyond its table's constraints):
   * tenant user and role must exist, the pair is unique.
   */
  function GrantRole(s: Store, freshId: string, tenantUser: string, role: string): (r: (Result<UserRole, OrmError>, Store))
    ensures r.0.Err? ==> r.1 == s
    ensures r.0 == Err(AlreadyExists) <==>
      TenantUserById(s, tenantUser).Some? && RoleExists(s, role) && HasRole(s, tenantUser, role)
    ensures r.0.Ok? ==> r.1 == s.(userRoles := s.userRoles + [UserRole(freshId, tenantUser, role)])
    ensures r.0.Ok? || r.0 == Err(AlreadyExists) ==> HasRole(r.1, tenantUser, role)
    ensures Valid(s) ==> Valid(r.1)
  {
    if TenantUserById(s, tenantUser).None? || !RoleExists(s, role) then (Err(DoesNotExist), s)
    else if exists i :: 0 <= i < |s.userRoles| && s.userRoles[i].tenantUser == tenantUser && s.userRoles[i].role == role
    then (Err(AlreadyExists), s)
    else if exists i :: 0 <= i < |s.userRoles| && s.userRoles[i].id == freshId then (Err(Unexpected), s)
    else
      var ur := UserRole(freshId, tenantUser, role);
      var s' := s.(userRoles := s.userRoles + [ur]);
      assert ur in s'.userRoles;
      if Valid(s) then
        Seqs.UniqueByAppend(s.userRoles, (x: UserRole) => x.id, ur);
        Seqs.UniqueByAppend(s.userRoles, (x: UserRole) => (x.tenantUser, x.role), ur);
        (Ok(ur), s')
      else (Ok(ur), s')
  }

  /** The membership row acceptance works with: a new one, or the existing one when the user is already a member. */
  function Join(s: Store, freshId: string, tenant: string, user: string): (r: (Result<TenantUser, OrmError>, Store))
    ensures r.0.Err? ==> r.1 == s && r.0 == TenantUsers.Create(s, freshId, tenant, user).0
    ensures r.0.Err? ==> r.0.error != AlreadyExists
    ensures r.0.Ok? ==> r.0.value in r.1.tenantUsers && r.0.value.tenant == tenant && r.0.value.user == user
    ensures !TenantUsers.FieldsValid(tenant, user) ==> r == (Err(InvalidField), s)
    ensures TenantUsers.FieldsValid(tenant, user) && IsMember(s, tenant, user) && TenantById(s, tenant).Some? && UserById(s, user).Some? ==>
      r == (FindByUserId(s, tenant, user), s)
    ensures Valid(s) ==> Valid(r.1)
  {
    var c := TenantUsers.Create(s, freshId, tenant, user);
    if c.0 == Err(AlreadyExists) then (FindByUserId(s, tenant, user), s)
    else
      assert c.0.Ok? ==> c.0.value in c.1.tenantUsers;
      c
  }

  /**
   * `acceptInvitation`: an expired invitation is soft-deleted and the call is
   * `DoesNotExist`. Otherwise the invited email must belong to a user; the
   * user joins the tenant (or keeps the membership it has), receives the role
   * (or keeps it), and the invitation is hard-deleted. A failure after the
   * user joined leaves the membership in place.
   */
  function Accept(s: Store, v: Invitation, now: int, freshTenantUser: string, freshUserRole: string): (r: (Result<(), OrmError>, Store))
    ensures v.expiresAt < now ==> r == (Err(DoesNotExist), SoftDelete(s, v.id))
    ensures v.expiresAt >= now && !Users.EmailUsed(s, v.email) ==> r == (Err(DoesNotExist), s)
    ensures r.0.Ok? ==>
      var u := Users.FindByEmail(s, v.email).value;
      && v.expiresAt >= now
      && (exists tu :: tu in r.1.tenantUsers && tu.tenant == v.tenant && tu.user == u.id && HasRole(r.1, tu.id, v.role))
      && (forall x :: x in r.1.invitations <==> x in s.invitations && x.id != v.id)
    ensures r.1.tenants == s.tenants && r.1.users == s.users
    ensures forall tu :: tu in s.tenantUsers ==> tu in r.1.tenantUsers
    ensures Valid(s) ==> Valid(r.1)
  {
    if v.expiresAt < now then (Err(DoesNotExist), SoftDelete(s, v.id))
    else match Users.FindByEmail(s, v.email)
      case Err(e) => (Err(e), s)
      case Ok(u) =>
        var j := Join(s, freshTenantUser, v.tenant, u.id);
        match j.0
        case Err(e) => (Err(e), s)
        case Ok(tu) =>
          var g := GrantRole(j.1, freshUserRole, tu.id, v.role);
          if g.0.Err? && g.0 != Err(AlreadyExists) then (Err(g.0.error), j.1)
          else
            var d := HardDelete(g.1, v.id);
            assert tu in d.tenantUsers;
            (Ok(()), d)
  }

  /** `acceptFromId`: accepts the invitation with the id unless it is missing or soft-deleted. */
  function AcceptFromId(s: Store, id: string, now: int, freshTenantUser: string, freshUserRole: string): (r: (Result<(), OrmError>, Store))
    ensures (forall v :: v in s.invitations && v.id == id ==> v.deleted) ==> r == (Err(DoesNotExist), s)
    ensures (exists v :: v in s.invitations && v.id == id && !v.deleted) ==>
      exists v :: v in s.invitations && v.id == id && !v.deleted && r == Accept(s, v, now, freshTenantUser, freshUserRole)
  {
    match Seqs.FirstIndex(s.invitations, (v: Invitation) => v.id == id && !v.deleted)
    case None => (Err(DoesNotExist), s)
    case Some(i) => Accept(s, s.invitations[i], now, freshTenantUser, freshUserRole)
  }

  /** `acceptFromEmail`: accepts the live invitation of the email to the tenant, if there is one. */
  function AcceptFromEmail(s: Store, email: string, tenant: string, now: int, freshTenantUser: string,
                           freshUserRole: string): (r: (Result<(), OrmError>, Store))
    ensures (forall v :: v in s.invitations && v.email == email && v.tenant == tenant ==> v.deleted) ==> r == (Err(DoesNotExist), s)
    ensures (exists v :: v in s.invitations && v.email == email && v.tenant == tenant && !v.deleted) ==>
      exists v :: v in s.invitations && v.email == email && v.tenant == tenant && !v.deleted
                  && r == Accept(s, v, now, freshTenantUser, freshUserRole)
  {
    match Seqs.FirstIndex(s.invitations, (v: Invitation) => v.email == email && v.tenant == tenant && !v.deleted)
    case None => (Err(DoesNotExist), s)
    case Some(i) => Accept(s, s.invitations[i], now, freshTenantUser, freshUserRole)
  }

  /**
   * Accepting is idempotent on grants: a user who is already a tenant user
   * holding the role ends up with the same memberships and role assignments;
   * only the invitation goes. The tenant and user ids are UUIDs, so the
   * membership create gets past its write rules to `AlreadyExists`.
   */
  lemma AcceptWhenAlreadyGranted(s: Store, v: Invitation, now: int, freshTenantUser: string, freshUserRole: string)
    requires Valid(s) && v.expiresAt >= now && Users.EmailUsed(s, v.email)
    requires TenantById(s, v.tenant).Some? && RoleExists(s, v.role)
    requires TenantUsers.FieldsValid(v.tenant, Users.FindByEmail(s, v.email).value.id)
    requires var u := Users.FindByEmail(s, v.email).value;
             IsMember(s, v.tenant, u.id) && HasRole(s, FindByUserId(s, v.tenant, u.id).value.id, v.role)
    ensures var r := Accept(s, v, now, freshTenantUser, freshUserRole);
            r.0.Ok? && r.1 == s.(invitations := r.1.invitations)
  {
    var u := Users.FindByEmail(s, v.email).value;
    var tu := FindByUserId(s, v.tenant, u.id).value;
    assert UserById(s, u.id).Some? by {
      var i :| 0 <= i < |s.users| && s.users[i] == u;
    }
    assert TenantUserById(s, tu.id).Some? by {
      var i :| 0 <= i < |s.tenantUsers| && s.tenantUsers[i] == tu;
    }
  }

  /** An expired invitation grants nothing: memberships and role assignments are untouched and the row is only marked. */
  lemma ExpiredGrantsNothing(s: Store, v: Invitation, now: int, freshTenantUser: string, freshUserRole: string)
    requires v.expiresAt < now
    ensures var r := Accept(s, v, now, freshTenantUser, freshUserRole);
            && r.0 == Err(DoesNotExist)
            && r.1.tenantUsers == s.tenantUsers && r.1.userRoles == s.userRoles
            && (forall i :: 0 <= i < |s.invitations| && s.invitations[i].id == v.id ==> r.1.invitations[i].deleted)
  {
  }
}
