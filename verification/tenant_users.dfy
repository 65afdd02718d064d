/**
 * `TenantUsersModel`: the membership rows of tenants and the hooks that stop
 * a tenant's owner from being moved or removed out of its own tenant.
 *
 * The `tenant` and `user` columns must name existing rows (a missing one is
 * `DoesNotExist`), the (tenant, user) pair is unique (`AlreadyExists`), and a
 * colliding fresh id is a store failure (`Unexpected`).
 */
module TenantUsers {
  import opened Wrappers
  import opened Errors
  import opened Store
  import Rules
  import Seqs

  predicate IdUsed(s: Store, id: string) {
    exists tu :: tu in s.tenantUsers && tu.id == id
  }

  /** The write rules of the fields a create supplies: `tenant` and `user` are UUIDs. */
  predicate FieldsValid(tenant: string, user: string) {
    Rules.IsUuid(tenant) && Rules.IsUuid(user)
  }

  /** `create`: a new membership row; the write rules are checked first. */
  function Create(s: Store, freshId: string, tenant: string, user: string): (r: (Result<TenantUser, OrmError>, Store))
    ensures r.0.Err? ==> r.1 == s
    ensures r.0 == Err(InvalidField) <==> !FieldsValid(tenant, user)
    ensures r.0 == Err(DoesNotExist) <==> FieldsValid(tenant, user) && (TenantById(s, tenant).None? || UserById(s, user).None?)
    ensures r.0 == Err(AlreadyExists) <==>
      FieldsValid(tenant, user) && TenantById(s, tenant).Some? && UserById(s, user).Some? && IsMember(s, tenant, user)
    ensures r.0.Ok? <==>
      && FieldsValid(tenant, user)
      && TenantById(s, tenant).Some? && UserById(s, user).Some? && !IsMember(s, tenant, user) && !IdUsed(s, freshId)
    ensures r.0.Ok? ==>
      && r.0.value == TenantUser(freshId, tenant, user)
      && r.1 == s.(tenantUsers := s.tenantUsers + [r.0.value])
      && IsMember(r.1, tenant, user)
    ensures Valid(s) ==> Valid(r.1)
  {
    if !FieldsValid(tenant, user) then (Err(InvalidField), s)
    else if TenantById(s, tenant).None? || UserById(s, user).None? then (Err(DoesNotExist), s)
    else if UserInTenant(s, tenant, user) then (Err(AlreadyExists), s)
    else if IdUsed(s, freshId) then (Err(Unexpected), s)
    else
      var row := TenantUser(freshId, tenant, user);
      var s' := s.(tenantUsers := s.tenantUsers + [row]);
      AppendKeepsValid(s, row);
      assert row in s'.tenantUsers;
      (Ok(row), s')
  }

  /** Appending a membership row with a fresh id and a fresh pair keeps the store valid. */
  lemma AppendKeepsValid(s: Store, row: TenantUser)
    requires !IdUsed(s, row.id) && !IsMember(s, row.tenant, row.user)
    ensures Valid(s) ==> Valid(s.(tenantUsers := s.tenantUsers + [row]))
  {
    if Valid(s) {
      var s' := s.(tenantUsers := s.tenantUsers + [row]);
      forall i | 0 <= i < |s.tenantUsers|
        ensures s.tenantUsers[i].id != row.id && (s.tenantUsers[i].tenant, s.tenantUsers[i].user) != (row.tenant, row.user)
      {
        assert s.tenantUsers[i] in s.tenantUsers;
      }
      Seqs.UniqueByAppend(s.tenantUsers, (tu: TenantUser) => tu.id, row);
      Seqs.UniqueByAppend(s.tenantUsers, (tu: TenantUser) => (tu.tenant, tu.user), row);
      forall t | t in s'.tenants && t.owner.Some?
        ensures IsMember(s', t.id, t.owner.value)
      {
        var w :| w in s.tenantUsers && w.tenant == t.id && w.user == t.owner.value;
        assert w in s'.tenantUsers;
      }
    }
  }

  /**
   * Whether the update hook refuses the change: once the row is the
   * membership of its tenant's owner, neither its tenant nor its user may
   * change (`InvalidField`); an owner lookup that fails is `Unexpected`.
   */
  function UpdateGuard(s: Store, existing: TenantUser, tenant: Option<string>, user: Option<string>): (r: Option<OrmError>)
    ensures r == Some(Unexpected) <==> GetOwnerId(s, existing.tenant).Err?
    ensures r == Some(InvalidField) <==>
      && GetOwnerId(s, existing.tenant).Ok?
      && existing.user == GetOwnerId(s, existing.tenant).value
      && ((tenant.Some? && tenant.value != existing.tenant) || (user.Some? && user.value != existing.user))
    ensures r.Some? ==> r == Some(Unexpected) || r == Some(InvalidField)
  {
    match GetOwnerId(s, existing.tenant)
    case Err(_) => Some(Unexpected)
    case Ok(owner) =>
      if tenant.Some? && existing.user == owner && tenant.value != existing.tenant then Some(InvalidField)
      else if user.Some? && existing.user == owner && user.value != owner then Some(InvalidField)
      else None
  }

  /** The write rules on the columns an update supplies: each present id is a UUID. */
  predicate PatchValid(tenant: Option<string>, user: Option<string>) {
    (tenant.Some? ==> Rules.IsUuid(tenant.value)) && (user.Some? ==> Rules.IsUuid(user.value))
  }

  /**
   * `update` of a membership row's `tenant` and/or `user` (`None` leaves a
   * column as it is): the write rules on the supplied columns, the owner
   * guard, then the foreign keys and the unique pair, then the row is
   * rewritten in place under its id.
   */
  function Update(s: Store, id: string, tenant: Option<string>, user: Option<string>): (r: (Result<TenantUser, OrmError>, Store))
    ensures r.0.Err? ==> r.1 == s
    ensures TenantUserById(s, id).None? ==> r.0 == Err(DoesNotExist)
    ensures TenantUserById(s, id).Some? && !PatchValid(tenant, user) ==> r.0 == Err(InvalidField)
    ensures TenantUserById(s, id).Some? && PatchValid(tenant, user) && UpdateGuard(s, TenantUserById(s, id).value, tenant, user).Some? ==>
      r.0 == Err(UpdateGuard(s, TenantUserById(s, id).value, tenant, user).value)
    ensures r.0.Ok? ==>
      var before := TenantUserById(s, id).value;
      && PatchValid(tenant, user)
      && r.0.value == TenantUser(id, tenant.GetOr(before.tenant), user.GetOr(before.user))
      && r.0.value in r.1.tenantUsers
      && (forall tu :: tu in s.tenantUsers && tu.id != id ==> tu in r.1.tenantUsers)
      && r.1 == s.(tenantUsers := r.1.tenantUsers)
    ensures Valid(s) ==> Valid(r.1)
  {
    match Seqs.FirstIndex(s.tenantUsers, (tu: TenantUser) => tu.id == id)
    case None => (Err(DoesNotExist), s)
    case Some(i) =>
      var before := s.tenantUsers[i];
      var guard := UpdateGuard(s, before, tenant, user);
      if !PatchValid(tenant, user) then (Err(InvalidField), s)
      else if guard.Some? then (Err(guard.value), s)
      else
        var row := TenantUser(id, tenant.GetOr(before.tenant), user.GetOr(before.user));
        if TenantById(s, row.tenant).None? || UserById(s, row.user).None? then (Err(DoesNotExist), s)
        else if exists j :: 0 <= j < |s.tenantUsers| && j != i &&
                            (s.tenantUsers[j].tenant, s.tenantUsers[j].user) == (row.tenant, row.user)
        then (Err(AlreadyExists), s)
        else
          var s' := s.(tenantUsers := s.tenantUsers[i := row]);
          GuardProtectsOwnerRow(s, before, tenant, user);
          ReplaceKeepsValid(s, i, row);
          assert row == s'.tenantUsers[i];
          (Ok(row), s')
  }

  /**
   * Rewriting membership row `i` under its own id, with a pair no other row
   * has and without moving an owner's membership, keeps the store valid.
   */
  lemma ReplaceKeepsValid(s: Store, i: nat, row: TenantUser)
    requires i < |s.tenantUsers| && row.id == s.tenantUsers[i].id
    requires forall j :: 0 <= j < |s.tenantUsers| && j != i ==>
               (s.tenantUsers[j].tenant, s.tenantUsers[j].user) != (row.tenant, row.user)
    requires Valid(s) && OwnerRow(s, s.tenantUsers[i]) ==> row.tenant == s.tenantUsers[i].tenant && row.user == s.tenantUsers[i].user
    ensures forall tu :: tu in s.tenantUsers && tu.id != row.id ==> tu in s.tenantUsers[i := row]
    ensures Valid(s) ==> Valid(s.(tenantUsers := s.tenantUsers[i := row]))
  {
    var t' := s.tenantUsers[i := row];
    forall tu | tu in s.tenantUsers && tu.id != row.id
      ensures tu in t'
    {
      var j :| 0 <= j < |s.tenantUsers| && s.tenantUsers[j] == tu;
      assert t'[j] == tu;
    }
    if Valid(s) {
      var s' := s.(tenantUsers := t');
      Seqs.UniqueByUpdate(s.tenantUsers, (tu: TenantUser) => tu.id, i, row);
      Seqs.UniqueByReplace(s.tenantUsers, (tu: TenantUser) => (tu.tenant, tu.user), i, row);
      forall t | t in s'.tenants && t.owner.Some?
        ensures IsMember(s', t.id, t.owner.value)
      {
        var w :| w in s.tenantUsers && w.tenant == t.id && w.user == t.owner.value;
        var j :| 0 <= j < |s.tenantUsers| && s.tenantUsers[j] == w;
        if j == i {
          assert OwnerRow(s, w);
          assert t'[i] == row;
        } else {
          assert t'[j] == w;
        }
      }
    }
  }

  /** Under unique ids, a guard that lets the update through never moves an owner's membership. */
  lemma GuardProtectsOwnerRow(s: Store, existing: TenantUser, tenant: Option<string>, user: Option<string>)
    requires UpdateGuard(s, existing, tenant, user).None?
    ensures Valid(s) && OwnerRow(s, existing) ==>
              tenant.GetOr(existing.tenant) == existing.tenant && user.GetOr(existing.user) == existing.user
  {
    if Valid(s) && OwnerRow(s, existing) {
      var t :| t in s.tenants && t.id == existing.tenant && t.owner == Some(existing.user);
      TenantByIdUnique(s, t);
    }
  }

  /**
   * `delete` of a membership row: the owner's membership of its own tenant is
   * refused (`InvalidRequest`), a failed owner lookup is `Unexpected`;
   * otherwise the row goes with its role and team assignments.
   */
  function Delete(s: Store, id: string): (r: (Result<TenantUser, OrmError>, Store))
    ensures r.0.Err? ==> r.1 == s
    ensures r.0 == Err(DoesNotExist) <==> TenantUserById(s, id).None?
    ensures TenantUserById(s, id).Some? ==>
      var row := TenantUserById(s, id).value;
      && (r.0 == Err(Unexpected) <==> GetOwnerId(s, row.tenant).Err?)
      && (r.0 == Err(InvalidRequest) <==> GetOwnerId(s, row.tenant) == Ok(row.user))
    ensures r.0.Ok? ==> r.1 == RemoveTenantUsers(s, (tu: TenantUser) => tu.id == id) && !IdUsed(r.1, id)
    ensures Valid(s) ==> Valid(r.1)
  {
    match TenantUserById(s, id)
    case None => (Err(DoesNotExist), s)
    case Some(row) =>
      match GetOwnerId(s, row.tenant)
      case Err(_) => (Err(Unexpected), s)
      case Ok(owner) =>
        if row.user == owner then (Err(InvalidRequest), s)
        else
          var p := (tu: TenantUser) => tu.id == id;
          if Valid(s) then
            DeleteSparesOwners(s, row, p);
            (Ok(row), RemoveTenantUsers(s, p))
          else (Ok(row), RemoveTenantUsers(s, p))
  }

  /** The row a delete is allowed to remove is not an owner's membership, so the invariant survives. */
  lemma DeleteSparesOwners(s: Store, row: TenantUser, p: TenantUser -> bool)
    requires Valid(s) && row in s.tenantUsers
    requires GetOwnerId(s, row.tenant).Ok? && GetOwnerId(s, row.tenant).value != row.user
    requires forall tu :: p(tu) <==> tu.id == row.id
    ensures Valid(RemoveTenantUsers(s, p))
  {
    forall tu | tu in s.tenantUsers && p(tu)
      ensures !OwnerRow(s, tu)
    {
      var i :| 0 <= i < |s.tenantUsers| && s.tenantUsers[i] == tu;
      var k :| 0 <= k < |s.tenantUsers| && s.tenantUsers[k] == row;
      Seqs.UniqueByIndex(s.tenantUsers, (x: TenantUser) => x.id, k, i);
      if OwnerRow(s, tu) {
        var t :| t in s.tenants && t.id == tu.tenant && t.owner == Some(tu.user);
        TenantByIdUnique(s, t);
      }
    }
    RemoveKeepsValid(s, p);
  }

  /** Deleting the owner's own membership is refused whatever else holds, and the store is left as it was. */
  lemma OwnerMembershipCannotBeDeleted(s: Store, tenant: TenantRec)
    requires Valid(s) && tenant in s.tenants && tenant.owner.Some? && !FalsyString(tenant.owner.value)
    ensures exists tu :: tu in s.tenantUsers && tu.tenant == tenant.id && tu.user == tenant.owner.value
    ensures forall tu :: tu in s.tenantUsers && tu.tenant == tenant.id && tu.user == tenant.owner.value ==>
              Delete(s, tu.id) == (Err(InvalidRequest), s)
  {
    TenantByIdUnique(s, tenant);
    forall tu | tu in s.tenantUsers && tu.tenant == tenant.id && tu.user == tenant.owner.value
      ensures Delete(s, tu.id) == (Err(InvalidRequest), s)
    {
      var found := TenantUserById(s, tu.id).value;
      var i :| 0 <= i < |s.tenantUsers| && s.tenantUsers[i] == tu;
      var k :| 0 <= k < |s.tenantUsers| && s.tenantUsers[k] == found;
      Seqs.UniqueByIndex(s.tenantUsers, (x: TenantUser) => x.id, k, i);
    }
  }
}
