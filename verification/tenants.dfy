/**
 * `TenantsModel`: tenant rows. Creating a tenant also makes its owner a
 * tenant user (rolled back if that fails), and an owner can only be changed
 * to a user who is already a member.
 */
module Tenants {
  import opened Wrappers
  import opened Errors
  import opened Store
  import RbacService
  import Rules
  import Seqs
  import TenantUsers

  predicate IdUsed(s: Store, id: string) {
    exists t :: t in s.tenants && t.id == id
  }

  predicate DomainUsed(s: Store, domain: string) {
    exists t :: t in s.tenants && t.domain == domain
  }

  /** `findByDomain`: the tenant with the domain, or `DoesNotExist`. */
  function FindByDomain(s: Store, domain: string): (r: Result<TenantRec, OrmError>)
    ensures r.Ok? ==> r.value in s.tenants && r.value.domain == domain
    ensures r.Err? <==> !DomainUsed(s, domain)
    ensures r.Err? ==> r.error == DoesNotExist
  {
    match Seqs.FirstIndex(s.tenants, (t: TenantRec) => t.domain == domain)
    case None => Err(DoesNotExist)
    case Some(i) => Ok(s.tenants[i])
  }

  /**
   * The write rules of the fields a create supplies: the owner is a UUID (36
   * characters), the domain at most 63 characters, the name at most 255,
   * and `enabled`, which may be left out (`VNull`), is a boolean.
   */
  predicate FieldsValid(owner: string, domain: string, name: string, enabled: RbacService.Value) {
    Rules.IsUuid(owner) && |domain| <= 63 && Rules.ShortText(name) && (enabled.VBool? || enabled.VNull?)
  }

  /**
   * `create`: the fields must pass their write rules and the owner must be
   * a user. The domain is stored as `Slug(domain)` (the `onWriting`
   * transform), and that stored form must be unique. After the insert the
   * owner is added as a tenant user, and if that fails the tenant row is
   * deleted again and the call is `Unexpected`.
   */
  function Create(s: Store, Slug: string -> string, freshId: string, freshTenantUser: string, owner: string, domain: string,
                  name: string, enabled: RbacService.Value): (r: (Result<TenantRec, OrmError>, Store))
    ensures r.0.Err? ==> r.1 == s
    ensures !FieldsValid(owner, domain, name, enabled) ==> r.0 == Err(InvalidField)
    ensures r.0 == Err(DoesNotExist) <==> FieldsValid(owner, domain, name, enabled) && UserById(s, owner).None?
    ensures r.0 == Err(AlreadyExists) <==>
      FieldsValid(owner, domain, name, enabled) && UserById(s, owner).Some? && DomainUsed(s, Slug(domain))
    ensures r.0.Ok? <==>
      && FieldsValid(owner, domain, name, enabled) && UserById(s, owner).Some? && !DomainUsed(s, Slug(domain)) && !IdUsed(s, freshId)
      && Rules.IsUuid(freshId) && !IsMember(s, freshId, owner) && !TenantUsers.IdUsed(s, freshTenantUser)
    ensures r.0.Ok? ==>
      && r.0.value == TenantRec(freshId, Some(owner), Slug(domain), name, enabled)
      && r.1.tenants == s.tenants + [r.0.value]
      && r.1.tenantUsers == s.tenantUsers + [TenantUser(freshTenantUser, freshId, owner)]
      && r.1 == s.(tenants := r.1.tenants, tenantUsers := r.1.tenantUsers)
    ensures Valid(s) ==> Valid(r.1)
  {
    var stored := Slug(domain);
    if !FieldsValid(owner, domain, name, enabled) then (Err(InvalidField), s)
    else if UserById(s, owner).None? then (Err(DoesNotExist), s)
    else if FindByDomain(s, stored).Ok? then (Err(AlreadyExists), s)
    else if IdUsed(s, freshId) then (Err(Unexpected), s)
    else
      var t := TenantRec(freshId, Some(owner), stored, name, enabled);
      var s1 := s.(tenants := s.tenants + [t]);
      assert UserById(s1, owner) == UserById(s, owner);
      assert t in s1.tenants;
      match TenantUsers.Create(s1, freshTenantUser, freshId, owner).0
      case Err(_) => (Err(Unexpected), Rollback(s, t))
      case Ok(tu) =>
        var s2 := s1.(tenantUsers := s1.tenantUsers + [tu]);
        CreateKeepsValid(s, t, tu);
        (Ok(t), s2)
  }

  /** The rollback deletes the just-inserted tenant row again, which gives back the store as it was. */
  function Rollback(s: Store, t: TenantRec): (r: Store)
    requires !IdUsed(s, t.id)
    ensures r == s
  {
    var p := (x: TenantRec) => x.id != t.id;
    FreshIdPasses(s, t.id);
    Seqs.FilterDropsAppended(s.tenants, p, t);
    s.(tenants := Seqs.Filter(s.tenants + [t], p))
  }

  lemma FreshIdPasses(s: Store, id: string)
    requires !IdUsed(s, id)
    ensures forall i :: 0 <= i < |s.tenants| ==> s.tenants[i].id != id
  {
    forall i | 0 <= i < |s.tenants|
      ensures s.tenants[i].id != id
    {
      assert s.tenants[i] in s.tenants;
    }
  }

  /** A new tenant with a fresh id and domain, together with its owner's membership, keeps the store valid. */
  lemma CreateKeepsValid(s: Store, t: TenantRec, tu: TenantUser)
    requires !IdUsed(s, t.id) && !DomainUsed(s, t.domain)
    requires tu.tenant == t.id && t.owner == Some(tu.user)
    requires var s1 := s.(tenants := s.tenants + [t]);
             !TenantUsers.IdUsed(s1, tu.id) && !IsMember(s1, tu.tenant, tu.user)
    ensures Valid(s) ==> Valid(s.(tenants := s.tenants + [t], tenantUsers := s.tenantUsers + [tu]))
  {
    if Valid(s) {
      var s1 := s.(tenants := s.tenants + [t]);
      var s2 := s1.(tenantUsers := s.tenantUsers + [tu]);
      forall i | 0 <= i < |s.tenants|
        ensures s.tenants[i].id != t.id && s.tenants[i].domain != t.domain
      {
        assert s.tenants[i] in s.tenants;
      }
      Seqs.UniqueByAppend(s.tenants, (x: TenantRec) => x.id, t);
      Seqs.UniqueByAppend(s.tenants, (x: TenantRec) => x.domain, t);
      forall i | 0 <= i < |s.tenantUsers|
        ensures s.tenantUsers[i].id != tu.id && (s.tenantUsers[i].tenant, s.tenantUsers[i].user) != (tu.tenant, tu.user)
      {
        assert s.tenantUsers[i] in s1.tenantUsers;
      }
      Seqs.UniqueByAppend(s.tenantUsers, (x: TenantUser) => x.id, tu);
      Seqs.UniqueByAppend(s.tenantUsers, (x: TenantUser) => (x.tenant, x.user), tu);
      forall x | x in s2.tenants && x.owner.Some?
        ensures IsMember(s2, x.id, x.owner.value)
      {
        if x == t {
          assert tu in s2.tenantUsers;
        } else {
          var w :| w in s.tenantUsers && w.tenant == x.id && w.user == x.owner.value;
          assert w in s2.tenantUsers;
        }
      }
    }
  }

  /**
   * `update` of the owner: an owner that is not a UUID (36 characters), or
   * a change to someone who is not already a tenant user of this tenant, is
   * `InvalidField`; the new owner must be a user.
   */
  function UpdateOwner(s: Store, id: string, owner: string): (r: (Result<TenantRec, OrmError>, Store))
    ensures r.0.Err? ==> r.1 == s
    ensures TenantById(s, id).None? ==> r.0 == Err(DoesNotExist)
    ensures TenantById(s, id).Some? ==>
      (r.0 == Err(InvalidField) <==> !Rules.IsUuid(owner) || (TenantById(s, id).value.owner != Some(owner) && !IsMember(s, id, owner)))
    ensures r.0.Ok? ==>
      && r.0.value == TenantById(s, id).value.(owner := Some(owner))
      && r.0.value in r.1.tenants
      && r.1 == s.(tenants := r.1.tenants)
      && (forall t :: t in s.tenants && t.id != id ==> t in r.1.tenants)
    ensures Valid(s) ==> Valid(r.1)
    ensures Valid(s) && r.0.Ok? ==> IsMember(r.1, id, owner)
  {
    match Seqs.FirstIndex(s.tenants, (t: TenantRec) => t.id == id)
    case None => (Err(DoesNotExist), s)
    case Some(i) =>
      var before := s.tenants[i];
      if !Rules.IsUuid(owner) then (Err(InvalidField), s)
      else if Some(owner) != before.owner && !UserInTenant(s, id, owner) then (Err(InvalidField), s)
      else if UserById(s, owner).None? then (Err(DoesNotExist), s)
      else
        var t := before.(owner := Some(owner));
        OwnerChangeKeepsValid(s, i, owner);
        assert t == s.tenants[i := t][i];
        (Ok(t), s.(tenants := s.tenants[i := t]))
  }

  /** Handing a tenant to an existing member, or keeping its owner, keeps the store valid. */
  lemma OwnerChangeKeepsValid(s: Store, i: nat, owner: string)
    requires i < |s.tenants|
    requires Some(owner) == s.tenants[i].owner || IsMember(s, s.tenants[i].id, owner)
    ensures forall t :: t in s.tenants && t.id != s.tenants[i].id ==> t in s.tenants[i := s.tenants[i].(owner := Some(owner))]
    ensures Valid(s) ==> Valid(s.(tenants := s.tenants[i := s.tenants[i].(owner := Some(owner))]))
    ensures Valid(s) ==> IsMember(s, s.tenants[i].id, owner)
  {
    var t := s.tenants[i].(owner := Some(owner));
    var ts := s.tenants[i := t];
    forall x | x in s.tenants && x.id != s.tenants[i].id
      ensures x in ts
    {
      var j :| 0 <= j < |s.tenants| && s.tenants[j] == x;
      assert ts[j] == x;
    }
    if Valid(s) {
      var s' := s.(tenants := ts);
      assert s.tenants[i] in s.tenants;
      Seqs.UniqueByUpdate(s.tenants, (x: TenantRec) => x.id, i, t);
      Seqs.UniqueByUpdate(s.tenants, (x: TenantRec) => x.domain, i, t);
      forall x | x in s'.tenants && x.owner.Some?
        ensures IsMember(s', x.id, x.owner.value)
      {
        var j :| 0 <= j < |ts| && ts[j] == x;
        if j != i {
          assert s.tenants[j] == x;
        }
      }
    }
  }

  /**
   * A created tenant is found again by its stored (slugged) domain, and its
   * owner is its owner and a member. When the slug differs from the domain
   * given, looking up that raw domain finds nothing unless another tenant
   * already had it.
   */
  lemma CreateThenFind(s: Store, Slug: string -> string, freshId: string, freshTenantUser: string, owner: string,
                       domain: string, name: string, enabled: RbacService.Value)
    requires Valid(s)
    requires Create(s, Slug, freshId, freshTenantUser, owner, domain, name, enabled).0.Ok?
    ensures var c := Create(s, Slug, freshId, freshTenantUser, owner, domain, name, enabled);
            && FindByDomain(c.1, Slug(domain)) == Ok(c.0.value)
            && (Slug(domain) != domain && !DomainUsed(s, domain) ==> FindByDomain(c.1, domain) == Err(DoesNotExist))
            && (!FalsyString(owner) ==> GetOwnerId(c.1, freshId) == Ok(owner))
            && UserInTenant(c.1, freshId, owner)
  {
    var c := Create(s, Slug, freshId, freshTenantUser, owner, domain, name, enabled);
    var t := c.0.value;
    assert t in c.1.tenants;
    TenantByIdUnique(c.1, t);
    var k := Seqs.FirstIndex(c.1.tenants, (x: TenantRec) => x.domain == Slug(domain)).value;
    var j := |c.1.tenants| - 1;
    Seqs.UniqueByIndex(c.1.tenants, (x: TenantRec) => x.domain, j, k);
    assert TenantUser(freshTenantUser, freshId, owner) in c.1.tenantUsers;
  }
}
