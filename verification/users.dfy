/**
 * `UsersModel`: user rows, salted password hashing, the verification stamp,
 * the owner guard on deletion and the purge of unverified users.
 *
 * Every update that changes a row also stamps `updated_at` (the column is
 * `ON UPDATE CURRENT_TIMESTAMP`).
 */
module Users {
  import opened Wrappers
  import opened Errors
  import opened Store
  import RbacService
  import Rules
  import Seqs

  /**
   * `App::createPasswordHash(password, salt)`. `PH` stands for the
   * application's password hash, which this model leaves uninterpreted; the
   * `rbac.user.password` filter is taken to be the identity.
   */
  function PasswordHash(PH: (string, string) -> string, password: string, salt: string): string {
    PH(password, salt)
  }

  /** `App::isPasswordHashValid(password, salt, hash)`. */
  predicate PasswordHashValid(PH: (string, string) -> string, password: string, salt: string, hash: string) {
    hash == PH(password, salt)
  }

  predicate IdUsed(s: Store, id: string) {
    exists u :: u in s.users && u.id == id
  }

  predicate EmailUsed(s: Store, email: string) {
    exists u :: u in s.users && u.email == email
  }

  /** Some tenant names the user as its owner. */
  predicate OwnsTenant(s: Store, id: string) {
    exists t :: t in s.tenants && t.owner == Some(id)
  }

  /** `findByEmail`: the user with the email, or `DoesNotExist`. */
  function FindByEmail(s: Store, email: string): (r: Result<UserRec, OrmError>)
    ensures r.Ok? ==> r.value in s.users && r.value.email == email
    ensures r.Err? <==> !EmailUsed(s, email)
    ensures r.Err? ==> r.error == DoesNotExist
  {
    match Seqs.FirstIndex(s.users, (u: UserRec) => u.email == email)
    case None => Err(DoesNotExist)
    case Some(i) => Ok(s.users[i])
  }

  /** The write rules of the fields a create supplies: `email|maxLength:255` and a password of at most 255 characters. */
  predicate FieldsValid(IsEmail: string -> bool, email: string, password: string) {
    Rules.EmailRule(IsEmail, email) && Rules.ShortText(password)
  }

  /**
   * `create`: the fields must pass their write rules (`InvalidField`), and
   * the email must be unused; the stored password is the hash of the
   * supplied one under a freshly made salt, and the user starts unverified
   * and never updated.
   */
  function Create(s: Store, IsEmail: string -> bool, PH: (string, string) -> string, freshId: string, salt: string, email: string,
                  password: string, admin: bool, enabled: bool, now: int): (r: (Result<UserRec, OrmError>, Store))
    ensures r.0.Err? ==> r.1 == s
    ensures r.0 == Err(InvalidField) <==> !FieldsValid(IsEmail, email, password)
    ensures r.0 == Err(AlreadyExists) <==> FieldsValid(IsEmail, email, password) && EmailUsed(s, email)
    ensures r.0.Ok? <==> FieldsValid(IsEmail, email, password) && !EmailUsed(s, email) && !IdUsed(s, freshId)
    ensures r.0.Ok? ==>
      && r.0.value.id == freshId && r.0.value.email == email && r.0.value.salt == salt
      && PasswordHashValid(PH, password, salt, r.0.value.password)
      && r.0.value.verifiedAt.None? && r.0.value.updatedAt.None? && r.0.value.createdAt == now
      && r.0.value.admin == admin && r.0.value.enabled == enabled
      && r.1 == s.(users := s.users + [r.0.value])
    ensures Valid(s) ==> Valid(r.1)
  {
    if !FieldsValid(IsEmail, email, password) then (Err(InvalidField), s)
    else if FindByEmail(s, email).Ok? then (Err(AlreadyExists), s)
    else if IdUsed(s, freshId) then (Err(Unexpected), s)
    else
      var u := UserRec(freshId, email, admin, enabled, now, None, None, PasswordHash(PH, password, salt), salt);
      AppendKeepsValid(s, u);
      (Ok(u), s.(users := s.users + [u]))
  }

  lemma AppendKeepsValid(s: Store, u: UserRec)
    requires !IdUsed(s, u.id) && !EmailUsed(s, u.email)
    ensures Valid(s) ==> Valid(s.(users := s.users + [u]))
  {
    if Valid(s) {
      forall i | 0 <= i < |s.users|
        ensures s.users[i].id != u.id && s.users[i].email != u.email
      {
        assert s.users[i] in s.users;
      }
      Seqs.UniqueByAppend(s.users, (x: UserRec) => x.id, u);
      Seqs.UniqueByAppend(s.users, (x: UserRec) => x.email, u);
    }
  }

  /**
   * `update` of the password: a password longer than 255 characters breaks
   * the write rules (`InvalidField`); otherwise the new password is hashed
   * under the user's existing salt (a missing salt is `DoesNotExist`), and
   * nothing else about the user changes but the update stamp.
   */
  function UpdatePassword(s: Store, PH: (string, string) -> string, id: string, password: string, now: int): (r: (Result<UserRec, OrmError>, Store))
    ensures r.0.Err? ==> r.1 == s && (r.0.error == DoesNotExist || r.0.error == InvalidField)
    ensures r.0 == Err(InvalidField) <==> UserById(s, id).Some? && !Rules.ShortText(password)
    ensures r.0 == Err(DoesNotExist) <==>
      UserById(s, id).None? || (Rules.ShortText(password) && FalsyString(UserById(s, id).value.salt))
    ensures r.0.Ok? ==>
      var before := UserById(s, id).value;
      && r.0.value.salt == before.salt
      && PasswordHashValid(PH, password, before.salt, r.0.value.password)
      && r.0.value == before.(password := r.0.value.password, updatedAt := r.0.value.updatedAt)
      && r.0.value in r.1.users
      && (forall u :: u in s.users && u.id != id ==> u in r.1.users)
      && r.1 == s.(users := r.1.users)
    ensures Valid(s) ==> Valid(r.1)
  {
    match Seqs.FirstIndex(s.users, (u: UserRec) => u.id == id)
    case None => (Err(DoesNotExist), s)
    case Some(i) =>
      var before := s.users[i];
      if !Rules.ShortText(password) then (Err(InvalidField), s)
      else if FalsyString(before.salt) then (Err(DoesNotExist), s)
      else
        var hash := PasswordHash(PH, password, before.salt);
        var u := before.(password := hash, updatedAt := if hash != before.password then Some(now) else before.updatedAt);
        ReplaceKeepsValid(s, i, u);
        (Ok(u), s.(users := s.users[i := u]))
  }

  /** Rewriting user `i` with the same id and email keeps the store valid and the other users listed. */
  lemma ReplaceKeepsValid(s: Store, i: nat, u: UserRec)
    requires i < |s.users| && u.id == s.users[i].id && u.email == s.users[i].email
    ensures u in s.users[i := u]
    ensures forall x :: x in s.users && x.id != u.id ==> x in s.users[i := u]
    ensures Valid(s) ==> Valid(s.(users := s.users[i := u]))
  {
    var us := s.users[i := u];
    assert us[i] == u;
    forall x | x in s.users && x.id != u.id
      ensures x in us
    {
      var j :| 0 <= j < |s.users| && s.users[j] == x;
      assert us[j] == x;
    }
    if Valid(s) {
      Seqs.UniqueByUpdate(s.users, (x: UserRec) => x.id, i, u);
      Seqs.UniqueByUpdate(s.users, (x: UserRec) => x.email, i, u);
    }
  }

  /** The row after `verified_at` is set to `v`; the update stamp moves only when the value changes. */
  function Stamp(u: UserRec, v: Option<int>, now: int): (r: UserRec)
    ensures r.verifiedAt == v
    ensures r == u.(verifiedAt := v, updatedAt := r.updatedAt)
    ensures r.updatedAt == (if u.verifiedAt == v then u.updatedAt else Some(now))
  {
    if u.verifiedAt == v then u else u.(verifiedAt := v, updatedAt := Some(now))
  }

  /** Sets `verified_at` to `v` on every user with the email (an `UPDATE ... WHERE email`). */
  function SetVerified(users: seq<UserRec>, email: string, v: Option<int>, now: int): (r: seq<UserRec>)
    ensures |r| == |users|
    ensures forall i :: 0 <= i < |users| ==>
      r[i] == (if users[i].email == email then Stamp(users[i], v, now) else users[i])
  {
    if |users| == 0 then []
    else [if users[0].email == email then Stamp(users[0], v, now) else users[0]] + SetVerified(users[1..], email, v, now)
  }

  /** `verify`: stamps `verified_at` with the current time on the user with the email. */
  function Verify(s: Store, email: string, now: int): (r: Store)
    ensures |r.users| == |s.users|
    ensures forall i :: 0 <= i < |s.users| ==> r.users[i].id == s.users[i].id && r.users[i].email == s.users[i].email
    ensures forall i :: 0 <= i < |s.users| && s.users[i].email == email ==> r.users[i].verifiedAt == Some(now)
    ensures forall i :: 0 <= i < |s.users| && s.users[i].email != email ==> r.users[i] == s.users[i]
    ensures r == s.(users := r.users)
    ensures Valid(s) ==> Valid(r)
  {
    SetVerifiedKeepsValid(s, email, Some(now), now);
    s.(users := SetVerified(s.users, email, Some(now), now))
  }

  /** `unverify`: clears `verified_at` on the user with the email. */
  function Unverify(s: Store, email: string, now: int): (r: Store)
    ensures |r.users| == |s.users|
    ensures forall i :: 0 <= i < |s.users| ==> r.users[i].id == s.users[i].id && r.users[i].email == s.users[i].email
    ensures forall i :: 0 <= i < |s.users| && s.users[i].email == email ==> r.users[i].verifiedAt.None?
    ensures forall i :: 0 <= i < |s.users| && s.users[i].email != email ==> r.users[i] == s.users[i]
    ensures r == s.(users := r.users)
    ensures Valid(s) ==> Valid(r)
  {
    SetVerifiedKeepsValid(s, email, None, now);
    s.(users := SetVerified(s.users, email, None, now))
  }

  lemma SetVerifiedKeepsValid(s: Store, email: string, v: Option<int>, now: int)
    ensures Valid(s) ==> Valid(s.(users := SetVerified(s.users, email, v, now)))
  {
    if Valid(s) {
      var us := SetVerified(s.users, email, v, now);
      Seqs.UniqueBySameKeys(s.users, us, (x: UserRec) => x.id);
      Seqs.UniqueBySameKeys(s.users, us, (x: UserRec) => x.email);
    }
  }

  /** Verifying and then unverifying leaves every user as it was, up to the update stamp. */
  lemma VerifyThenUnverify(s: Store, email: string, now: int, later: int)
    ensures var r := Unverify(Verify(s, email, now), email, later);
            && |r.users| == |s.users|
            && forall i :: 0 <= i < |s.users| ==>
                 if s.users[i].email == email
                 then r.users[i] == s.users[i].(verifiedAt := None, updatedAt := r.users[i].updatedAt)
                 else r.users[i] == s.users[i]
  {
    var v := Verify(s, email, now);
    var r := Unverify(v, email, later);
    forall i | 0 <= i < |s.users| && s.users[i].email == email
      ensures r.users[i] == s.users[i].(verifiedAt := None, updatedAt := r.users[i].updatedAt)
    {
      assert v.users[i].email == s.users[i].email;
    }
  }

  /**
   * `delete`: a user who owns a tenant cannot be deleted (`InvalidRequest`).
   * Otherwise the row goes with its tenant memberships and their role and
   * team assignments (the `ON DELETE CASCADE` rules); no tenant loses its
   * owner, since the user owns none.
   */
  function Delete(s: Store, id: string): (r: (Result<UserRec, OrmError>, Store))
    ensures r.0.Err? ==> r.1 == s
    ensures r.0 == Err(DoesNotExist) <==> UserById(s, id).None?
    ensures r.0 == Err(InvalidRequest) <==> UserById(s, id).Some? && OwnsTenant(s, id)
    ensures r.0.Ok? <==> UserById(s, id).Some? && !OwnsTenant(s, id)
    ensures r.0.Ok? ==> r.0.value == UserById(s, id).value
    ensures r.0.Ok? ==> forall u :: u in r.1.users <==> u in s.users && u.id != id
    ensures r.0.Ok? ==> forall tu :: tu in r.1.tenantUsers <==> tu in s.tenantUsers && tu.user != id
    ensures r.1.tenants == s.tenants
    ensures forall u :: u in r.1.users ==> u in s.users
    ensures Valid(s) ==> Valid(r.1)
  {
    match UserById(s, id)
    case None => (Err(DoesNotExist), s)
    case Some(u) =>
      if exists i :: 0 <= i < |s.tenants| && s.tenants[i].owner == Some(id) then (Err(InvalidRequest), s)
      else
        var keep := (x: UserRec) => x.id != id;
        var s1 := s.(users := Seqs.Filter(s.users, keep));
        var p := (tu: TenantUser) => tu.user == id;
        Seqs.FilterMembers(s.users, keep);
        DeleteKeepsValid(s, id, s1, p);
        (Ok(u), RemoveTenantUsers(s1, p))
  }

  lemma DeleteKeepsValid(s: Store, id: string, s1: Store, p: TenantUser -> bool)
    requires !OwnsTenant(s, id)
    requires s1 == s.(users := Seqs.Filter(s.users, (x: UserRec) => x.id != id))
    requires forall tu :: p(tu) <==> tu.user == id
    ensures Valid(s) ==> Valid(RemoveTenantUsers(s1, p))
  {
    if Valid(s) {
      Seqs.UniqueByFilter(s.users, (x: UserRec) => x.id, (x: UserRec) => x.id != id);
      Seqs.UniqueByFilter(s.users, (x: UserRec) => x.email, (x: UserRec) => x.id != id);
      assert Valid(s1);
      RemoveKeepsValid(s1, p);
    }
  }

  /**
   * The users `deleteUnverified` selects: never verified and created before
   * the cut-off, and either never updated (new users only) or never updated
   * since the cut-off.
   */
  predicate Unverified(u: UserRec, cutoff: int, newOnly: bool) {
    && u.verifiedAt.None?
    && u.createdAt < cutoff
    && (if newOnly then u.updatedAt.None? else u.updatedAt.None? || u.updatedAt.value < cutoff)
  }

  /** The ids of a user listing, in order. */
  function Ids(users: seq<UserRec>): (r: seq<string>)
    ensures |r| == |users|
    ensures forall i :: 0 <= i < |users| ==> r[i] == users[i].id
  {
    if |users| == 0 then [] else [users[0].id] + Ids(users[1..])
  }

  /** Deletes the users one by one, stopping at the first refusal; the users deleted so far stay deleted. */
  function DeleteEach(s: Store, ids: seq<string>): (r: (Result<(), OrmError>, Store))
    ensures r.1.tenants == s.tenants
    ensures Valid(s) ==> Valid(r.1)
    decreases |ids|
  {
    if |ids| == 0 then (Ok(()), s)
    else
      var d := Delete(s, ids[0]);
      if d.0.Err? then (Err(d.0.error), d.1)
      else DeleteEach(d.1, ids[1..])
  }

  /** Deleting one by one never adds users, and a run that finishes has removed exactly the listed ids. */
  lemma {:induction false} DeleteEachUsers(s: Store, ids: seq<string>)
    ensures forall u :: u in DeleteEach(s, ids).1.users ==> u in s.users
    ensures DeleteEach(s, ids).0.Ok? ==>
      forall u :: u in DeleteEach(s, ids).1.users <==> u in s.users && u.id !in ids
    decreases |ids|
  {
    if |ids| > 0 {
      var d := Delete(s, ids[0]);
      if d.0.Ok? {
        DeleteEachUsers(d.1, ids[1..]);
        assert forall x :: x in ids <==> x == ids[0] || x in ids[1..];
      }
    }
  }

  /**
   * A run stops only on a refusal: a listed user who is gone already
   * (`DoesNotExist`) or owns a tenant (`InvalidRequest`); a run that
   * finishes met no owner.
   */
  lemma {:induction false} DeleteEachStops(s: Store, ids: seq<string>)
    ensures var r := DeleteEach(s, ids);
            && (r.0.Err? ==> r.0.error == DoesNotExist || r.0.error == InvalidRequest)
            && (r.0 == Err(InvalidRequest) ==> exists i :: 0 <= i < |ids| && OwnsTenant(s, ids[i]))
            && (r.0.Ok? ==> forall i :: 0 <= i < |ids| ==> !OwnsTenant(s, ids[i]))
    decreases |ids|
  {
    if |ids| > 0 {
      var d := Delete(s, ids[0]);
      if d.0.Err? {
        assert DeleteEach(s, ids) == (Err(d.0.error), d.1);
      } else {
        assert DeleteEach(s, ids) == DeleteEach(d.1, ids[1..]);
        assert forall x :: OwnsTenant(d.1, x) == OwnsTenant(s, x) by {
          assert d.1.tenants == s.tenants;
        }
        DeleteEachStops(d.1, ids[1..]);
        var r := DeleteEach(d.1, ids[1..]);
        if r.0 == Err(InvalidRequest) {
          var i :| 0 <= i < |ids[1..]| && OwnsTenant(d.1, ids[1..][i]);
          assert ids[i + 1] == ids[1..][i];
        }
        if r.0.Ok? {
          forall i | 0 <= i < |ids|
            ensures !OwnsTenant(s, ids[i])
          {
            if i > 0 {
              assert ids[i] == ids[1..][i - 1];
            }
          }
        }
      }
    }
  }

  /**
   * `deleteUnverified`: does nothing when `user.require_verification` is
   * `false`; otherwise deletes the selected users in listing order and stops
   * at the first one that cannot be deleted.
   */
  function DeleteUnverified(s: Store, cfg: RbacService.Config, cutoff: int, newOnly: bool): (r: (Result<(), OrmError>, Store))
    ensures RbacService.VerificationSwitchedOff(cfg) ==> r == (Ok(()), s)
    ensures Valid(s) ==> Valid(r.1)
    ensures r.1.tenants == s.tenants
    ensures forall u :: u in r.1.users ==> u in s.users
    ensures Valid(s) && !RbacService.VerificationSwitchedOff(cfg) && r.0.Ok? ==>
      forall u :: u in r.1.users <==> u in s.users && !Unverified(u, cutoff, newOnly)
    ensures r.0 == Err(InvalidRequest) ==>
      exists u :: u in s.users && Unverified(u, cutoff, newOnly) && OwnsTenant(s, u.id)
  {
    if RbacService.VerificationSwitchedOff(cfg) then (Ok(()), s)
    else
      var sel := (u: UserRec) => Unverified(u, cutoff, newOnly);
      var ids := Ids(Seqs.Filter(s.users, sel));
      Seqs.FilterMembers(s.users, sel);
      SelectedIds(s, sel, ids);
      DeleteEachUsers(s, ids);
      DeleteEachStops(s, ids);
      DeleteEach(s, ids)
  }

  /** Under unique ids, a user's id is selected exactly when the user is. */
  lemma SelectedIds(s: Store, sel: UserRec -> bool, ids: seq<string>)
    requires ids == Ids(Seqs.Filter(s.users, sel))
    ensures forall i :: 0 <= i < |ids| ==> exists u :: u in s.users && sel(u) && u.id == ids[i]
    ensures Valid(s) ==> forall u :: u in s.users ==> (u.id in ids <==> sel(u))
  {
    var f := Seqs.Filter(s.users, sel);
    Seqs.FilterMembers(s.users, sel);
    forall i | 0 <= i < |ids|
      ensures exists u :: u in s.users && sel(u) && u.id == ids[i]
    {
      assert f[i] in f;
    }
    if Valid(s) {
      forall u | u in s.users
        ensures u.id in ids <==> sel(u)
      {
        SelectedId(s, sel, ids, u);
      }
    }
  }

  /** Under unique ids, one user's id is selected exactly when the user is. */
  lemma SelectedId(s: Store, sel: UserRec -> bool, ids: seq<string>, u: UserRec)
    requires ids == Ids(Seqs.Filter(s.users, sel))
    requires Seqs.UniqueBy(s.users, (x: UserRec) => x.id) && u in s.users
    ensures u.id in ids <==> sel(u)
  {
    var f := Seqs.Filter(s.users, sel);
    Seqs.FilterMembers(s.users, sel);
    if sel(u) {
      assert u in f;
      var k :| 0 <= k < |f| && f[k] == u;
      assert ids[k] == u.id;
    }
    if u.id in ids {
      var k :| 0 <= k < |ids| && ids[k] == u.id;
      assert f[k] in f;
      Seqs.UniqueByMembers(s.users, (x: UserRec) => x.id, u, f[k]);
    }
  }
}
