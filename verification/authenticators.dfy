/**
 * The credential authenticators: password, email (a trusted lookup with no
 * secret), user id, user key and one-time password. Each finds the user,
 * then applies the same two account checks, in the same order: the user is
 * enabled, then verified when the configuration requires it.
 *
 * A storage failure of a lookup is the `up` flag of that lookup: `false`
 * stands for the ORM's `UnexpectedException`.
 */
module Authenticators {
  import opened Wrappers
  import opened Errors
  import opened Store
  import RbacService
  import Users
  import UserKeys
  import UserMeta
  import Json
  import Seqs

  /** The account checks: enabled, and verified when verification is required and `checkVerified` asks for it. */
  predicate Admitted(cfg: RbacService.Config, u: UserRec, checkVerified: bool) {
    u.enabled && (checkVerified && RbacService.RequireVerification(cfg) ==> u.verifiedAt.Some?)
  }

  /** The account checks with their errors: `UserDisabled` first, then `UserNotVerified`. */
  function AccountCheck(cfg: RbacService.Config, u: UserRec, checkVerified: bool): (r: Result<UserRec, AuthError>)
    ensures r.Ok? <==> Admitted(cfg, u, checkVerified)
    ensures r.Ok? ==> r.value == u
    ensures !u.enabled ==> r == Err(UserDisabled)
    ensures u.enabled && !Admitted(cfg, u, checkVerified) ==> r == Err(UserNotVerified)
  {
    if !u.enabled then Err(UserDisabled)
    else if checkVerified && RbacService.RequireVerification(cfg) && u.verifiedAt.None? then Err(UserNotVerified)
    else Ok(u)
  }

  // ------------------------- Password -------------------------

  /**
   * `PasswordAuthenticator::authenticate`: a raw lookup of the email; the
   * password is checked against that row's salt and hash before the user is
   * read through the model (any failure of that read is unexpected), then
   * the account checks.
   */
  function Password(s: Store, cfg: RbacService.Config, PH: (string, string) -> string,
                    email: string, password: string, up: bool): (r: Result<UserRec, AuthError>)
    ensures !Users.EmailUsed(s, email) ==> r == Err(UserDoesNotExist)
    ensures Users.EmailUsed(s, email) ==> var row := Users.FindByEmail(s, email).value;
            !Users.PasswordHashValid(PH, password, row.salt, row.password) ==> r == Err(InvalidPassword)
    ensures Users.EmailUsed(s, email) ==> var row := Users.FindByEmail(s, email).value;
            Users.PasswordHashValid(PH, password, row.salt, row.password) ==>
              && (!up ==> r == Err(UnexpectedAuthentication))
              && (up && UserById(s, row.id).None? ==> r == Err(UnexpectedAuthentication))
              && (up && UserById(s, row.id).Some? ==> r == AccountCheck(cfg, UserById(s, row.id).value, true))
    ensures r.Ok? ==> up && r.value in s.users && Admitted(cfg, r.value, true)
    ensures r.Ok? ==> Users.EmailUsed(s, email) && var row := Users.FindByEmail(s, email).value;
            r.value.id == row.id && Users.PasswordHashValid(PH, password, row.salt, row.password)
  {
    match Users.FindByEmail(s, email)
    case Err(_) => Err(UserDoesNotExist)
    case Ok(row) =>
      if !Users.PasswordHashValid(PH, password, row.salt, row.password) then Err(InvalidPassword)
      else if !up then Err(UnexpectedAuthentication)
      else match UserById(s, row.id)
        case None => Err(UnexpectedAuthentication)
        case Some(u) => AccountCheck(cfg, u, true)
  }

  /** Under unique emails, the user found by an email is any user with it. */
  lemma EmailFindsUser(s: Store, email: string, u: UserRec)
    requires Seqs.UniqueBy(s.users, (x: UserRec) => x.email)
    requires u in s.users && u.email == email
    ensures Users.FindByEmail(s, email) == Ok(u)
  {
    Seqs.UniqueByMembers(s.users, (x: UserRec) => x.email, Users.FindByEmail(s, email).value, u);
  }

  /** Under unique ids, the user found by an id is any user with it. */
  lemma IdFindsUser(s: Store, u: UserRec)
    requires Seqs.UniqueBy(s.users, (x: UserRec) => x.id)
    requires u in s.users
    ensures UserById(s, u.id) == Some(u)
  {
    Seqs.UniqueByMembers(s.users, (x: UserRec) => x.id, UserById(s, u.id).value, u);
  }

  /**
   * Under the users' keys, a password sign-in succeeds exactly for the
   * enabled (and, when required, verified) user with that email whose stored
   * hash is the hash of the password under the stored salt.
   */
  lemma PasswordAcceptsExactly(s: Store, cfg: RbacService.Config, PH: (string, string) -> string,
                               email: string, password: string, up: bool, u: UserRec)
    requires Keys(s)
    ensures Password(s, cfg, PH, email, password, up) == Ok(u) <==>
      up && u in s.users && u.email == email && Users.PasswordHashValid(PH, password, u.salt, u.password)
      && Admitted(cfg, u, true)
  {
    var r := Password(s, cfg, PH, email, password, up);
    if r == Ok(u) {
      EmailFindsUser(s, u.email, u);
    }
    if up && u in s.users && u.email == email {
      EmailFindsUser(s, email, u);
      IdFindsUser(s, u);
    }
  }

  /**
   * A user just created with a password, enabled, signs in with that
   * password when verification is not required, and is refused as not
   * verified when it is.
   */
  lemma CreatedUserSignsIn(s: Store, cfg: RbacService.Config, IsEmail: string -> bool, PH: (string, string) -> string, freshId: string,
                           salt: string, email: string, password: string, admin: bool, now: int)
    requires Keys(s)
    requires Users.Create(s, IsEmail, PH, freshId, salt, email, password, admin, true, now).0.Ok?
    ensures var c := Users.Create(s, IsEmail, PH, freshId, salt, email, password, admin, true, now);
            Password(c.1, cfg, PH, email, password, true) ==
              if RbacService.RequireVerification(cfg) then Err(UserNotVerified) else Ok(c.0.value)
  {
    var c := Users.Create(s, IsEmail, PH, freshId, salt, email, password, admin, true, now);
    var u := c.0.value;
    assert u in c.1.users by { assert c.1.users[|s.users|] == u; }
    assert Keys(c.1) by {
      Seqs.UniqueByAppend(s.users, (x: UserRec) => x.id, u);
      Seqs.UniqueByAppend(s.users, (x: UserRec) => x.email, u);
    }
    EmailFindsUser(c.1, email, u);
    IdFindsUser(c.1, u);
  }

  // ------------------------- Email -------------------------

  /**
   * `EmailAuthenticator::authenticate`: the user with the email, then the
   * account checks. No secret is checked; callers use it after proving
   * control of the address some other way.
   */
  function Email(s: Store, cfg: RbacService.Config, email: string, up: bool): (r: Result<UserRec, AuthError>)
    ensures !up ==> r == Err(UnexpectedAuthentication)
    ensures up && !Users.EmailUsed(s, email) ==> r == Err(UserDoesNotExist)
    ensures r.Ok? ==> r.value in s.users && r.value.email == email && Admitted(cfg, r.value, true)
    ensures up && Users.EmailUsed(s, email) ==> r == AccountCheck(cfg, Users.FindByEmail(s, email).value, true)
  {
    if !up then Err(UnexpectedAuthentication)
    else match Users.FindByEmail(s, email)
      case Err(_) => Err(UserDoesNotExist)
      case Ok(u) => AccountCheck(cfg, u, true)
  }

  /** Under unique emails, the email sign-in succeeds exactly for the admitted user with that email. */
  lemma EmailAcceptsExactly(s: Store, cfg: RbacService.Config, email: string, up: bool, u: UserRec)
    requires Seqs.UniqueBy(s.users, (x: UserRec) => x.email)
    ensures Email(s, cfg, email, up) == Ok(u) <==> up && u in s.users && u.email == email && Admitted(cfg, u, true)
  {
    if up && u in s.users && u.email == email {
      EmailFindsUser(s, email, u);
    }
  }

  // ------------------------- User id -------------------------

  /**
   * `UserIdAuthenticator::authenticate`: the user with the id, then the
   * account checks; the verification check only when `checkVerified`
   * (the source's default is `true`).
   */
  function UserId(s: Store, cfg: RbacService.Config, id: string, checkVerified: bool, up: bool): (r: Result<UserRec, AuthError>)
    ensures !up ==> r == Err(UnexpectedAuthentication)
    ensures up && UserById(s, id).None? ==> r == Err(UserDoesNotExist)
    ensures r.Ok? ==> r.value in s.users && r.value.id == id && Admitted(cfg, r.value, checkVerified)
    ensures up && UserById(s, id).Some? ==> r == AccountCheck(cfg, UserById(s, id).value, checkVerified)
  {
    if !up then Err(UnexpectedAuthentication)
    else match UserById(s, id)
      case None => Err(UserDoesNotExist)
      case Some(u) => AccountCheck(cfg, u, checkVerified)
  }

  /** Under unique ids, the id sign-in succeeds exactly for the admitted user with that id. */
  lemma UserIdAcceptsExactly(s: Store, cfg: RbacService.Config, id: string, checkVerified: bool, up: bool, u: UserRec)
    requires Seqs.UniqueBy(s.users, (x: UserRec) => x.id)
    ensures UserId(s, cfg, id, checkVerified, up) == Ok(u) <==>
      up && u in s.users && u.id == id && Admitted(cfg, u, checkVerified)
  {
    if up && u in s.users && u.id == id {
      IdFindsUser(s, u);
    }
  }

  /** Without the verification check, an enabled but unverified user is let in even when verification is required. */
  lemma UserIdSkipsVerification(s: Store, cfg: RbacService.Config, u: UserRec)
    requires Seqs.UniqueBy(s.users, (x: UserRec) => x.id)
    requires u in s.users && u.enabled && u.verifiedAt.None? && RbacService.RequireVerification(cfg)
    ensures UserId(s, cfg, u.id, false, true) == Ok(u)
    ensures UserId(s, cfg, u.id, true, true) == Err(UserNotVerified)
  {
    IdFindsUser(s, u);
  }

  // ------------------------- User key -------------------------

  /** An allow-list admits `v` when it is null, empty, or contains `v`. */
  predicate Allows(list: Option<seq<string>>, v: string) {
    list.None? || |list.value| == 0 || v in list.value
  }

  /** The key is usable from `domain` and `ip` at `now`: not expired, and both allow-lists admit the request. */
  predicate KeyUsable(k: UserKeys.UserKey, ip: string, domain: string, now: int) {
    now <= k.expiresAt && Allows(k.allowedDomains, domain) && Allows(k.allowedIps, ip)
  }

  /**
   * `UserKeyAuthenticator::authenticate`: the key whose stored hash is the
   * hash of the presented key; it must not have expired (an expired key is
   * kept, not deleted); its domain and IP allow-lists, when non-empty, must
   * contain the request's; then its user, with the account checks. Only a
   * success writes: `last_used` of the key becomes `now`.
   */
  function UserKey(s: Store, keys: seq<UserKeys.UserKey>, cfg: RbacService.Config, KH: string -> string,
                   raw: string, ip: string, domain: string, now: int,
                   keyUp: bool, userUp: bool): (r: (Result<UserRec, AuthError>, seq<UserKeys.UserKey>))
    ensures r.0.Err? ==> r.1 == keys
    ensures !keyUp ==> r.0 == Err(UnexpectedAuthentication)
    ensures keyUp && !UserKeys.HashedKeyExists(keys, UserKeys.KeyHash(KH, raw)) ==> r.0 == Err(InvalidUserKey)
    ensures keyUp && UserKeys.HashedKeyExists(keys, UserKeys.KeyHash(KH, raw)) ==>
      r == CheckKey(s, keys, cfg, UserKeys.FindByKey(UserKeys.KeyModel(keys, ""), KH, raw).0.value, ip, domain, now, userUp)
    ensures r.0.Ok? ==> keyUp && userUp && Admitted(cfg, r.0.value, true)
    ensures r.0.Ok? && UserKeys.Valid(keys) ==>
      exists k :: k in keys && k.keyValue == UserKeys.KeyHash(KH, raw) && KeyUsable(k, ip, domain, now)
           && UserById(s, k.user) == Some(r.0.value) && r.1 == UserKeys.TouchLastUsed(keys, k.id, now)
  {
    if !keyUp then (Err(UnexpectedAuthentication), keys)
    else
      var found := UserKeys.FindByKey(UserKeys.KeyModel(keys, ""), KH, raw);
      match found.0
      case Err(_) => (Err(InvalidUserKey), keys)
      case Ok(k) => CheckKey(s, keys, cfg, k, ip, domain, now, userUp)
  }

  /**
   * The refusals of a stored key, in order: expired (the key is kept), then
   * a domain outside its allow-list, then an IP outside its allow-list.
   */
  lemma KeyRefusals(s: Store, keys: seq<UserKeys.UserKey>, cfg: RbacService.Config, KH: string -> string,
                    raw: string, ip: string, domain: string, now: int, userUp: bool, k: UserKeys.UserKey)
    requires UserKeys.Valid(keys)
    requires k in keys && k.keyValue == UserKeys.KeyHash(KH, raw)
    ensures var r := UserKey(s, keys, cfg, KH, raw, ip, domain, now, true, userUp);
      && (k.expiresAt < now ==> r == (Err(ExpiredUserKey), keys))
      && (now <= k.expiresAt && !Allows(k.allowedDomains, domain) ==> r == (Err(InvalidDomain), keys))
      && (now <= k.expiresAt && Allows(k.allowedDomains, domain) && !Allows(k.allowedIps, ip) ==> r == (Err(InvalidIp), keys))
  {
    var found := UserKeys.FindByKey(UserKeys.KeyModel(keys, ""), KH, raw);
    KeyOfHash(keys, KH, raw, found.0.value);
  }

  /**
   * Under the unique hashed key, the key found is every key with that hash,
   * read without its key value.
   */
  lemma KeyOfHash(keys: seq<UserKeys.UserKey>, KH: string -> string, raw: string, k: UserKeys.UserKey)
    requires UserKeys.Valid(keys)
    requires UserKeys.FindByKey(UserKeys.KeyModel(keys, ""), KH, raw).0 == Ok(k)
    ensures forall x :: x in keys && x.keyValue == UserKeys.KeyHash(KH, raw) ==> k == x.(keyValue := "")
  {
    var y :| y in keys && y.keyValue == UserKeys.KeyHash(KH, raw) && k == y.(keyValue := "");
    forall x | x in keys && x.keyValue == UserKeys.KeyHash(KH, raw)
      ensures k == x.(keyValue := "")
    {
      Seqs.UniqueByMembers(keys, (z: UserKeys.UserKey) => z.keyValue, x, y);
    }
  }

  /** The checks after the key is found, in the source's order. */
  function CheckKey(s: Store, keys: seq<UserKeys.UserKey>, cfg: RbacService.Config, k: UserKeys.UserKey,
                    ip: string, domain: string, now: int, userUp: bool): (r: (Result<UserRec, AuthError>, seq<UserKeys.UserKey>))
    ensures r.0.Err? ==> r.1 == keys
    ensures k.expiresAt < now ==> r.0 == Err(ExpiredUserKey)
    ensures now <= k.expiresAt && !Allows(k.allowedDomains, domain) ==> r.0 == Err(InvalidDomain)
    ensures now <= k.expiresAt && Allows(k.allowedDomains, domain) && !Allows(k.allowedIps, ip) ==> r.0 == Err(InvalidIp)
    ensures KeyUsable(k, ip, domain, now) && !userUp ==> r.0 == Err(UnexpectedAuthentication)
    ensures KeyUsable(k, ip, domain, now) && userUp && UserById(s, k.user).None? ==> r.0 == Err(UserDoesNotExist)
    ensures KeyUsable(k, ip, domain, now) && userUp && UserById(s, k.user).Some? ==>
      r.0 == AccountCheck(cfg, UserById(s, k.user).value, true)
    ensures r.0.Ok? ==>
      && userUp && KeyUsable(k, ip, domain, now) && Admitted(cfg, r.0.value, true)
      && UserById(s, k.user) == Some(r.0.value) && r.1 == UserKeys.TouchLastUsed(keys, k.id, now)
  {
    if k.expiresAt < now then (Err(ExpiredUserKey), keys)
    else if !Allows(k.allowedDomains, domain) then (Err(InvalidDomain), keys)
    else if !Allows(k.allowedIps, ip) then (Err(InvalidIp), keys)
    else if !userUp then (Err(UnexpectedAuthentication), keys)
    else match UserById(s, k.user)
      case None => (Err(UserDoesNotExist), keys)
      case Some(u) =>
        match AccountCheck(cfg, u, true)
        case Err(e) => (Err(e), keys)
        case Ok(_) => (Ok(u), UserKeys.TouchLastUsed(keys, k.id, now))
  }

  /**
   * Under the key and user constraints, a key sign-in succeeds exactly for
   * the admitted owner of a usable key whose hash is the hash of the
   * presented key.
   */
  lemma UserKeyAcceptsExactly(s: Store, keys: seq<UserKeys.UserKey>, cfg: RbacService.Config, KH: string -> string,
                              raw: string, ip: string, domain: string, now: int, u: UserRec)
    requires UserKeys.Valid(keys) && Seqs.UniqueBy(s.users, (x: UserRec) => x.id)
    ensures UserKey(s, keys, cfg, KH, raw, ip, domain, now, true, true).0 == Ok(u) <==>
      exists k :: k in keys && k.keyValue == UserKeys.KeyHash(KH, raw) && KeyUsable(k, ip, domain, now)
        && u in s.users && u.id == k.user && Admitted(cfg, u, true)
  {
    var r := UserKey(s, keys, cfg, KH, raw, ip, domain, now, true, true);
    if exists k :: k in keys && k.keyValue == UserKeys.KeyHash(KH, raw) && KeyUsable(k, ip, domain, now)
        && u in s.users && u.id == k.user && Admitted(cfg, u, true) {
      var k :| k in keys && k.keyValue == UserKeys.KeyHash(KH, raw) && KeyUsable(k, ip, domain, now)
        && u in s.users && u.id == k.user && Admitted(cfg, u, true);
      var found := UserKeys.FindByKey(UserKeys.KeyModel(keys, ""), KH, raw);
      KeyOfHash(keys, KH, raw, found.0.value);
      IdFindsUser(s, u);
    }
  }

  /**
   * A key just created (with no allow-lists) authenticates its enabled and
   * verified owner with the raw key the create handed back, at any moment up
   * to its expiry, and the sign-in stamps its `last_used`.
   */
  lemma CreatedKeyAuthenticates(s: Store, m: UserKeys.KeyModel, cfg: RbacService.Config, KH: string -> string,
                                users: set<string>, freshId: string, candidates: seq<string>, u: UserRec, name: string,
                                expiresAt: Option<int>, now: int, later: int, ip: string, domain: string)
    requires UserKeys.Valid(m.keys) && Seqs.UniqueBy(s.users, (x: UserRec) => x.id)
    requires u in s.users && Admitted(cfg, u, true)
    requires UserKeys.CreateKey(m, cfg, KH, users, freshId, candidates, u.id, name, None, None, expiresAt, now).0.Ok?
    requires later <= UserKeys.CreateKey(m, cfg, KH, users, freshId, candidates, u.id, name, None, None, expiresAt, now).0.value.expiresAt
    ensures var c := UserKeys.CreateKey(m, cfg, KH, users, freshId, candidates, u.id, name, None, None, expiresAt, now);
            var raw := c.1.stash;
            UserKey(s, c.1.keys, cfg, KH, raw, ip, domain, later, true, true) ==
              (Ok(u), UserKeys.TouchLastUsed(c.1.keys, freshId, later))
  {
    var c := UserKeys.CreateKey(m, cfg, KH, users, freshId, candidates, u.id, name, None, None, expiresAt, now);
    var k := c.0.value;
    assert k in c.1.keys by { assert c.1.keys[|m.keys|] == k; }
    UserKeyAcceptsExactly(s, c.1.keys, cfg, KH, c.1.stash, ip, domain, later, u);
    var found := UserKeys.FindByKey(UserKeys.KeyModel(c.1.keys, ""), KH, c.1.stash);
    KeyOfHash(c.1.keys, KH, c.1.stash, found.0.value);
  }

  /**
   * With no `max_mins` configured, a key created without an expiry expires
   * the moment it is made: any later sign-in with it is refused as expired.
   */
  lemma DefaultKeyExpiresAtOnce(s: Store, m: UserKeys.KeyModel, cfg: RbacService.Config, KH: string -> string,
                                users: set<string>, freshId: string, candidates: seq<string>, user: string, name: string,
                                domains: Option<seq<string>>, ips: Option<seq<string>>,
                                now: int, later: int, ip: string, domain: string)
    requires UserKeys.Valid(m.keys)
    requires RbacService.KeyMaxMinsKey !in cfg
    requires UserKeys.CreateKey(m, cfg, KH, users, freshId, candidates, user, name, domains, ips, None, now).0.Ok?
    requires now < later
    ensures var c := UserKeys.CreateKey(m, cfg, KH, users, freshId, candidates, user, name, domains, ips, None, now);
            UserKey(s, c.1.keys, cfg, KH, c.1.stash, ip, domain, later, true, true) == (Err(ExpiredUserKey), c.1.keys)
  {
    var c := UserKeys.CreateKey(m, cfg, KH, users, freshId, candidates, user, name, domains, ips, None, now);
    var k := c.0.value;
    assert k in c.1.keys by { assert c.1.keys[|m.keys|] == k; }
    assert k.expiresAt == now < later;
    assert UserKeys.HashedKeyExists(c.1.keys, UserKeys.KeyHash(KH, c.1.stash));
    var found := UserKeys.FindByKey(UserKeys.KeyModel(c.1.keys, ""), KH, c.1.stash);
    KeyOfHash(c.1.keys, KH, c.1.stash, found.0.value);
    assert found.0.value.expiresAt < later;
  }

  // ------------------------- One-time password -------------------------

  /**
   * `TotpAuthenticator::authenticate`: the user with the email and the
   * account checks, then the user's valid OTP under `key`, whose stored hash
   * must be the hash of the presented value. A mismatch leaves the OTP in
   * place; a match deletes it, so it can be used once.
   */
  function Totp(s: Store, m: UserMeta.MetaModel, cfg: RbacService.Config, H: string -> string,
                email: string, value: string, key: string, now: int, up: bool): (r: (Result<UserRec, AuthError>, UserMeta.MetaModel))
    ensures r.0.Err? ==> r.1 == m || (Email(s, cfg, email, up).Ok? && r.1 == UserMeta.DeleteTotp(m, Email(s, cfg, email, up).value.id, key).1)
    ensures r.0 == Email(s, cfg, email, up) || (Email(s, cfg, email, up).Ok? && r.0 == Err(TotpDoesNotExist))
    ensures r.0.Ok? ==> UserMeta.HasValidOtp(m.rows, r.0.value.id, key, now)
    ensures r.0.Ok? ==> r.1 == UserMeta.DeleteTotp(m, r.0.value.id, key).1 && !UserMeta.HasKey(r.1.rows, r.0.value.id, key)
  {
    match Email(s, cfg, email, up)
    case Err(e) => (Err(e), m)
    case Ok(u) =>
      var g := UserMeta.GetTotp(m, u.id, key, now);
      match g.0
      case Err(_) => (Err(TotpDoesNotExist), g.1)
      case Ok(t) =>
        if !RbacService.HashMatches(H, t.GetValue(), value) then (Err(TotpDoesNotExist), m)
        else (Ok(u), UserMeta.DeleteTotp(m, u.id, key).1)
  }

  /** The stored OTP of the user under `key` is valid at `now` and holds the hash of `value`. */
  predicate OtpMatches(rows: seq<UserMeta.MetaRow>, H: string -> string, user: string, key: string, value: string, now: int) {
    exists i :: 0 <= i < |rows| && rows[i].user == user && rows[i].key == key && UserMeta.ValidOtp(rows[i].value, now)
      && RbacService.HashMatches(H, Json.StrOr(rows[i].value.fields, "value", ""), value)
  }

  /**
   * Under the keys, an OTP sign-in succeeds exactly for the admitted user
   * with the email whose valid OTP under `key` holds the hash of the value.
   */
  lemma TotpAcceptsExactly(s: Store, m: UserMeta.MetaModel, cfg: RbacService.Config, H: string -> string,
                           email: string, value: string, key: string, now: int, up: bool, u: UserRec)
    requires Seqs.UniqueBy(s.users, (x: UserRec) => x.email) && UserMeta.Valid(m.rows)
    ensures Totp(s, m, cfg, H, email, value, key, now, up).0 == Ok(u) <==>
      up && u in s.users && u.email == email && Admitted(cfg, u, true) && OtpMatches(m.rows, H, u.id, key, value, now)
  {
    EmailAcceptsExactly(s, cfg, email, up, u);
    if Email(s, cfg, email, up) == Ok(u) {
      var g := UserMeta.GetTotp(m, u.id, key, now);
      if g.0.Ok? {
        var i :| 0 <= i < |m.rows| && m.rows[i].user == u.id && m.rows[i].key == key
                 && UserMeta.ValidOtp(m.rows[i].value, now) && g.0.value.GetTotp() == m.rows[i].value.fields;
        if OtpMatches(m.rows, H, u.id, key, value, now) {
          var j :| 0 <= j < |m.rows| && m.rows[j].user == u.id && m.rows[j].key == key && UserMeta.ValidOtp(m.rows[j].value, now)
                   && RbacService.HashMatches(H, Json.StrOr(m.rows[j].value.fields, "value", ""), value);
          UserMeta.KeyIndexUnique(m.rows, u.id, key, i);
          UserMeta.KeyIndexUnique(m.rows, u.id, key, j);
        }
      }
    }
  }

  /** An OTP is single use: after a successful sign-in, the same value is refused. */
  lemma TotpSingleUse(s: Store, m: UserMeta.MetaModel, cfg: RbacService.Config, H: string -> string,
                      email: string, value: string, key: string, now: int, later: int)
    requires Totp(s, m, cfg, H, email, value, key, now, true).0.Ok?
    ensures var r := Totp(s, m, cfg, H, email, value, key, now, true);
            Totp(s, r.1, cfg, H, email, value, key, later, true) == (Err(TotpDoesNotExist), r.1)
  {
  }

  /** A wrong value is refused and leaves the stored OTP as it was, so the right value still works afterwards. */
  lemma WrongValueKeepsOtp(s: Store, m: UserMeta.MetaModel, cfg: RbacService.Config, H: string -> string,
                           email: string, wrong: string, value: string, key: string, now: int)
    requires UserMeta.Valid(m.rows)
    requires Totp(s, m, cfg, H, email, value, key, now, true).0.Ok?
    requires H(wrong) != H(value)
    ensures Totp(s, m, cfg, H, email, wrong, key, now, true) == (Err(TotpDoesNotExist), m)
  {
    var u := Email(s, cfg, email, true).value;
    var g := UserMeta.GetTotp(m, u.id, key, now);
    assert g.0.Ok? && g.1 == m;
  }

  /**
   * Round trip: an OTP created for an admitted user signs that user in with
   * the raw value it returned, at any moment before it expires.
   */
  lemma CreatedOtpSignsIn(s: Store, m: UserMeta.MetaModel, cfg: RbacService.Config, users: set<string>, freshId: string,
                          H: string -> string, u: UserRec, key: string, wait: int, duration: int, raw: string,
                          now: int, later: int)
    requires Seqs.UniqueBy(s.users, (x: UserRec) => x.email) && UserMeta.Valid(m.rows)
    requires u in s.users && Admitted(cfg, u, true)
    requires UserMeta.CreateTotp(m, cfg, users, freshId, H, u.id, key, wait, duration, raw, now).0.Ok?
    requires now <= later && (duration == 0 || later <= now + duration * 60)
    ensures var c := UserMeta.CreateTotp(m, cfg, users, freshId, H, u.id, key, wait, duration, raw, now);
            Totp(s, c.1, cfg, H, u.email, raw, key, later, true).0 == Ok(u)
  {
    var c := UserMeta.CreateTotp(m, cfg, users, freshId, H, u.id, key, wait, duration, raw, now);
    UserMeta.CreateThenGetTotp(m, cfg, users, freshId, H, u.id, key, wait, duration, raw, now, later);
    EmailFindsUser(s, u.email, u);
  }
}
