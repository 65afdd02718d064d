/**
 * `TokenAuthenticator`: a bearer token is accepted when its signature holds,
 * its `type` is the one asked for, its time claims hold, it is younger than
 * the lifetime the configuration gives its type now, and, when it has a
 * stored record (refresh tokens always, access tokens when revocable), the
 * record its `jti` names is the user's record of that type with the same
 * expiry. Then the user it names must exist and pass the account checks.
 *
 * A token that fails after its type was accepted loses its record; a user
 * that fails loses every token record.
 */
module TokenAuth {
  import opened Wrappers
  import opened Errors
  import opened Json
  import opened Store
  import RbacService
  import Jwt
  import UserMeta
  import ProtectedPrefix
  import Authenticators
  import Seqs

  /** The token's age limit: `iat` (0 when absent) plus the configured lifetime of its type (the access one for any type but refresh). */
  function ConfiguredExpiry(cfg: RbacService.Config, c: Jwt.Claims, typeName: string): int {
    c.iat.GetOr(0) + Jwt.Lifetime(cfg, if typeName == "refresh" then Jwt.Refresh else Jwt.Access)
  }

  /** Whether the stored record is checked: for refresh tokens, and for every type when tokens are revocable. */
  predicate RecordChecked(cfg: RbacService.Config, typeName: string) {
    typeName == "refresh" || RbacService.Revocable(cfg)
  }

  /** The meta key the record must have: the access key for `access`, the refresh key for any other type. */
  function RecordKey(cfg: RbacService.Config, typeName: string): string {
    UserMeta.TokenKey(cfg, if typeName == "access" then Jwt.Access else Jwt.Refresh)
  }

  /** The stored value is JSON whose `exp` is the integer expiry the token carries. */
  predicate ExpMatches(v: Json, exp: Option<int>) {
    v.Object? && exp.Some? && "exp" in v.fields && v.fields["exp"] == JInt(exp.value)
  }

  /** The row is the record of `token`: its `jti`, the record key of the type, the token's subject, the same expiry. */
  predicate IsRecordOf(x: UserMeta.MetaRow, cfg: RbacService.Config, c: Jwt.Claims, jti: string, typeName: string) {
    x.id == jti && x.key == RecordKey(cfg, typeName) && x.user == c.sub.GetOr("") && ExpMatches(x.value, c.exp)
  }

  /** The acceptance condition, stated without the order of the checks. */
  predicate TokenAccepted(m: UserMeta.MetaModel, cfg: RbacService.Config, token: Jwt.Token, typeName: string, now: int, up: bool) {
    && token.signatureValid && token.claims.Some?
    && var c := token.claims.value;
    && c.Type() == Some(typeName)
    && Jwt.TemporalClaimsValid(c, now)
    && now <= ConfiguredExpiry(cfg, c, typeName)
    && (RecordChecked(cfg, typeName) ==> up && exists x :: x in m.rows && IsRecordOf(x, cfg, c, Jwt.Jti(token), typeName))
  }

  /** The user's record of the type goes: `deleteToken(sub, type)`. */
  function Revoke(m: UserMeta.MetaModel, cfg: RbacService.Config, c: Jwt.Claims, typeName: string): UserMeta.MetaModel {
    UserMeta.DeleteToken(m, cfg, c.sub.GetOr(""), typeName).1
  }

  /**
   * The token gets as far as the record check: it is signed, decodes with
   * valid time claims, has the type asked for, is younger than the configured
   * lifetime, and its type is one whose record is checked.
   */
  predicate ReachesRecord(cfg: RbacService.Config, token: Jwt.Token, typeName: string, now: int) {
    && token.signatureValid && token.claims.Some?
    && Jwt.TemporalClaimsValid(token.claims.value, now)
    && token.claims.value.Type() == Some(typeName)
    && now <= ConfiguredExpiry(cfg, token.claims.value, typeName)
    && RecordChecked(cfg, typeName)
  }

  /** The row the `jti` lookup (protected keys included) may return: the token's `jti` and visible to that read. */
  predicate Found(m: UserMeta.MetaModel, cfg: RbacService.Config, token: Jwt.Token, x: UserMeta.MetaRow) {
    && x in m.rows && x.id == Jwt.Jti(token)
    && ProtectedPrefix.ReadVisible(ProtectedPrefix.WithProtectedPrefix(m.mode), RbacService.ProtectedPrefix(cfg), x.key)
  }

  /**
   * `authenticateToken`: the user id the token names, or the first failing
   * check. The library's default decode also validates the time claims, so
   * a token whose `iat`, `nbf` or `exp` fails is refused as undecodable and
   * nothing is revoked. The stored record is read with protected keys
   * included; which record-stage failures revoke the record is stated case
   * by case.
   */
  function AuthenticateToken(m: UserMeta.MetaModel, cfg: RbacService.Config, token: Jwt.Token, typeName: string,
                             now: int, up: bool): (r: (Result<string, AuthError>, UserMeta.MetaModel))
    ensures !token.signatureValid ==> r == (Err(InvalidToken), m)
    ensures token.signatureValid && (token.claims.None? || !Jwt.TemporalClaimsValid(token.claims.value, now)) ==>
      r == (Err(UnexpectedAuthentication), m)
    ensures token.signatureValid && token.claims.Some? && Jwt.TemporalClaimsValid(token.claims.value, now)
            && token.claims.value.Type() != Some(typeName) ==>
      r == (Err(InvalidToken), m)
    ensures token.signatureValid && token.claims.Some? && Jwt.TemporalClaimsValid(token.claims.value, now)
            && token.claims.value.Type() == Some(typeName) && ConfiguredExpiry(cfg, token.claims.value, typeName) < now
            ==> r == (Err(TokenDoesNotExist), Revoke(m, cfg, token.claims.value, typeName))
    ensures ReachesRecord(cfg, token, typeName, now) && !up ==>
      r.0 == Err(UnexpectedAuthentication) && r.1.rows == m.rows
    ensures ReachesRecord(cfg, token, typeName, now) && up && (forall x :: x in m.rows ==> !Found(m, cfg, token, x)) ==>
      r.0 == Err(TokenDoesNotExist) && r.1.rows == m.rows
    ensures ReachesRecord(cfg, token, typeName, now) && up && UserMeta.UniqueIds(m.rows) ==>
      forall x :: Found(m, cfg, token, x) ==>
        var sub := token.claims.value.sub.GetOr("");
        && (x.key != RecordKey(cfg, typeName) || x.user != sub ==>
              r.0 == Err(UnexpectedAuthentication) && r.1.rows == m.rows)
        && (x.key == RecordKey(cfg, typeName) && x.user == sub && x.value.Invalid? ==>
              r.0 == Err(UnexpectedAuthentication) && r.1.rows == Revoke(m, cfg, token.claims.value, typeName).rows)
        && (x.key == RecordKey(cfg, typeName) && x.user == sub && !x.value.Invalid? && !ExpMatches(x.value, token.claims.value.exp) ==>
              r.0 == Err(TokenDoesNotExist) && r.1.rows == Revoke(m, cfg, token.claims.value, typeName).rows)
        && (x.key == RecordKey(cfg, typeName) && x.user == sub && ExpMatches(x.value, token.claims.value.exp) ==>
              r.0 == Ok(sub) && r.1.rows == m.rows)
    ensures r.0.Ok? ==> token.claims.Some? && r.0.value == token.claims.value.sub.GetOr("") && r.1.rows == m.rows
    ensures r.0.Ok? ==> TokenAccepted(m, cfg, token, typeName, now, up)
    ensures r.0.Err? ==> r.0.error in {InvalidToken, UnexpectedAuthentication, TokenDoesNotExist}
    ensures r.1.rows == m.rows || (token.claims.Some? && r.1.rows == Revoke(m, cfg, token.claims.value, typeName).rows)
  {
    if !token.signatureValid then (Err(InvalidToken), m)
    else if token.claims.None? || !Jwt.TemporalClaimsValid(token.claims.value, now) then (Err(UnexpectedAuthentication), m)
    else
      var c := token.claims.value;
      var user := c.sub.GetOr("");
      if c.Type() != Some(typeName) then (Err(InvalidToken), m)
      else if ConfiguredExpiry(cfg, c, typeName) < now then (Err(TokenDoesNotExist), Revoke(m, cfg, c, typeName))
      else if !RecordChecked(cfg, typeName) then (Ok(user), m)
      else if !up then (Err(UnexpectedAuthentication), UserMeta.MetaModel(m.rows, ProtectedPrefix.Default))
      else
        var f := UserMeta.FindById(m.(mode := ProtectedPrefix.WithProtectedPrefix(m.mode)), cfg, Jwt.Jti(token));
        RevokeReadsRows(f.1, m, cfg, c, typeName);
        FoundIsLookup(m, cfg, token, f.0);
        match f.0
        case Err(_) => (Err(TokenDoesNotExist), f.1)
        case Ok(row) =>
          if row.key != RecordKey(cfg, typeName) || row.user != user then (Err(UnexpectedAuthentication), f.1)
          else if row.value.Invalid? then (Err(UnexpectedAuthentication), Revoke(f.1, cfg, c, typeName))
          else if !ExpMatches(row.value, c.exp) then (Err(TokenDoesNotExist), Revoke(f.1, cfg, c, typeName))
          else (Ok(user), f.1)
  }

  /** Revoking reads only the rows: two models with the same rows lose the same record. */
  lemma RevokeReadsRows(m1: UserMeta.MetaModel, m2: UserMeta.MetaModel, cfg: RbacService.Config, c: Jwt.Claims, typeName: string)
    requires m1.rows == m2.rows
    ensures Revoke(m1, cfg, c, typeName).rows == Revoke(m2, cfg, c, typeName).rows
  {
  }

  /** Under the primary key, the `jti` lookup returns every row it may return, and fails only when there is none. */
  lemma FoundIsLookup(m: UserMeta.MetaModel, cfg: RbacService.Config, token: Jwt.Token, f: Result<UserMeta.MetaRow, OrmError>)
    requires f == UserMeta.FindById(m.(mode := ProtectedPrefix.WithProtectedPrefix(m.mode)), cfg, Jwt.Jti(token)).0
    ensures f.Ok? ==> Found(m, cfg, token, f.value)
    ensures f.Err? && UserMeta.UniqueIds(m.rows) ==> forall x :: x in m.rows ==> !Found(m, cfg, token, x)
    ensures f.Ok? && UserMeta.UniqueIds(m.rows) ==> forall x :: Found(m, cfg, token, x) ==> x == f.value
  {
    if f.Ok? && UserMeta.UniqueIds(m.rows) {
      forall x | Found(m, cfg, token, x)
        ensures x == f.value
      {
        var j :| 0 <= j < |m.rows| && m.rows[j] == f.value;
        UserMeta.SameIdSameRow(m.rows, j, x);
      }
    }
  }

  /** A record key is always visible to a read that includes protected keys. */
  lemma RecordVisible(cfg: RbacService.Config, mode: ProtectedPrefix.Mode, typeName: string)
    ensures ProtectedPrefix.ReadVisible(ProtectedPrefix.WithProtectedPrefix(mode), RbacService.ProtectedPrefix(cfg), RecordKey(cfg, typeName))
  {
    ProtectedPrefix.SensitiveImpliesInsensitive(RecordKey(cfg, typeName), RbacService.ProtectedPrefix(cfg));
  }

  /** Under the meta table's primary key, the token authentication succeeds exactly when the acceptance condition holds. */
  lemma TokenAcceptsExactly(m: UserMeta.MetaModel, cfg: RbacService.Config, token: Jwt.Token, typeName: string, now: int, up: bool)
    requires UserMeta.UniqueIds(m.rows)
    ensures AuthenticateToken(m, cfg, token, typeName, now, up).0.Ok? <==> TokenAccepted(m, cfg, token, typeName, now, up)
  {
    if TokenAccepted(m, cfg, token, typeName, now, up) && RecordChecked(cfg, typeName) {
      var c := token.claims.value;
      var x :| x in m.rows && IsRecordOf(x, cfg, c, Jwt.Jti(token), typeName);
      var m1 := m.(mode := ProtectedPrefix.WithProtectedPrefix(m.mode));
      RecordVisible(cfg, m.mode, typeName);
      var f := UserMeta.FindById(m1, cfg, Jwt.Jti(token));
      assert f.0.Ok?;
      var j :| 0 <= j < |m.rows| && m.rows[j] == x;
      UserMeta.SameIdSameRow(m.rows, j, f.0.value);
    }
  }

  /**
   * `authenticateUser`: the user the token names must exist and pass the
   * account checks; when it does not exist or fails them, all its token
   * records are deleted. A storage failure deletes nothing.
   */
  function AuthenticateUser(s: Store, m: UserMeta.MetaModel, cfg: RbacService.Config, id: string, up: bool): (r: (Result<UserRec, AuthError>, UserMeta.MetaModel))
    ensures !up ==> r == (Err(UnexpectedAuthentication), m)
    ensures up && r.0.Err? ==> r.1 == UserMeta.DeleteAllTokens(m, cfg, id)
    ensures r.0.Ok? ==> r.1 == m && r.0.value in s.users && r.0.value.id == id && Authenticators.Admitted(cfg, r.0.value, true)
    ensures up && UserById(s, id).None? ==> r.0 == Err(UserDoesNotExist)
    ensures up && UserById(s, id).Some? ==> r.0 == Authenticators.AccountCheck(cfg, UserById(s, id).value, true)
  {
    if !up then (Err(UnexpectedAuthentication), m)
    else match UserById(s, id)
      case None => (Err(UserDoesNotExist), UserMeta.DeleteAllTokens(m, cfg, id))
      case Some(u) =>
        match Authenticators.AccountCheck(cfg, u, true)
        case Err(e) => (Err(e), UserMeta.DeleteAllTokens(m, cfg, id))
        case Ok(_) => (Ok(u), m)
  }

  /** `authenticate`: the token, then the user it names. */
  function Authenticate(s: Store, m: UserMeta.MetaModel, cfg: RbacService.Config, token: Jwt.Token, typeName: string,
                        now: int, recordUp: bool, userUp: bool): (r: (Result<UserRec, AuthError>, UserMeta.MetaModel))
    ensures r.0.Ok? ==>
      && TokenAccepted(m, cfg, token, typeName, now, recordUp) && token.claims.Some?
      && r.0.value.id == token.claims.value.sub.GetOr("") && r.0.value in s.users && Authenticators.Admitted(cfg, r.0.value, true)
    ensures r.0.Ok? ==> r.1.rows == m.rows
    ensures var t := AuthenticateToken(m, cfg, token, typeName, now, recordUp);
            t.0.Err? ==> r == (Err(t.0.error), t.1)
    ensures var t := AuthenticateToken(m, cfg, token, typeName, now, recordUp);
            t.0.Ok? && !userUp ==> r.0 == Err(UnexpectedAuthentication) && r.1.rows == m.rows
    ensures var t := AuthenticateToken(m, cfg, token, typeName, now, recordUp);
            t.0.Ok? && userUp && UserById(s, t.0.value).None? ==> r.0 == Err(UserDoesNotExist)
    ensures var t := AuthenticateToken(m, cfg, token, typeName, now, recordUp);
            t.0.Ok? && userUp && r.0.Err? ==> r.1.rows == UserMeta.DeleteAllTokens(m, cfg, t.0.value).rows
  {
    var t := AuthenticateToken(m, cfg, token, typeName, now, recordUp);
    match t.0
    case Err(e) => (Err(e), t.1)
    case Ok(id) => AuthenticateUser(s, t.1, cfg, id, userUp)
  }

  /**
   * Round trip: a token issued by the meta store authenticates as its user
   * (leaving the records as they are) from the moment it is issued until it
   * expires, whether or not it has a record.
   */
  lemma IssuedTokenAuthenticates(m: UserMeta.MetaModel, cfg: RbacService.Config, users: set<string>, freshId: string,
                                 user: string, typeName: string, now: int, filtered: map<string, string>, later: int)
    requires UserMeta.Valid(m.rows)
    requires UserMeta.CreateToken(m, cfg, users, freshId, user, typeName, now, filtered).0.Ok?
    requires now <= later < now + Jwt.Lifetime(cfg, Jwt.ParseKind(typeName).value)
    ensures var c := UserMeta.CreateToken(m, cfg, users, freshId, user, typeName, now, filtered);
            var r := AuthenticateToken(c.1, cfg, c.0.value, typeName, later, true);
            r.0 == Ok(user) && r.1.rows == c.1.rows
  {
    var c := UserMeta.CreateToken(m, cfg, users, freshId, user, typeName, now, filtered);
    var kind := Jwt.ParseKind(typeName).value;
    var token := c.0.value;
    IssuedTokenAccepted(m, cfg, users, freshId, user, typeName, now, filtered, later);
    TokenAcceptsExactly(c.1, cfg, token, typeName, later, true);
  }

  /** An issued token meets the acceptance condition against the records the issue left, until it expires. */
  lemma IssuedTokenAccepted(m: UserMeta.MetaModel, cfg: RbacService.Config, users: set<string>, freshId: string,
                            user: string, typeName: string, now: int, filtered: map<string, string>, later: int)
    requires UserMeta.CreateToken(m, cfg, users, freshId, user, typeName, now, filtered).0.Ok?
    requires now <= later < now + Jwt.Lifetime(cfg, Jwt.ParseKind(typeName).value)
    ensures var c := UserMeta.CreateToken(m, cfg, users, freshId, user, typeName, now, filtered);
            TokenAccepted(c.1, cfg, c.0.value, typeName, later, true) && c.0.value.claims.value.sub == Some(user)
  {
    var c := UserMeta.CreateToken(m, cfg, users, freshId, user, typeName, now, filtered);
    var kind := Jwt.ParseKind(typeName).value;
    var token := c.0.value;
    assert token == Jwt.CreateJwt(user, kind, now, now + Jwt.Lifetime(cfg, kind), Jwt.Jti(token), filtered);
    var claims := token.claims.value;
    assert Jwt.TemporalClaimsValid(claims, later);
    assert now <= ConfiguredExpiry(cfg, claims, typeName);
    if RecordChecked(cfg, typeName) {
      assert Jwt.Recorded(cfg, kind);
      var x :| x in c.1.rows && x == UserMeta.MetaRow(x.id, user, UserMeta.TokenKey(cfg, kind), UserMeta.ExpRecord(now + Jwt.Lifetime(cfg, kind)))
               && Jwt.Jti(token) == x.id;
      assert IsRecordOf(x, cfg, claims, Jwt.Jti(token), typeName);
    }
  }

  /**
   * A token issued by the meta store for an existing user who passes the
   * account checks signs that user in until it expires.
   */
  lemma IssuedTokenSignsIn(s: Store, m: UserMeta.MetaModel, cfg: RbacService.Config, users: set<string>, freshId: string,
                           u: UserRec, typeName: string, now: int, filtered: map<string, string>, later: int)
    requires UserMeta.Valid(m.rows) && Seqs.UniqueBy(s.users, (x: UserRec) => x.id)
    requires u in s.users && Authenticators.Admitted(cfg, u, true)
    requires UserMeta.CreateToken(m, cfg, users, freshId, u.id, typeName, now, filtered).0.Ok?
    requires now <= later < now + Jwt.Lifetime(cfg, Jwt.ParseKind(typeName).value)
    ensures var c := UserMeta.CreateToken(m, cfg, users, freshId, u.id, typeName, now, filtered);
            Authenticate(s, c.1, cfg, c.0.value, typeName, later, true, true).0 == Ok(u)
  {
    IssuedTokenAuthenticates(m, cfg, users, freshId, u.id, typeName, now, filtered, later);
    Authenticators.IdFindsUser(s, u);
  }

  /**
   * A lifetime shortened in the configuration takes effect on tokens already
   * issued: once the new lifetime has passed, the token is refused and its
   * record deleted, even though its own `exp` is still ahead.
   */
  lemma ShortenedLifetimeRevokes(m: UserMeta.MetaModel, cfg: RbacService.Config, cfg2: RbacService.Config,
                                 users: set<string>, freshId: string, user: string, typeName: string,
                                 now: int, filtered: map<string, string>, later: int)
    requires UserMeta.CreateToken(m, cfg, users, freshId, user, typeName, now, filtered).0.Ok?
    requires Jwt.ParseKind(typeName) == Some(Jwt.Refresh)
    requires now <= later && now + Jwt.Lifetime(cfg2, Jwt.Refresh) < later < now + Jwt.Lifetime(cfg, Jwt.Refresh)
    ensures var c := UserMeta.CreateToken(m, cfg, users, freshId, user, typeName, now, filtered);
            var r := AuthenticateToken(c.1, cfg2, c.0.value, typeName, later, true);
            && r.0 == Err(TokenDoesNotExist)
            && !UserMeta.HasKey(r.1.rows, user, UserMeta.TokenKey(cfg2, Jwt.Refresh))
  {
    var c := UserMeta.CreateToken(m, cfg, users, freshId, user, typeName, now, filtered);
    var token := c.0.value;
    assert token == Jwt.CreateJwt(user, Jwt.Refresh, now, now + Jwt.Lifetime(cfg, Jwt.Refresh), Jwt.Jti(token), filtered);
    var claims := token.claims.value;
    assert Jwt.TemporalClaimsValid(claims, later);
    assert typeName == "refresh" && claims.Type() == Some(typeName);
    assert ConfiguredExpiry(cfg2, claims, typeName) < later;
    assert claims.sub.GetOr("") == user;
    ConfiguredExpiryRevokes(c.1, cfg2, token, typeName, later);
  }

  /** A token past the configured lifetime of its type is refused and its record revoked, whatever the store holds. */
  lemma ConfiguredExpiryRevokes(m: UserMeta.MetaModel, cfg: RbacService.Config, token: Jwt.Token, typeName: string, now: int)
    requires token.signatureValid && token.claims.Some? && Jwt.TemporalClaimsValid(token.claims.value, now)
    requires token.claims.value.Type() == Some(typeName) && ConfiguredExpiry(cfg, token.claims.value, typeName) < now
    ensures AuthenticateToken(m, cfg, token, typeName, now, true) == (Err(TokenDoesNotExist), Revoke(m, cfg, token.claims.value, typeName))
  {
  }

  /**
   * After `deleteToken` (a logout), a recorded token is refused even before
   * it expires: its `jti` no longer names a row.
   */
  lemma RevokedTokenRefused(m: UserMeta.MetaModel, cfg: RbacService.Config, users: set<string>, freshId: string,
                            user: string, typeName: string, now: int, filtered: map<string, string>, later: int)
    requires UserMeta.Valid(m.rows)
    requires UserMeta.CreateToken(m, cfg, users, freshId, user, typeName, now, filtered).0.Ok?
    requires Jwt.Recorded(cfg, Jwt.ParseKind(typeName).value)
    requires now <= later < now + Jwt.Lifetime(cfg, Jwt.ParseKind(typeName).value)
    ensures var c := UserMeta.CreateToken(m, cfg, users, freshId, user, typeName, now, filtered);
            var out := UserMeta.DeleteToken(c.1, cfg, user, typeName).1;
            AuthenticateToken(out, cfg, c.0.value, typeName, later, true).0 == Err(TokenDoesNotExist)
  {
    var c := UserMeta.CreateToken(m, cfg, users, freshId, user, typeName, now, filtered);
    var kind := Jwt.ParseKind(typeName).value;
    var token := c.0.value;
    var out := UserMeta.DeleteToken(c.1, cfg, user, typeName).1;
    var x :| x in c.1.rows && x == UserMeta.MetaRow(x.id, user, UserMeta.TokenKey(cfg, kind), UserMeta.ExpRecord(now + Jwt.Lifetime(cfg, kind)))
             && Jwt.Jti(token) == x.id;
    var m1 := out.(mode := ProtectedPrefix.WithProtectedPrefix(out.mode));
    assert UserMeta.FindById(m1, cfg, Jwt.Jti(token)).0.Err?;
  }

  /**
   * A user that has been disabled since the token was issued is refused, and
   * every token record of the user is gone afterwards.
   */
  lemma DisabledUserLosesTokens(s: Store, m: UserMeta.MetaModel, cfg: RbacService.Config, token: Jwt.Token,
                                typeName: string, now: int, u: UserRec)
    requires Seqs.UniqueBy(s.users, (x: UserRec) => x.id)
    requires u in s.users && !u.enabled
    requires AuthenticateToken(m, cfg, token, typeName, now, true).0 == Ok(u.id)
    ensures var r := Authenticate(s, m, cfg, token, typeName, now, true, true);
            && r.0 == Err(UserDisabled)
            && forall kind: Jwt.TokenKind :: !UserMeta.HasKey(r.1.rows, u.id, UserMeta.TokenKey(cfg, kind))
  {
    Authenticators.IdFindsUser(s, u);
  }
}
