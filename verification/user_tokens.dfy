/**
 * `UserTokensModel`: the dedicated token table. Unlike the meta store it has
 * no uniqueness constraint, so every recorded token adds a row; a row carries
 * the token's type, its expiry and the requesting IP and metadata.
 */
module UserTokens {
  import opened Wrappers
  import opened Errors
  import RbacService
  import Jwt
  import Rules
  import Seqs

  datatype TokenRow = TokenRow(id: string, user: string, kind: string, expires: int, ip: Option<string>, meta: map<string, string>)

  predicate UniqueIds(rows: seq<TokenRow>) {
    forall i, j :: 0 <= i < j < |rows| ==> rows[i].id != rows[j].id
  }

  predicate IdUsed(rows: seq<TokenRow>, id: string) {
    exists i :: 0 <= i < |rows| && rows[i].id == id
  }

  /**
   * The write rules of the fields a create supplies: `user` is a UUID, and
   * `type` and a non-null `ip` are at most 255 characters.
   */
  predicate FieldsValid(user: string, kind: string, ip: Option<string>) {
    Rules.IsUuid(user) && Rules.ShortText(kind) && (ip.None? || Rules.ShortText(ip.value))
  }

  /**
   * `create`: the write rules, the `users` foreign key, then an insert under
   * the fresh id (a colliding id is a store failure).
   */
  function Create(rows: seq<TokenRow>, users: set<string>, freshId: string, user: string, kind: string,
                  expires: int, ip: Option<string>, meta: map<string, string>): (r: Result<(TokenRow, seq<TokenRow>), OrmError>)
    ensures !FieldsValid(user, kind, ip) ==> r == Err(InvalidField)
    ensures FieldsValid(user, kind, ip) ==> (r == Err(DoesNotExist) <==> user !in users)
    ensures r.Ok? <==> FieldsValid(user, kind, ip) && user in users && !IdUsed(rows, freshId)
    ensures r.Ok? ==> r.value.0 == TokenRow(freshId, user, kind, expires, ip, meta) && r.value.1 == rows + [r.value.0]
    ensures UniqueIds(rows) && r.Ok? ==> UniqueIds(r.value.1)
  {
    if !FieldsValid(user, kind, ip) then Err(InvalidField)
    else if user !in users then Err(DoesNotExist)
    else if IdUsed(rows, freshId) then Err(Unexpected)
    else
      var row := TokenRow(freshId, user, kind, expires, ip, meta);
      Ok((row, rows + [row]))
  }

  /**
   * `createToken`: the same expiry and recording policy as the meta store,
   * but a recorded token inserts a new row carrying its type, expiry, IP and
   * metadata, and its id becomes the `jti`. Any store failure (a field
   * breaking its write rules included), and any other type string, is
   * `Unexpected` and returns no token.
   */
  function CreateToken(rows: seq<TokenRow>, cfg: RbacService.Config, users: set<string>, freshId: string,
                       user: string, typeName: string, ip: Option<string>, meta: map<string, string>,
                       now: int, filtered: map<string, string>): (r: (Result<Jwt.Token, OrmError>, seq<TokenRow>))
    ensures r.0.Err? ==> r.0.error == Unexpected && r.1 == rows
    ensures r.0.Ok? <==>
      (Jwt.ParseKind(typeName).Some? &&
       (!Jwt.Recorded(cfg, Jwt.ParseKind(typeName).value) ||
        (FieldsValid(user, typeName, ip) && user in users && !IdUsed(rows, freshId))))
    ensures r.0.Ok? ==> var kind := Jwt.ParseKind(typeName).value; var exp := now + Jwt.Lifetime(cfg, kind);
      && r.0.value == Jwt.CreateJwt(user, kind, now, exp, Jwt.Jti(r.0.value), filtered)
      && (!Jwt.Recorded(cfg, kind) ==> Jwt.Jti(r.0.value) == "" && r.1 == rows)
      && (Jwt.Recorded(cfg, kind) ==>
            Jwt.Jti(r.0.value) == freshId && r.1 == rows + [TokenRow(freshId, user, typeName, exp, ip, meta)])
    ensures UniqueIds(rows) ==> UniqueIds(r.1)
  {
    match Jwt.ParseKind(typeName)
    case None => (Err(Unexpected), rows)
    case Some(kind) =>
      var exp := now + Jwt.Lifetime(cfg, kind);
      if !Jwt.Recorded(cfg, kind) then (Ok(Jwt.CreateJwt(user, kind, now, exp, "", filtered)), rows)
      else match Create(rows, users, freshId, user, kind.Name(), exp, ip, meta)
        case Err(_) => (Err(Unexpected), rows)
        case Ok(created) => (Ok(Jwt.CreateJwt(user, kind, now, exp, created.0.id, filtered)), created.1)
  }

  /** `readByType`: the user's rows of that type, in listing order. */
  function ReadByType(rows: seq<TokenRow>, user: string, kind: string): (r: seq<TokenRow>)
    ensures forall x :: x in r <==> x in rows && x.user == user && x.kind == kind
  {
    var p := (x: TokenRow) => x.user == user && x.kind == kind;
    Seqs.FilterMembers(rows, p);
    Seqs.Filter(rows, p)
  }

  /**
   * `deleteToken`: removes every row of the user with the named type and
   * answers `true`; any other type string deletes nothing and answers `false`.
   */
  function DeleteToken(rows: seq<TokenRow>, user: string, typeName: string): (r: (bool, seq<TokenRow>))
    ensures r.0 <==> Jwt.ParseKind(typeName).Some?
    ensures !r.0 ==> r.1 == rows
    ensures forall x :: x in r.1 <==> x in rows && !(r.0 && x.user == user && x.kind == typeName)
  {
    match Jwt.ParseKind(typeName)
    case None => (false, rows)
    case Some(kind) =>
      var p := (x: TokenRow) => !(x.user == user && x.kind == kind.Name());
      Seqs.FilterMembers(rows, p);
      (true, Seqs.Filter(rows, p))
  }

  /** `deleteAllTokens`: removes every row of the user, whatever its type. */
  function DeleteAllTokens(rows: seq<TokenRow>, user: string): (r: seq<TokenRow>)
    ensures forall x :: x in r <==> x in rows && x.user != user
  {
    var p := (x: TokenRow) => x.user != user;
    Seqs.FilterMembers(rows, p);
    Seqs.Filter(rows, p)
  }

  /** `deleteExpiredTokens`: removes exactly the rows with `expires < now`. */
  function DeleteExpiredTokens(rows: seq<TokenRow>, now: int): (r: seq<TokenRow>)
    ensures forall x :: x in r <==> x in rows && now <= x.expires
  {
    var p := (x: TokenRow) => x.expires >= now;
    Seqs.FilterMembers(rows, p);
    Seqs.Filter(rows, p)
  }

  /**
   * A recorded token can be looked up again: its `jti` row is among the
   * user's rows of its type, with the token's expiry, until it expires or is
   * deleted.
   */
  lemma CreatedTokenIsListed(rows: seq<TokenRow>, cfg: RbacService.Config, users: set<string>, freshId: string,
                             user: string, typeName: string, ip: Option<string>, meta: map<string, string>,
                             now: int, filtered: map<string, string>, later: int)
    requires CreateToken(rows, cfg, users, freshId, user, typeName, ip, meta, now, filtered).0.Ok?
    requires Jwt.Recorded(cfg, Jwt.ParseKind(typeName).value)
    requires later <= now + Jwt.Lifetime(cfg, Jwt.ParseKind(typeName).value)
    ensures var c := CreateToken(rows, cfg, users, freshId, user, typeName, ip, meta, now, filtered);
            var listed := ReadByType(DeleteExpiredTokens(c.1, later), user, typeName);
            exists x :: x in listed && x.id == Jwt.Jti(c.0.value) && Some(x.expires) == c.0.value.claims.value.exp
  {
    var c := CreateToken(rows, cfg, users, freshId, user, typeName, ip, meta, now, filtered);
    var x := c.1[|c.1| - 1];
    assert x in c.1;
    assert x in DeleteExpiredTokens(c.1, later);
  }

  /** No uniqueness: a second recorded token of the same type adds a second row rather than replacing the first. */
  lemma TokensAccumulate(rows: seq<TokenRow>, cfg: RbacService.Config, users: set<string>, id1: string, id2: string,
                         user: string, typeName: string, ip: Option<string>, meta: map<string, string>,
                         now: int, filtered: map<string, string>)
    requires CreateToken(rows, cfg, users, id1, user, typeName, ip, meta, now, filtered).0.Ok?
    requires Jwt.Recorded(cfg, Jwt.ParseKind(typeName).value)
    requires var c := CreateToken(rows, cfg, users, id1, user, typeName, ip, meta, now, filtered);
             CreateToken(c.1, cfg, users, id2, user, typeName, ip, meta, now, filtered).0.Ok?
    ensures var c1 := CreateToken(rows, cfg, users, id1, user, typeName, ip, meta, now, filtered);
            var c2 := CreateToken(c1.1, cfg, users, id2, user, typeName, ip, meta, now, filtered);
            && |c2.1| == |rows| + 2
            && id1 != id2
            && (exists x :: x in ReadByType(c2.1, user, typeName) && x.id == id1)
            && (exists x :: x in ReadByType(c2.1, user, typeName) && x.id == id2)
  {
    var c1 := CreateToken(rows, cfg, users, id1, user, typeName, ip, meta, now, filtered);
    var c2 := CreateToken(c1.1, cfg, users, id2, user, typeName, ip, meta, now, filtered);
    assert c1.1[|c1.1| - 1].id == id1;
    assert IdUsed(c1.1, id1);
    assert c2.1[|c1.1| - 1] in c2.1;
    assert c2.1[|c2.1| - 1] in c2.1;
  }
}
