/**
 * `UserMetaModel`: per-user key/value rows, guarded by the protected-prefix
 * policy, which also hold the revocable token records (`<prefix>access_token`,
 * `<prefix>refresh_token`) and the one-time passwords of the
 * `HasProtectedPrefix` trait.
 *
 * The table is a sequence of rows in listing order; a SQL `single` lookup is
 * the first matching row. The store's fresh UUID for a new row is a
 * parameter; a collision with an existing id is a store failure.
 */
module UserMeta {
  import opened Wrappers
  import opened Errors
  import opened Json
  import opened ProtectedPrefix
  import RbacService
  import Jwt
  import Rules
  import T = Totp
  import Seqs

  datatype MetaRow = MetaRow(id: string, user: string, key: string, value: Json)

  /** The table plus the prefix flags the next resource operation will use. */
  datatype MetaModel = MetaModel(rows: seq<MetaRow>, mode: Mode)

  /** The unique constraint `[user, meta_key]`. */
  predicate UniqueUserKeys(rows: seq<MetaRow>) {
    forall i, j :: 0 <= i < j < |rows| ==> rows[i].user != rows[j].user || rows[i].key != rows[j].key
  }

  /** The primary key. */
  predicate UniqueIds(rows: seq<MetaRow>) {
    forall i, j :: 0 <= i < j < |rows| ==> rows[i].id != rows[j].id
  }

  predicate Valid(rows: seq<MetaRow>) {
    UniqueUserKeys(rows) && UniqueIds(rows)
  }

  predicate IdUsed(rows: seq<MetaRow>, id: string) {
    exists i :: 0 <= i < |rows| && rows[i].id == id
  }

  /** Some row belongs to `user` under `key`. */
  predicate HasKey(rows: seq<MetaRow>, user: string, key: string) {
    exists i :: 0 <= i < |rows| && rows[i].user == user && rows[i].key == key
  }

  /** The position of the row `user`/`key`, as the raw `single` lookup finds it. */
  function KeyIndex(rows: seq<MetaRow>, user: string, key: string): (r: Option<nat>)
    ensures r.Some? ==> r.value < |rows| && rows[r.value].user == user && rows[r.value].key == key
    ensures r.None? <==> !HasKey(rows, user, key)
  {
    Seqs.FirstIndex(rows, (x: MetaRow) => x.user == user && x.key == key)
  }

  /** Under the unique constraint a row with the same user and key is the row at that position. */
  lemma KeyIndexUnique(rows: seq<MetaRow>, user: string, key: string, i: int)
    requires UniqueUserKeys(rows)
    requires 0 <= i < |rows| && rows[i].user == user && rows[i].key == key
    ensures KeyIndex(rows, user, key) == Some(i)
  {
    var k := KeyIndex(rows, user, key);
    assert k.Some?;
    if k.value < i {
    } else if i < k.value {
    }
  }

  /** The rows a read shows under `mode` (the `onReading` filter). */
  function ListVisible(m: MetaModel, cfg: RbacService.Config): (r: (seq<MetaRow>, MetaModel))
    ensures r.1 == MetaModel(m.rows, Default)
    ensures forall i :: 0 <= i < |r.0| ==> r.0[i] in m.rows && ReadVisible(m.mode, RbacService.ProtectedPrefix(cfg), r.0[i].key)
    ensures forall x :: x in m.rows && ReadVisible(m.mode, RbacService.ProtectedPrefix(cfg), x.key) ==> x in r.0
  {
    var prefix := RbacService.ProtectedPrefix(cfg);
    (Seqs.Filter(m.rows, (x: MetaRow) => ReadVisible(m.mode, prefix, x.key)), MetaModel(m.rows, Default))
  }

  /** `find`: the row with primary key `id`, if the read filter lets it through. */
  function FindById(m: MetaModel, cfg: RbacService.Config, id: string): (r: (Result<MetaRow, OrmError>, MetaModel))
    ensures r.1 == MetaModel(m.rows, Default)
    ensures r.0.Ok? ==> r.0.value in m.rows && r.0.value.id == id
    ensures r.0.Ok? ==> ReadVisible(m.mode, RbacService.ProtectedPrefix(cfg), r.0.value.key)
    ensures r.0.Err? ==> r.0.error == DoesNotExist
    ensures UniqueIds(m.rows) ==>
      (r.0.Err? <==> forall x :: x in m.rows && x.id == id ==> !ReadVisible(m.mode, RbacService.ProtectedPrefix(cfg), x.key))
  {
    var prefix := RbacService.ProtectedPrefix(cfg);
    var r := match Seqs.FirstIndex(m.rows, (x: MetaRow) => x.id == id)
      case None => Err(DoesNotExist)
      case Some(i) =>
        if ReadVisible(m.mode, prefix, m.rows[i].key) then Ok(m.rows[i]) else Err(DoesNotExist);
    (r, MetaModel(m.rows, Default))
  }

  /**
   * `findByKey`: the id comes from a raw lookup (no filter), then the row is
   * read through `find`, so the read filter still applies.
   */
  function FindByKey(m: MetaModel, cfg: RbacService.Config, user: string, key: string): (r: (Result<MetaRow, OrmError>, MetaModel))
    ensures r.1 == MetaModel(m.rows, Default)
    ensures r.0.Ok? ==> r.0.value in m.rows && ReadVisible(m.mode, RbacService.ProtectedPrefix(cfg), r.0.value.key)
    ensures Valid(m.rows) && r.0.Ok? ==> r.0.value.user == user && r.0.value.key == key
    ensures !HasKey(m.rows, user, key) ==> r.0 == Err(DoesNotExist)
    ensures Valid(m.rows) ==>
      (r.0.Ok? <==> HasKey(m.rows, user, key) && ReadVisible(m.mode, RbacService.ProtectedPrefix(cfg), key))
  {
    match KeyIndex(m.rows, user, key)
    case None => (Err(DoesNotExist), MetaModel(m.rows, Default))
    case Some(i) =>
      var r := FindById(m, cfg, m.rows[i].id);
      if r.0.Ok? then SameIdSameRow(m.rows, i, r.0.value); r else r
  }

  /** Under the primary key, a row with the id of row `i` is row `i`. */
  lemma SameIdSameRow(rows: seq<MetaRow>, i: nat, x: MetaRow)
    requires i < |rows| && x in rows && x.id == rows[i].id
    ensures UniqueIds(rows) ==> x == rows[i]
  {
    var j :| 0 <= j < |rows| && rows[j] == x;
  }

  /** The write rules of the fields an upsert supplies: `user` is a UUID and `meta_key` at most 255 characters. */
  predicate FieldsValid(user: string, key: string) {
    Rules.IsUuid(user) && Rules.ShortText(key)
  }

  /**
   * `upsert` of `user`/`key`/`value`: the write rules and the write filter
   * (both `InvalidField`), the `users` foreign key, then an update of the
   * existing row (keeping its id) or an insert under the fresh id. The flags
   * are reset whatever the outcome.
   */
  function Upsert(m: MetaModel, cfg: RbacService.Config, users: set<string>, freshId: string,
                  user: string, key: string, value: Json): (r: (Result<MetaRow, OrmError>, MetaModel))
    ensures r.1.mode == Default
    ensures r.0 == Err(InvalidField) <==> !FieldsValid(user, key) || WriteCheck(m.mode, RbacService.ProtectedPrefix(cfg), key).Some?
    ensures r.0.Err? ==> r.1.rows == m.rows
    ensures r.0.Err? && r.0.error != InvalidField ==> r.0.error in {DoesNotExist, Unexpected}
    ensures FieldsValid(user, key) && WriteCheck(m.mode, RbacService.ProtectedPrefix(cfg), key).None? ==>
      (r.0 == Err(DoesNotExist) <==> user !in users)
    ensures FieldsValid(user, key) && WriteCheck(m.mode, RbacService.ProtectedPrefix(cfg), key).None? && user in users ==>
      (r.0 == Err(Unexpected) <==> !HasKey(m.rows, user, key) && IdUsed(m.rows, freshId))
    ensures r.0.Ok? ==> r.0.value == MetaRow(r.0.value.id, user, key, value) && r.0.value in r.1.rows
    ensures r.0.Ok? ==> forall x :: x in m.rows && (x.user != user || x.key != key) ==> x in r.1.rows
    ensures r.0.Ok? ==> forall x :: x in r.1.rows ==> x == r.0.value || x in m.rows
    ensures r.0.Ok? ==> forall i :: 0 <= i < |m.rows| && m.rows[i].user == user && m.rows[i].key == key ==> r.0.value.id == m.rows[i].id || !UniqueUserKeys(m.rows)
    ensures r.0.Ok? && !HasKey(m.rows, user, key) ==> r.0.value.id == freshId
    ensures Valid(m.rows) ==> Valid(r.1.rows)
  {
    var prefix := RbacService.ProtectedPrefix(cfg);
    var same := MetaModel(m.rows, Default);
    if !FieldsValid(user, key) || WriteCheck(m.mode, prefix, key).Some? then (Err(InvalidField), same)
    else if user !in users then (Err(DoesNotExist), same)
    else match KeyIndex(m.rows, user, key)
      case Some(i) =>
        var row := m.rows[i].(value := value);
        UpdateKeepsValid(m.rows, i, row);
        UpdateKeepsOthers(m.rows, i, row);
        KeyIndexOnlyRow(m.rows, user, key, i);
        (Ok(row), MetaModel(m.rows[i := row], Default))
      case None =>
        if IdUsed(m.rows, freshId) then (Err(Unexpected), same)
        else
          var row := MetaRow(freshId, user, key, value);
          (Ok(row), MetaModel(m.rows + [row], Default))
  }

  /** Under the unique constraint, every row with that user and key is the one the lookup found. */
  lemma KeyIndexOnlyRow(rows: seq<MetaRow>, user: string, key: string, i: nat)
    requires KeyIndex(rows, user, key) == Some(i)
    ensures UniqueUserKeys(rows) ==> forall j :: 0 <= j < |rows| && rows[j].user == user && rows[j].key == key ==> j == i
  {
    if UniqueUserKeys(rows) {
      forall j | 0 <= j < |rows| && rows[j].user == user && rows[j].key == key
        ensures j == i
      {
        KeyIndexUnique(rows, user, key, j);
      }
    }
  }

  /** A filter that drops every row of `user` under `key` leaves none behind. */
  lemma FilterDropsKey(rows: seq<MetaRow>, p: MetaRow -> bool, user: string, key: string)
    requires forall x: MetaRow :: x.user == user && x.key == key ==> !p(x)
    ensures !HasKey(Seqs.Filter(rows, p), user, key)
  {
  }

  /** Replacing row `i` by one with the same id, user and key keeps both constraints. */
  lemma UpdateKeepsValid(rows: seq<MetaRow>, i: nat, row: MetaRow)
    requires i < |rows| && row.id == rows[i].id && row.user == rows[i].user && row.key == rows[i].key
    ensures Valid(rows) ==> Valid(rows[i := row])
  {
  }

  /** Replacing row `i` leaves every other row in place. */
  lemma UpdateKeepsOthers(rows: seq<MetaRow>, i: nat, row: MetaRow)
    requires i < |rows|
    ensures forall x :: x in rows && x != rows[i] ==> x in rows[i := row]
    ensures forall x :: x in rows[i := row] ==> x == row || x in rows
    ensures row in rows[i := row]
  {
    assert rows[i := row][i] == row;
    forall x | x in rows && x != rows[i]
      ensures x in rows[i := row]
    {
      var j :| 0 <= j < |rows| && rows[j] == x;
      assert rows[i := row][j] == x;
    }
  }

  /**
   * `delete` of the row with primary key `id`: it must be readable under the
   * current flags, then the delete filter applies. The flags are reset.
   */
  function DeleteById(m: MetaModel, cfg: RbacService.Config, id: string): (r: (Result<bool, OrmError>, MetaModel))
    ensures r.1.mode == Default
    ensures r.0.Err? ==> r.1.rows == m.rows && r.0.error in {DoesNotExist, InvalidField}
    ensures r.0.Ok? ==> r.0.value && forall x :: x in r.1.rows <==> x in m.rows && x.id != id
    ensures UniqueIds(m.rows) ==>
      (r.0.Ok? <==> exists x :: x in m.rows && x.id == id && ReadVisible(m.mode, RbacService.ProtectedPrefix(cfg), x.key)
                                 && DeleteCheck(m.mode, RbacService.ProtectedPrefix(cfg), x.key).None?)
    ensures Valid(m.rows) ==> Valid(r.1.rows)
  {
    var prefix := RbacService.ProtectedPrefix(cfg);
    match FindById(m, cfg, id).0
    case Err(e) => (Err(e), MetaModel(m.rows, Default))
    case Ok(row) =>
      if DeleteCheck(m.mode, prefix, row.key).Some? then (Err(InvalidField), MetaModel(m.rows, Default))
      else
        var rest := Seqs.Filter(m.rows, (x: MetaRow) => x.id != id);
        FilterKeepsValid(m.rows, (x: MetaRow) => x.id != id);
        (Ok(true), MetaModel(rest, Default))
  }

  /** Dropping rows keeps both constraints, and keeps exactly the rows that pass. */
  lemma FilterKeepsValid(rows: seq<MetaRow>, p: MetaRow -> bool)
    ensures Valid(rows) ==> Valid(Seqs.Filter(rows, p))
    ensures forall x :: x in Seqs.Filter(rows, p) <==> x in rows && p(x)
  {
    Seqs.FilterMembers(rows, p);
    if Valid(rows) {
      Seqs.FilterKeepsPairwise(rows, p, (a: MetaRow, b: MetaRow) => a.user != b.user || a.key != b.key);
      Seqs.FilterKeepsPairwise(rows, p, (a: MetaRow, b: MetaRow) => a.id != b.id);
    }
  }

  // ------------------------- Tokens -------------------------

  /** The protected meta key that records a user's token of `kind`. */
  function TokenKey(cfg: RbacService.Config, kind: Jwt.TokenKind): (k: string)
    ensures StartsWith(k, RbacService.ProtectedPrefix(cfg))
  {
    var prefix := RbacService.ProtectedPrefix(cfg);
    var k := prefix + (match kind case Access => "access_token" case Refresh => "refresh_token");
    assert k[..|prefix|] == prefix;
    k
  }

  /** Distinct kinds record under distinct keys. */
  lemma TokenKeysDistinct(cfg: RbacService.Config)
    ensures TokenKey(cfg, Jwt.Access) != TokenKey(cfg, Jwt.Refresh)
  {
    var prefix := RbacService.ProtectedPrefix(cfg);
    assert TokenKey(cfg, Jwt.Access)[|prefix|] == 'a';
    assert TokenKey(cfg, Jwt.Refresh)[|prefix|] == 'r';
  }

  /** The stored record of a token: `{"exp": exp}`. */
  function ExpRecord(exp: int): (v: Json)
    ensures v.Object? && IntOr(v.fields, "exp", 0) == exp
  {
    Object(map["exp" := JInt(exp)])
  }

  /**
   * `createToken`: an access or refresh token expiring `Lifetime` seconds
   * from `now`. A recorded token upserts `{"exp": …}` under its protected key
   * and carries the record's id as `jti`; an unrecorded access token has no
   * `jti` and writes nothing. Any other type string is `Unexpected`.
   */
  function CreateToken(m: MetaModel, cfg: RbacService.Config, users: set<string>, freshId: string,
                       user: string, typeName: string, now: int, filtered: map<string, string>): (r: (Result<Jwt.Token, OrmError>, MetaModel))
    ensures Jwt.ParseKind(typeName).None? ==> r == (Err(Unexpected), m)
    ensures r.0.Err? ==> r.0.error in {DoesNotExist, Unexpected} && r.1.rows == m.rows
    ensures r.0.Ok? ==> Jwt.ParseKind(typeName).Some? && var kind := Jwt.ParseKind(typeName).value;
      && r.0.value == Jwt.CreateJwt(user, kind, now, now + Jwt.Lifetime(cfg, kind), Jwt.Jti(r.0.value), filtered)
      && (!Jwt.Recorded(cfg, kind) ==> Jwt.Jti(r.0.value) == "" && r.1 == m)
      && (Jwt.Recorded(cfg, kind) ==>
            exists x :: x in r.1.rows && x == MetaRow(x.id, user, TokenKey(cfg, kind), ExpRecord(now + Jwt.Lifetime(cfg, kind)))
                     && Jwt.Jti(r.0.value) == x.id)
    ensures Jwt.ParseKind(typeName).Some? && Jwt.Recorded(cfg, Jwt.ParseKind(typeName).value) ==>
      (r.0.Ok? <==>
         && FieldsValid(user, TokenKey(cfg, Jwt.ParseKind(typeName).value)) && user in users
         && (HasKey(m.rows, user, TokenKey(cfg, Jwt.ParseKind(typeName).value)) || !IdUsed(m.rows, freshId)))
    ensures r.0.Ok? ==> forall x :: x in m.rows && (x.user != user || !(x.key in {TokenKey(cfg, Jwt.Access), TokenKey(cfg, Jwt.Refresh)})) ==> x in r.1.rows
    ensures Valid(m.rows) ==> Valid(r.1.rows)
  {
    match Jwt.ParseKind(typeName)
    case None => (Err(Unexpected), m)
    case Some(kind) =>
      var exp := now + Jwt.Lifetime(cfg, kind);
      if !Jwt.Recorded(cfg, kind) then (Ok(Jwt.CreateJwt(user, kind, now, exp, "", filtered)), m)
      else
        var key := TokenKey(cfg, kind);
        var up := Upsert(MetaModel(m.rows, WithProtectedPrefix(m.mode)), cfg, users, freshId, user, key, ExpRecord(exp));
        match up.0
        case Err(e) => (Err(if e == InvalidField then Unexpected else e), up.1)
        case Ok(row) => (Ok(Jwt.CreateJwt(user, kind, now, exp, row.id, filtered)), up.1)
  }

  /** The write filter never rejects a token record under `with_protected`. */
  lemma TokenWriteAllowed(m: Mode, cfg: RbacService.Config, kind: Jwt.TokenKind)
    ensures WriteCheck(WithProtectedPrefix(m), RbacService.ProtectedPrefix(cfg), TokenKey(cfg, kind)).None?
  {
  }

  /**
   * `deleteToken`: removes the user's record of the named kind (a raw query,
   * so the flags are untouched) and answers `true`; any other type string
   * deletes nothing and answers `false`.
   */
  function DeleteToken(m: MetaModel, cfg: RbacService.Config, user: string, typeName: string): (r: (bool, MetaModel))
    ensures r.0 <==> Jwt.ParseKind(typeName).Some?
    ensures !r.0 ==> r.1 == m
    ensures r.1.mode == m.mode
    ensures r.0 ==> !HasKey(r.1.rows, user, TokenKey(cfg, Jwt.ParseKind(typeName).value))
    ensures forall x :: x in r.1.rows <==> x in m.rows && !(r.0 && x.user == user && x.key == TokenKey(cfg, Jwt.ParseKind(typeName).value))
    ensures Valid(m.rows) ==> Valid(r.1.rows)
  {
    match Jwt.ParseKind(typeName)
    case None => (false, m)
    case Some(kind) =>
      var p := (x: MetaRow) => !(x.user == user && x.key == TokenKey(cfg, kind));
      FilterKeepsValid(m.rows, p);
      FilterDropsKey(m.rows, p, user, TokenKey(cfg, kind));
      (true, m.(rows := Seqs.Filter(m.rows, p)))
  }

  /** `deleteAllTokens`: removes both of the user's token records and nothing else. */
  function DeleteAllTokens(m: MetaModel, cfg: RbacService.Config, user: string): (r: MetaModel)
    ensures r.mode == m.mode
    ensures forall kind: Jwt.TokenKind :: !HasKey(r.rows, user, TokenKey(cfg, kind))
    ensures forall x :: x in r.rows <==> x in m.rows && !(x.user == user && x.key in {TokenKey(cfg, Jwt.Access), TokenKey(cfg, Jwt.Refresh)})
    ensures Valid(m.rows) ==> Valid(r.rows)
  {
    var p := (x: MetaRow) => !(x.user == user && (x.key == TokenKey(cfg, Jwt.Access) || x.key == TokenKey(cfg, Jwt.Refresh)));
    FilterKeepsValid(m.rows, p);
    FilterDropsKey(m.rows, p, user, TokenKey(cfg, Jwt.Access));
    FilterDropsKey(m.rows, p, user, TokenKey(cfg, Jwt.Refresh));
    m.(rows := Seqs.Filter(m.rows, p))
  }

  /** The row is one of the two token records: its key is the access or the refresh token key. */
  predicate IsTokenRecord(cfg: RbacService.Config, x: MetaRow) {
    x.key in {TokenKey(cfg, Jwt.Access), TokenKey(cfg, Jwt.Refresh)}
  }

  /**
   * A token record `deleteExpiredTokens` means to remove: its value is not
   * JSON, or not a JSON array, or its `exp` (0 when absent) has passed.
   */
  predicate ExpiredTokenRecord(cfg: RbacService.Config, x: MetaRow, now: int) {
    && IsTokenRecord(cfg, x)
    && match x.value
       case Invalid(_) => true
       case Scalar(_) => true
       case List(_) => 0 < now
       case Object(f) => IntOr(f, "exp", 0) < now
  }

  /** A token record whose value is valid JSON that does not decode to an array. */
  predicate HoldsScalarRecord(cfg: RbacService.Config, rows: seq<MetaRow>) {
    exists i :: 0 <= i < |rows| && IsTokenRecord(cfg, rows[i]) && rows[i].value.Scalar?
  }

  /** A token record whose value is not JSON. */
  predicate HoldsInvalidRecord(cfg: RbacService.Config, rows: seq<MetaRow>) {
    exists i :: 0 <= i < |rows| && IsTokenRecord(cfg, rows[i]) && rows[i].value.Invalid?
  }

  /**
   * How `deleteExpiredTokens` as written fails: `Arr::get` is handed a
   * decoded value that is not an array (a type error), or the `DELETE`
   * statement names an unquoted id.
   */
  datatype PurgeError = NotAnArray | MalformedStatement

  /** One entry of the `IN (…)` list: quoted for an expired record, bare for a record that is not JSON. */
  datatype InEntry = Quoted(id: string) | Bare(id: string)

  /** The entry `deleteExpiredTokens` writes for a record it deletes. */
  function Entry(x: MetaRow): InEntry {
    if x.value.Invalid? then Bare(x.id) else Quoted(x.id)
  }

  /**
   * The `IN (…)` list `deleteExpiredTokens` builds: an entry for each expired
   * or unreadable token record. A record that decodes to a scalar stops the
   * loop with a type error, so no list is built at all.
   */
  function DeleteList(cfg: RbacService.Config, rows: seq<MetaRow>, now: int): (r: Result<seq<InEntry>, PurgeError>)
    ensures r.Err? <==> HoldsScalarRecord(cfg, rows)
    ensures r.Err? ==> r.error == NotAnArray
    ensures r.Ok? ==> forall e :: e in r.value ==> exists x :: x in rows && e == Entry(x) && ExpiredTokenRecord(cfg, x, now)
    ensures r.Ok? ==> forall i :: 0 <= i < |rows| && ExpiredTokenRecord(cfg, rows[i], now) ==> Entry(rows[i]) in r.value
  {
    if |rows| == 0 then Ok([])
    else if IsTokenRecord(cfg, rows[0]) && rows[0].value.Scalar? then Err(NotAnArray)
    else
      assert HoldsScalarRecord(cfg, rows) <==> HoldsScalarRecord(cfg, rows[1..]) by {
        if HoldsScalarRecord(cfg, rows) {
          var i :| 0 <= i < |rows| && IsTokenRecord(cfg, rows[i]) && rows[i].value.Scalar?;
          assert rows[1..][i - 1] == rows[i];
        }
        if HoldsScalarRecord(cfg, rows[1..]) {
          var i :| 0 <= i < |rows[1..]| && IsTokenRecord(cfg, rows[1..][i]) && rows[1..][i].value.Scalar?;
          assert rows[i + 1] == rows[1..][i];
        }
      }
      match DeleteList(cfg, rows[1..], now)
      case Err(e) => Err(e)
      case Ok(rest) =>
        var l := (if ExpiredTokenRecord(cfg, rows[0], now) then [Entry(rows[0])] else []) + rest;
        assert forall i :: 1 <= i < |rows| ==> rows[i] == rows[1..][i - 1];
        Ok(l)
  }

  /**
   * `deleteExpiredTokens` as written (UserMetaModel.php:570-591): a token
   * record that decodes to a scalar makes `Arr::get` raise, and a record that
   * is not JSON is added to the `IN` list without quotes; a row id is a UUID,
   * which is not an SQL literal, so that statement is malformed. Either way
   * the method raises and nothing is removed. Otherwise it removes exactly the
   * expired token records.
   */
  function DeleteExpiredTokensAsWritten(m: MetaModel, cfg: RbacService.Config, now: int): (r: Result<MetaModel, PurgeError>)
    ensures r.Err? <==> HoldsScalarRecord(cfg, m.rows) || HoldsInvalidRecord(cfg, m.rows)
    ensures HoldsScalarRecord(cfg, m.rows) ==> r == Err(NotAnArray)
    ensures !HoldsScalarRecord(cfg, m.rows) && HoldsInvalidRecord(cfg, m.rows) ==> r == Err(MalformedStatement)
    ensures r.Ok? ==> r.value.mode == m.mode
    ensures r.Ok? && UniqueIds(m.rows) ==> forall x :: x in r.value.rows <==> x in m.rows && !ExpiredTokenRecord(cfg, x, now)
  {
    match DeleteList(cfg, m.rows, now)
    case Err(e) => Err(e)
    case Ok(l) =>
      BareEntries(cfg, m.rows, now, l);
      if exists k :: 0 <= k < |l| && l[k].Bare? then Err(MalformedStatement)
      else
        var p := (x: MetaRow) => Quoted(x.id) !in l;
        Seqs.FilterMembers(m.rows, p);
        QuotedListRemovesExpired(cfg, m.rows, now, l);
        Ok(m.(rows := Seqs.Filter(m.rows, p)))
  }

  /** The list holds a bare entry exactly when some token record is not JSON. */
  lemma BareEntries(cfg: RbacService.Config, rows: seq<MetaRow>, now: int, l: seq<InEntry>)
    requires DeleteList(cfg, rows, now) == Ok(l)
    ensures (exists k :: 0 <= k < |l| && l[k].Bare?) <==> HoldsInvalidRecord(cfg, rows)
  {
    if exists k :: 0 <= k < |l| && l[k].Bare? {
      var k :| 0 <= k < |l| && l[k].Bare?;
      assert l[k] in l;
      var x :| x in rows && l[k] == Entry(x) && ExpiredTokenRecord(cfg, x, now);
      var i :| 0 <= i < |rows| && rows[i] == x;
    }
    if HoldsInvalidRecord(cfg, rows) {
      var i :| 0 <= i < |rows| && IsTokenRecord(cfg, rows[i]) && rows[i].value.Invalid?;
      assert Entry(rows[i]) in l;
      var k :| 0 <= k < |l| && l[k] == Entry(rows[i]);
    }
  }

  /** Under the primary key, a list of quoted entries names exactly the expired token records. */
  lemma QuotedListRemovesExpired(cfg: RbacService.Config, rows: seq<MetaRow>, now: int, l: seq<InEntry>)
    requires DeleteList(cfg, rows, now) == Ok(l)
    requires forall k :: 0 <= k < |l| ==> !l[k].Bare?
    ensures UniqueIds(rows) ==> forall x :: x in rows ==> (Quoted(x.id) in l <==> ExpiredTokenRecord(cfg, x, now))
  {
    if UniqueIds(rows) {
      forall x | x in rows
        ensures Quoted(x.id) in l <==> ExpiredTokenRecord(cfg, x, now)
      {
        QuotedEntry(cfg, rows, now, l, x);
      }
    }
  }

  /** One row of the above: its id is listed exactly when it is an expired token record. */
  lemma QuotedEntry(cfg: RbacService.Config, rows: seq<MetaRow>, now: int, l: seq<InEntry>, x: MetaRow)
    requires DeleteList(cfg, rows, now) == Ok(l)
    requires forall k :: 0 <= k < |l| ==> !l[k].Bare?
    requires UniqueIds(rows) && x in rows
    ensures Quoted(x.id) in l <==> ExpiredTokenRecord(cfg, x, now)
  {
    var i :| 0 <= i < |rows| && rows[i] == x;
    if Quoted(x.id) in l {
      var y :| y in rows && Quoted(x.id) == Entry(y) && ExpiredTokenRecord(cfg, y, now);
      var j :| 0 <= j < |rows| && rows[j] == y;
      assert rows[i].id == rows[j].id;
    }
    if ExpiredTokenRecord(cfg, x, now) {
      assert Entry(rows[i]) in l;
      var k :| 0 <= k < |l| && l[k] == Entry(x);
      assert !x.value.Invalid?;
    }
  }

  /**
   * `deleteExpiredTokens` as intended: every expired or unreadable token
   * record goes, and nothing else. When every token record decodes to an
   * array, the code as written does the same.
   */
  function DeleteExpiredTokens(m: MetaModel, cfg: RbacService.Config, now: int): (r: MetaModel)
    ensures r.mode == m.mode
    ensures Valid(m.rows) ==> Valid(r.rows)
    ensures forall x :: x in r.rows <==> x in m.rows && !ExpiredTokenRecord(cfg, x, now)
    ensures Valid(m.rows) && DeleteExpiredTokensAsWritten(m, cfg, now).Ok? ==>
      forall x :: x in DeleteExpiredTokensAsWritten(m, cfg, now).value.rows <==> x in r.rows
  {
    var p := (x: MetaRow) => !ExpiredTokenRecord(cfg, x, now);
    FilterKeepsValid(m.rows, p);
    m.(rows := Seqs.Filter(m.rows, p))
  }

  /** The discrepancy at line 579: a store holding one unreadable refresh record fails as written and loses it as intended. */
  lemma DeleteExpiredTokensCounterexample(cfg: RbacService.Config, now: int)
    ensures var bad := MetaRow("0b7c6e0e-5d1a-4c7e-9a43-3f1f1f8d2a11", "u", TokenKey(cfg, Jwt.Refresh), Invalid("{"));
            var m := MetaModel([bad], Default);
            && DeleteExpiredTokensAsWritten(m, cfg, now) == Err(MalformedStatement)
            && bad !in DeleteExpiredTokens(m, cfg, now).rows
  {
    var bad := MetaRow("0b7c6e0e-5d1a-4c7e-9a43-3f1f1f8d2a11", "u", TokenKey(cfg, Jwt.Refresh), Invalid("{"));
    assert [bad][0] == bad;
    assert HoldsInvalidRecord(cfg, [bad]);
  }

  /**
   * The discrepancy at line 586: a refresh record holding the JSON number `5`
   * makes the purge as written raise, so an expired access record beside it
   * stays; as intended both go.
   */
  lemma ScalarRecordAbortsPurge(cfg: RbacService.Config, now: int)
    requires 0 < now
    ensures var odd := MetaRow("r1", "u", TokenKey(cfg, Jwt.Refresh), Scalar("5"));
            var old_ := MetaRow("a1", "u", TokenKey(cfg, Jwt.Access), ExpRecord(now - 1));
            var m := MetaModel([old_, odd], Default);
            && DeleteExpiredTokensAsWritten(m, cfg, now) == Err(NotAnArray)
            && old_ !in DeleteExpiredTokens(m, cfg, now).rows && odd !in DeleteExpiredTokens(m, cfg, now).rows
  {
    var odd := MetaRow("r1", "u", TokenKey(cfg, Jwt.Refresh), Scalar("5"));
    var old_ := MetaRow("a1", "u", TokenKey(cfg, Jwt.Access), ExpRecord(now - 1));
    var rows := [old_, odd];
    assert rows[1] == odd;
    assert HoldsScalarRecord(cfg, rows);
    assert ExpiredTokenRecord(cfg, old_, now);
  }

  // ------------------------- One-time passwords -------------------------

  /** A stored OTP `getTotpFromMetaValue` accepts: a JSON object with the three keys set, not expired. */
  predicate ValidOtp(v: Json, now: int) {
    v.Object? && IsSet(v.fields, "created_at") && IsSet(v.fields, "expires_at") && IsSet(v.fields, "value")
    && var e := IntOr(v.fields, "expires_at", 0); (e == 0 || now <= e)
  }

  /** `getTotpFromMetaValue`: the record, or none when it is malformed or expired. */
  function TotpFromMetaValue(v: Json, now: int): (r: Option<T.Totp>)
    ensures r.Some? <==> ValidOtp(v, now)
    ensures r.Some? ==> r.value.GetTotp() == v.fields
  {
    match v
    case Object(f) =>
      if !IsSet(f, "created_at") || !IsSet(f, "expires_at") || !IsSet(f, "value") then None
      else
        var t := T.Totp(f);
        if t.GetExpiresAt() != 0 && t.GetExpiresAt() < now then None else Some(t)
    case _ => None
  }

  /** The user has a valid OTP under `key`. */
  predicate HasValidOtp(rows: seq<MetaRow>, user: string, key: string, now: int) {
    exists i :: 0 <= i < |rows| && rows[i].user == user && rows[i].key == key && ValidOtp(rows[i].value, now)
  }

  /** `deleteTotp`: removes the user's row under `key` (a raw delete; the flags are untouched). */
  function DeleteTotp(m: MetaModel, user: string, key: string): (r: (bool, MetaModel))
    ensures r.0 && r.1.mode == m.mode
    ensures !HasKey(r.1.rows, user, key)
    ensures forall x :: x in r.1.rows <==> x in m.rows && !(x.user == user && x.key == key)
    ensures !HasKey(m.rows, user, key) ==> r.1 == m
    ensures Valid(m.rows) ==> Valid(r.1.rows)
  {
    var p := (x: MetaRow) => !(x.user == user && x.key == key);
    FilterKeepsValid(m.rows, p);
    FilterDropsKey(m.rows, p, user, key);
    (true, m.(rows := Seqs.Filter(m.rows, p)))
  }

  /**
   * `getTotp`: the user's valid OTP under `key`. A missing or falsy value is
   * `DoesNotExist` with no change; a malformed or expired one is deleted and
   * then `DoesNotExist`.
   */
  function GetTotp(m: MetaModel, user: string, key: string, now: int): (r: (Result<T.Totp, OrmError>, MetaModel))
    ensures r.0.Err? ==> r.0.error == DoesNotExist
    ensures !HasKey(m.rows, user, key) ==> r == (Err(DoesNotExist), m)
    ensures r.0.Ok? ==> r.1 == m
    ensures r.0.Ok? ==> exists i :: 0 <= i < |m.rows| && m.rows[i].user == user && m.rows[i].key == key
                          && ValidOtp(m.rows[i].value, now) && r.0.value.GetTotp() == m.rows[i].value.fields
    ensures UniqueUserKeys(m.rows) ==> (r.0.Ok? <==> HasValidOtp(m.rows, user, key, now))
    ensures r.0.Err? ==> r.1 == m || r.1 == DeleteTotp(m, user, key).1
    ensures r.0.Err? && UniqueUserKeys(m.rows) && HasKey(m.rows, user, key) && !Falsy(m.rows[KeyIndex(m.rows, user, key).value].value) ==> !HasKey(r.1.rows, user, key)
  {
    match KeyIndex(m.rows, user, key)
    case None => (Err(DoesNotExist), m)
    case Some(i) =>
      if Falsy(m.rows[i].value) then
        NoValidOtpUnderFalsy(m.rows, user, key, now, i);
        (Err(DoesNotExist), m)
      else match TotpFromMetaValue(m.rows[i].value, now)
        case Some(t) => (Ok(t), m)
        case None =>
          NoValidOtpAt(m.rows, user, key, now, i);
          (Err(DoesNotExist), DeleteTotp(m, user, key).1)
  }

  /** Under the unique constraint, the row at the lookup position decides whether there is a valid OTP. */
  lemma NoValidOtpAt(rows: seq<MetaRow>, user: string, key: string, now: int, i: nat)
    requires KeyIndex(rows, user, key) == Some(i) && !ValidOtp(rows[i].value, now)
    ensures UniqueUserKeys(rows) ==> !HasValidOtp(rows, user, key, now)
  {
    if UniqueUserKeys(rows) && HasValidOtp(rows, user, key, now) {
      var j :| 0 <= j < |rows| && rows[j].user == user && rows[j].key == key && ValidOtp(rows[j].value, now);
      KeyIndexUnique(rows, user, key, j);
    }
  }

  /** A falsy value is never a valid OTP. */
  lemma NoValidOtpUnderFalsy(rows: seq<MetaRow>, user: string, key: string, now: int, i: nat)
    requires KeyIndex(rows, user, key) == Some(i) && Falsy(rows[i].value)
    ensures UniqueUserKeys(rows) ==> !HasValidOtp(rows, user, key, now)
  {
    NoValidOtpAt(rows, user, key, now, i);
  }

  /** The value `createTotp` stores: the timestamps and the hash of the secret. */
  function StoredOtp(H: string -> string, createdAt: int, expiresAt: int, raw: string): Json {
    Object(map["created_at" := JInt(createdAt), "expires_at" := JInt(expiresAt),
               "value" := JStr(RbacService.CreateHash(H, raw))])
  }

  /** `expires_at` of a new OTP: never (0) for a zero duration, else `duration` minutes ahead. */
  function OtpExpiry(now: int, duration: int): int {
    if duration == 0 then 0 else now + duration * 60
  }

  /** The user holds a valid OTP under `key` created less than `wait` minutes before `now`. */
  predicate Throttled(rows: seq<MetaRow>, user: string, key: string, wait: int, now: int) {
    exists i :: 0 <= i < |rows| && rows[i].user == user && rows[i].key == key && ValidOtp(rows[i].value, now)
             && IntOr(rows[i].value.fields, "created_at", 0) > now - wait * 60
  }

  /**
   * `createTotp`: refuses with `AlreadyExists` while the user's current valid
   * OTP was created less than `wait` minutes ago; otherwise upserts the hashed
   * secret under `with_protected` and returns the record with the raw
   * secret. The upsert runs after `getTotp` has dropped a malformed or
   * expired row, so `after` below is the table it writes to. A missing user
   * is `DoesNotExist`; a refused write is `Unexpected`. `raw` stands for the
   * random string of the requested length and alphabet.
   */
  function CreateTotp(m: MetaModel, cfg: RbacService.Config, users: set<string>, freshId: string, H: string -> string,
                      user: string, key: string, wait: int, duration: int, raw: string, now: int): (r: (Result<T.Totp, OrmError>, MetaModel))
    ensures UniqueUserKeys(m.rows) ==> (r.0 == Err(AlreadyExists) <==> Throttled(m.rows, user, key, wait, now))
    ensures UniqueUserKeys(m.rows) && !Throttled(m.rows, user, key, wait, now) ==>
      var writable := FieldsValid(user, key) && WriteCheck(WithProtectedPrefix(m.mode), RbacService.ProtectedPrefix(cfg), key).None?;
      var after := GetTotp(m, user, key, now).1.rows;
      && (r.0 == Err(DoesNotExist) <==> writable && user !in users)
      && (r.0.Ok? <==> writable && user in users && (HasKey(after, user, key) || !IdUsed(after, freshId)))
    ensures r.0.Err? ==> r.0.error in {AlreadyExists, DoesNotExist, Unexpected}
    ensures r.0.Ok? ==> r.0.value == T.Make(now, OtpExpiry(now, duration), raw)
    ensures r.0.Ok? ==> exists x :: x in r.1.rows && x == MetaRow(x.id, user, key, StoredOtp(H, now, OtpExpiry(now, duration), raw))
    ensures r.0.Ok? ==> r.1.mode == Default
    ensures Valid(m.rows) ==> Valid(r.1.rows)
  {
    var got := GetTotp(m, user, key, now);
    if got.0.Ok? && got.0.value.GetCreatedAt() > now - wait * 60 then (Err(AlreadyExists), got.1)
    else
      var expires := OtpExpiry(now, duration);
      var totp := T.Make(now, expires, raw);
      var stored := StoredOtp(H, now, expires, raw);
      var up := Upsert(MetaModel(got.1.rows, WithProtectedPrefix(got.1.mode)), cfg, users, freshId, user, key, stored);
      match up.0
      case Err(e) => (Err(if e == InvalidField then Unexpected else e), up.1)
      case Ok(row) =>
        (Ok(totp), up.1)
  }

  /** `deleteExpiredTotps`: removes every row under `key` (any user) that is not a valid OTP, and nothing else. */
  function DeleteExpiredTotps(m: MetaModel, key: string, now: int): (r: MetaModel)
    ensures r.mode == m.mode
    ensures forall x :: x in r.rows <==> x in m.rows && !(x.key == key && !ValidOtp(x.value, now))
    ensures Valid(m.rows) ==> Valid(r.rows)
  {
    var p := (x: MetaRow) => !(x.key == key && TotpFromMetaValue(x.value, now).None?);
    FilterKeepsValid(m.rows, p);
    m.(rows := Seqs.Filter(m.rows, p))
  }

  /** The three OTP purposes, each stored under its own protected key. */
  datatype OtpPurpose = PasswordReset | TwoFactor | Verification

  /** The meta key of an OTP purpose: the protected prefix followed by `password`, `tfa` or `verification`. */
  function OtpKey(cfg: RbacService.Config, purpose: OtpPurpose): (k: string)
    ensures StartsWith(k, RbacService.ProtectedPrefix(cfg))
  {
    var prefix := RbacService.ProtectedPrefix(cfg);
    var k := prefix + (match purpose case PasswordReset => "password" case TwoFactor => "tfa" case Verification => "verification");
    assert k[..|prefix|] == prefix;
    k
  }

  /**
   * OTP and token keys are all protected, so in the default mode a read hides
   * them and a write or delete refuses them; and no OTP key is a token key,
   * so the OTP operations never touch a token record.
   */
  lemma ReservedKeys(cfg: RbacService.Config, purpose: OtpPurpose, kind: Jwt.TokenKind)
    ensures var prefix := RbacService.ProtectedPrefix(cfg);
            forall k :: k in {OtpKey(cfg, purpose), TokenKey(cfg, kind)} ==>
              !ReadVisible(Default, prefix, k) && WriteCheck(Default, prefix, k).Some? && DeleteCheck(Default, prefix, k).Some?
    ensures OtpKey(cfg, purpose) != TokenKey(cfg, kind)
  {
    var prefix := RbacService.ProtectedPrefix(cfg);
    SensitiveImpliesInsensitive(OtpKey(cfg, purpose), prefix);
    SensitiveImpliesInsensitive(TokenKey(cfg, kind), prefix);
    var o := OtpKey(cfg, purpose);
    var t := TokenKey(cfg, kind);
    assert o[|prefix|] in "ptv";
    assert t[|prefix|] in "ar";
  }

  /** The stored OTP is valid from its creation until it expires (forever for a zero duration). */
  lemma StoredOtpValid(H: string -> string, now: int, duration: int, raw: string, later: int)
    requires now <= later && (duration == 0 || later <= now + duration * 60)
    ensures ValidOtp(StoredOtp(H, now, OtpExpiry(now, duration), raw), later)
  {
  }

  /**
   * Round trip: after `createTotp` succeeds, `getTotp` at any moment before
   * expiry finds a record whose value matches the raw secret it returned.
   */
  lemma CreateThenGetTotp(m: MetaModel, cfg: RbacService.Config, users: set<string>, freshId: string, H: string -> string,
                          user: string, key: string, wait: int, duration: int, raw: string, now: int, later: int)
    requires Valid(m.rows)
    requires CreateTotp(m, cfg, users, freshId, H, user, key, wait, duration, raw, now).0.Ok?
    requires now <= later && (duration == 0 || later <= now + duration * 60)
    ensures var c := CreateTotp(m, cfg, users, freshId, H, user, key, wait, duration, raw, now);
            var g := GetTotp(c.1, user, key, later);
            && g.0.Ok? && g.1 == c.1
            && RbacService.HashMatches(H, g.0.value.GetValue(), c.0.value.GetValue())
            && g.0.value.GetCreatedAt() == now && g.0.value.GetExpiresAt() == OtpExpiry(now, duration)
  {
    var c := CreateTotp(m, cfg, users, freshId, H, user, key, wait, duration, raw, now);
    var stored := StoredOtp(H, now, OtpExpiry(now, duration), raw);
    var x :| x in c.1.rows && x == MetaRow(x.id, user, key, stored);
    var j :| 0 <= j < |c.1.rows| && c.1.rows[j] == x;
    StoredOtpValid(H, now, duration, raw, later);
    assert HasValidOtp(c.1.rows, user, key, later);
    var g := GetTotp(c.1, user, key, later);
    var i :| 0 <= i < |c.1.rows| && c.1.rows[i].user == user && c.1.rows[i].key == key
             && ValidOtp(c.1.rows[i].value, later) && g.0.value.GetTotp() == c.1.rows[i].value.fields;
    KeyIndexUnique(c.1.rows, user, key, i);
    KeyIndexUnique(c.1.rows, user, key, j);
    assert g.0.value.fields == stored.fields;
    RbacService.HashRoundTrip(H, raw);
  }

  /**
   * Throttling: while the OTP created at `now` is still valid and fewer than
   * `wait` minutes have passed, another `createTotp` for the same key is refused.
   */
  lemma CreateTotpThrottles(m: MetaModel, cfg: RbacService.Config, users: set<string>, freshId: string, freshId2: string,
                            H: string -> string, user: string, key: string, wait: int, duration: int,
                            raw: string, raw2: string, now: int, later: int)
    requires Valid(m.rows)
    requires CreateTotp(m, cfg, users, freshId, H, user, key, wait, duration, raw, now).0.Ok?
    requires now <= later < now + wait * 60 && (duration == 0 || later <= now + duration * 60)
    ensures var c := CreateTotp(m, cfg, users, freshId, H, user, key, wait, duration, raw, now);
            CreateTotp(c.1, cfg, users, freshId2, H, user, key, wait, duration, raw2, later).0 == Err(AlreadyExists)
  {
    var c := CreateTotp(m, cfg, users, freshId, H, user, key, wait, duration, raw, now);
    var stored := StoredOtp(H, now, OtpExpiry(now, duration), raw);
    var x :| x in c.1.rows && x == MetaRow(x.id, user, key, stored);
    var j :| 0 <= j < |c.1.rows| && c.1.rows[j] == x;
    StoredOtpValid(H, now, duration, raw, later);
    assert IntOr(c.1.rows[j].value.fields, "created_at", 0) == now;
  }
}
