/**
 * `UserKeysModel`: long-lived API keys. Only the keyed hash of a key is
 * stored, and the hash is never read back; the raw key is handed back once,
 * by the first read after the key is created. A key always has an expiry,
 * fixed at creation.
 */
module UserKeys {
  import opened Wrappers
  import opened Errors
  import RbacService
  import Rules
  import Seqs

  /** A `user_keys` row; the allow-lists are null or a list, as `onRead` decodes them. */
  datatype UserKey = UserKey(
    id: string, user: string, name: string, keyValue: string,
    allowedDomains: Option<seq<string>>, allowedIps: Option<seq<string>>,
    expiresAt: int, lastUsed: Option<int>)

  /** The key table and the model's `raw_key` stash (`""` when empty). */
  datatype KeyModel = KeyModel(keys: seq<UserKey>, stash: string)

  /** The primary key, the unique hashed key and the unique (user, name) pair. */
  predicate Valid(keys: seq<UserKey>) {
    && Seqs.UniqueBy(keys, (k: UserKey) => k.id)
    && Seqs.UniqueBy(keys, (k: UserKey) => k.keyValue)
    && Seqs.UniqueBy(keys, (k: UserKey) => (k.user, k.name))
  }

  /**
   * The key hash: `App::createHash(raw, app.key, 'sha256', true)`, the
   * binary SHA-256 HMAC under the application key. It is not the hash of
   * `RbacService.createHash` (which keeps `App`'s default algorithm and
   * encoding), so `KH` is a parameter of its own.
   */
  function KeyHash(KH: string -> string, raw: string): string {
    KH(raw)
  }

  /** `hashedKeyExists`. */
  predicate HashedKeyExists(keys: seq<UserKey>, hashed: string) {
    exists k :: k in keys && k.keyValue == hashed
  }

  /**
   * `createNewKey`: draws raw keys until one whose hash is not stored yet
   * comes up. `candidates` are the successive random draws; the answer is
   * the position of the first usable one, or `None` when every draw collides.
   */
  function FirstFreeKey(keys: seq<UserKey>, KH: string -> string, candidates: seq<string>): (r: Option<nat>)
    ensures r.Some? ==> r.value < |candidates| && !HashedKeyExists(keys, KeyHash(KH, candidates[r.value]))
    ensures r.Some? ==> forall j :: 0 <= j < r.value ==> HashedKeyExists(keys, KeyHash(KH, candidates[j]))
    ensures r.None? <==> forall j :: 0 <= j < |candidates| ==> HashedKeyExists(keys, KeyHash(KH, candidates[j]))
  {
    Seqs.FirstIndex(candidates, (c: string) => !HashedKeyExists(keys, KeyHash(KH, c)))
  }

  /** `createNewKey` as the loop it runs: returns the raw key and its hash, which no stored key has. */
  method CreateNewKey(keys: seq<UserKey>, KH: string -> string, candidates: seq<string>) returns (r: Option<(string, string)>)
    ensures r.Some? ==> r.value.0 in candidates && r.value.1 == KeyHash(KH, r.value.0)
    ensures r.Some? ==> !HashedKeyExists(keys, r.value.1)
    ensures r.None? <==> forall j :: 0 <= j < |candidates| ==> HashedKeyExists(keys, KeyHash(KH, candidates[j]))
    ensures r.Some? <==> FirstFreeKey(keys, KH, candidates).Some?
    ensures r.Some? ==> r.value.0 == candidates[FirstFreeKey(keys, KH, candidates).value]
  {
    var i := 0;
    while i < |candidates|
      invariant 0 <= i <= |candidates|
      invariant forall j :: 0 <= j < i ==> HashedKeyExists(keys, KeyHash(KH, candidates[j]))
    {
      var hashed := KeyHash(KH, candidates[i]);
      var taken := false;
      var k := 0;
      while k < |keys|
        invariant 0 <= k <= |keys|
        invariant taken <==> exists j :: 0 <= j < k && keys[j].keyValue == hashed
      {
        if keys[k].keyValue == hashed {
          taken := true;
        }
        k := k + 1;
      }
      if !taken {
        return Some((candidates[i], hashed));
      }
      i := i + 1;
    }
    return None;
  }

  /** Whether a supplied expiry is acceptable: any value when `max_mins` is 0 or less, otherwise within `[now, now + max_mins*60]`. */
  predicate ExpiryAllowed(cfg: RbacService.Config, expiresAt: int, now: int) {
    RbacService.KeyMaxMins(cfg) > 0 ==>
      now <= expiresAt <= now + RbacService.KeyMaxMins(cfg) * 60
  }

  /** The expiry `onCreating` stores: the supplied one, or `now + max_mins*60` when none is supplied. */
  function ExpiryOf(cfg: RbacService.Config, expiresAt: Option<int>, now: int): (e: int)
    ensures expiresAt.None? ==> e == now + RbacService.KeyMaxMins(cfg) * 60
    ensures expiresAt.Some? ==> e == expiresAt.value
  {
    if expiresAt.None? then now + RbacService.KeyMaxMins(cfg) * 60 else expiresAt.value
  }

  /** The write rules of the fields a create supplies: `user` is a UUID (36 characters) and `name` at most 255 characters. */
  predicate FieldsValid(user: string, name: string) {
    Rules.IsUuid(user) && Rules.ShortText(name)
  }

  predicate IdUsed(keys: seq<UserKey>, id: string) {
    exists k :: k in keys && k.id == id
  }

  predicate NameUsed(keys: seq<UserKey>, user: string, name: string) {
    exists k :: k in keys && k.user == user && k.name == name
  }

  /**
   * `create` exactly as the source orders it: `onCreating` generates the key
   * (which fills the stash) before it checks the expiry, so a create that
   * fails afterwards leaves the raw key of a key that was never stored in
   * the stash. The write rules are checked before `onCreating` runs.
   */
  function CreateKeyAsWritten(m: KeyModel, cfg: RbacService.Config, KH: string -> string, users: set<string>,
                              freshId: string, candidates: seq<string>, user: string, name: string,
                              domains: Option<seq<string>>, ips: Option<seq<string>>,
                              expiresAt: Option<int>, now: int): (r: (Result<UserKey, OrmError>, KeyModel))
    ensures r.1.keys == m.keys || r.0.Ok?
    ensures !FieldsValid(user, name) ==> r == (Err(InvalidField), m)
    ensures FieldsValid(user, name) && FirstFreeKey(m.keys, KH, candidates).Some? ==>
      r.1.stash == candidates[FirstFreeKey(m.keys, KH, candidates).value]
    ensures r.0.Ok? <==>
      && FieldsValid(user, name) && FirstFreeKey(m.keys, KH, candidates).Some?
      && (expiresAt.None? || ExpiryAllowed(cfg, expiresAt.value, now))
      && user in users && !NameUsed(m.keys, user, name) && !IdUsed(m.keys, freshId)
  {
    if !FieldsValid(user, name) then (Err(InvalidField), m)
    else match FirstFreeKey(m.keys, KH, candidates)
    case None => (Err(Unexpected), m)
    case Some(i) =>
      var m1 := m.(stash := candidates[i]);
      if expiresAt.Some? && !ExpiryAllowed(cfg, expiresAt.value, now) then (Err(InvalidField), m1)
      else Insert(m1, users, freshId, UserKey(freshId, user, name, KeyHash(KH, candidates[i]),
                                              domains, ips, ExpiryOf(cfg, expiresAt, now), None))
  }

  /** The ORM's insert after `onCreating`: the `users` foreign key, the unique (user, name), then the fresh id. */
  function Insert(m: KeyModel, users: set<string>, freshId: string, k: UserKey): (r: (Result<UserKey, OrmError>, KeyModel))
    ensures r.0.Ok? ==> r.0.value == k && r.1 == m.(keys := m.keys + [k])
    ensures r.0.Err? ==> r.1 == m
    ensures r.0.Ok? <==> k.user in users && !NameUsed(m.keys, k.user, k.name) && !IdUsed(m.keys, freshId)
  {
    if k.user !in users then (Err(DoesNotExist), m)
    else if NameUsed(m.keys, k.user, k.name) then (Err(AlreadyExists), m)
    else if IdUsed(m.keys, freshId) then (Err(Unexpected), m)
    else (Ok(k), m.(keys := m.keys + [k]))
  }

  /**
   * `create` with the raw key stashed only once the key is stored. The
   * write rules come first. The expiry is `now + max_mins*60` when omitted;
   * a supplied one must lie in `[now, now + max_mins*60]` when `max_mins` is
   * positive.
   */
  function CreateKey(m: KeyModel, cfg: RbacService.Config, KH: string -> string, users: set<string>,
                     freshId: string, candidates: seq<string>, user: string, name: string,
                     domains: Option<seq<string>>, ips: Option<seq<string>>,
                     expiresAt: Option<int>, now: int): (r: (Result<UserKey, OrmError>, KeyModel))
    ensures r.0.Err? ==> r.1 == m
    ensures !FieldsValid(user, name) ==> r.0 == Err(InvalidField)
    ensures FieldsValid(user, name) && FirstFreeKey(m.keys, KH, candidates).None? ==> r.0 == Err(Unexpected)
    ensures (FieldsValid(user, name) && FirstFreeKey(m.keys, KH, candidates).Some? &&
             expiresAt.Some? && !ExpiryAllowed(cfg, expiresAt.value, now)) ==> r.0 == Err(InvalidField)
    ensures r.0.Ok? <==>
      && FieldsValid(user, name) && FirstFreeKey(m.keys, KH, candidates).Some?
      && (expiresAt.None? || ExpiryAllowed(cfg, expiresAt.value, now))
      && user in users && !NameUsed(m.keys, user, name) && !IdUsed(m.keys, freshId)
    ensures r.0.Ok? ==>
      && FirstFreeKey(m.keys, KH, candidates).Some?
      && var raw := candidates[FirstFreeKey(m.keys, KH, candidates).value];
      && r.0.value == UserKey(freshId, user, name, KeyHash(KH, raw), domains, ips,
                              ExpiryOf(cfg, expiresAt, now), None)
      && r.1 == KeyModel(m.keys + [r.0.value], raw)
    ensures r.0.Ok? ==> !HashedKeyExists(m.keys, r.0.value.keyValue)
    ensures r.0.Ok? && expiresAt.Some? && RbacService.KeyMaxMins(cfg) > 0 ==>
      now <= r.0.value.expiresAt <= now + RbacService.KeyMaxMins(cfg) * 60
    ensures Valid(m.keys) ==> Valid(r.1.keys)
  {
    if !FieldsValid(user, name) then (Err(InvalidField), m)
    else match FirstFreeKey(m.keys, KH, candidates)
    case None => (Err(Unexpected), m)
    case Some(i) =>
      if expiresAt.Some? && !ExpiryAllowed(cfg, expiresAt.value, now) then (Err(InvalidField), m)
      else
        var k := UserKey(freshId, user, name, KeyHash(KH, candidates[i]), domains, ips, ExpiryOf(cfg, expiresAt, now), None);
        var ins := Insert(m, users, freshId, k);
        if ins.0.Ok? then
          AppendKeepsValid(m.keys, k);
          (ins.0, ins.1.(stash := candidates[i]))
        else (ins.0, m)
  }

  lemma AppendKeepsValid(keys: seq<UserKey>, k: UserKey)
    requires !IdUsed(keys, k.id) && !HashedKeyExists(keys, k.keyValue) && !NameUsed(keys, k.user, k.name)
    ensures Valid(keys) ==> Valid(keys + [k])
  {
    if Valid(keys) {
      forall i | 0 <= i < |keys|
        ensures keys[i].id != k.id && keys[i].keyValue != k.keyValue && (keys[i].user, keys[i].name) != (k.user, k.name)
      {
        assert keys[i] in keys;
      }
      Seqs.UniqueByAppend(keys, (x: UserKey) => x.id, k);
      Seqs.UniqueByAppend(keys, (x: UserKey) => x.keyValue, k);
      Seqs.UniqueByAppend(keys, (x: UserKey) => (x.user, x.name), k);
    }
  }

  /**
   * `find` through `onRead`. `key_value` is not a readable field (it is
   * missing from `allowed_fields_read` and listed by `getOmittedFields`), so
   * a read shows it only when `onRead` puts the stashed raw key there, and
   * then clears the stash. In a read result `keyValue` is that raw key, or
   * `""` for the absent field. A missing row is `DoesNotExist` and leaves the
   * stash alone.
   */
  function Read(m: KeyModel, id: string): (r: (Result<UserKey, OrmError>, KeyModel))
    ensures r.1.keys == m.keys
    ensures r.0.Err? <==> !IdUsed(m.keys, id)
    ensures r.0.Err? ==> r == (Err(DoesNotExist), m)
    ensures r.0.Ok? ==> r.1.stash == "" && r.0.value.keyValue == m.stash
    ensures r.0.Ok? ==> exists k :: k in m.keys && k.id == id && r.0.value == k.(keyValue := m.stash)
  {
    match Seqs.FirstIndex(m.keys, (k: UserKey) => k.id == id)
    case None => (Err(DoesNotExist), m)
    case Some(i) => (Ok(m.keys[i].(keyValue := m.stash)), m.(stash := ""))
  }

  /**
   * `findByKey`: the id of the row whose key value is the hash of the
   * presented key, read through `find`; `DoesNotExist` when no row matches.
   */
  function FindByKey(m: KeyModel, KH: string -> string, raw: string): (r: (Result<UserKey, OrmError>, KeyModel))
    ensures r.0.Err? <==> !HashedKeyExists(m.keys, KeyHash(KH, raw))
    ensures r.0.Err? ==> r == (Err(DoesNotExist), m)
    ensures r.0.Ok? ==> r.1 == m.(stash := "") && r.0.value.keyValue == m.stash
    ensures r.0.Ok? && Valid(m.keys) ==> exists k :: k in m.keys && k.keyValue == KeyHash(KH, raw) && r.0.value == k.(keyValue := m.stash)
  {
    match Seqs.FirstIndex(m.keys, (k: UserKey) => k.keyValue == KeyHash(KH, raw))
    case None => (Err(DoesNotExist), m)
    case Some(i) =>
      var r := Read(m, m.keys[i].id);
      if Valid(m.keys) then
        UniqueIdReadsRow(m.keys, i, m.stash);
        r
      else r
  }

  /** Under unique ids, reading the id of a row reads that row. */
  lemma UniqueIdReadsRow(keys: seq<UserKey>, i: nat, stash: string)
    requires i < |keys| && Seqs.UniqueBy(keys, (k: UserKey) => k.id)
    ensures Read(KeyModel(keys, stash), keys[i].id).0 == Ok(keys[i].(keyValue := stash))
  {
    assert keys[i] in keys;
    var k :| k in keys && k.id == keys[i].id && Read(KeyModel(keys, stash), keys[i].id).0.value == k.(keyValue := stash);
    Seqs.UniqueByMembers(keys, (k: UserKey) => k.id, k, keys[i]);
  }

  /** Reading a key appended under a fresh id reads that key, showing the stash as its key value. */
  lemma ReadAppended(keys: seq<UserKey>, k: UserKey, stash: string)
    requires !IdUsed(keys, k.id)
    ensures Read(KeyModel(keys + [k], stash), k.id) == (Ok(k.(keyValue := stash)), KeyModel(keys + [k], ""))
  {
    var r := Read(KeyModel(keys + [k], stash), k.id);
    var x :| x in keys + [k] && x.id == k.id && r.0.value == x.(keyValue := stash);
    assert x == k;
  }

  /** A patch for `update`; `None` is a field left out (or null, which `isset` treats alike). */
  datatype KeyPatch = KeyPatch(name: Option<string>, allowedDomains: Option<seq<string>>,
                               allowedIps: Option<seq<string>>, expiresAt: Option<int>)

  /**
   * `update`: a new name longer than 255 characters breaks the write rules
   * and `onUpdating` refuses any new expiry (both `InvalidField`); otherwise
   * the named key is patched, keeping (user, name) unique.
   */
  function UpdateKey(m: KeyModel, id: string, patch: KeyPatch): (r: (Result<UserKey, OrmError>, KeyModel))
    ensures patch.expiresAt.Some? ==> r == (Err(InvalidField), m)
    ensures patch.name.Some? && !Rules.ShortText(patch.name.value) ==> r == (Err(InvalidField), m)
    ensures r.0.Err? ==> r.1 == m
    ensures r.0.Ok? ==>
      exists i :: 0 <= i < |m.keys| && m.keys[i].id == id && r.1.keys == m.keys[i := r.0.value]
        && r.0.value.expiresAt == m.keys[i].expiresAt && r.0.value.keyValue == m.keys[i].keyValue
        && r.0.value.user == m.keys[i].user && r.0.value.id == id
        && r.0.value.name == patch.name.GetOr(m.keys[i].name)
        && (patch.allowedDomains.Some? ==> r.0.value.allowedDomains == patch.allowedDomains)
        && (patch.allowedIps.Some? ==> r.0.value.allowedIps == patch.allowedIps)
    ensures r.0.Ok? ==> Rules.ShortText(r.0.value.name) || patch.name.None?
    ensures r.1.stash == m.stash
    ensures Valid(m.keys) ==> Valid(r.1.keys)
  {
    if patch.expiresAt.Some? || (patch.name.Some? && !Rules.ShortText(patch.name.value)) then (Err(InvalidField), m)
    else match Seqs.FirstIndex(m.keys, (k: UserKey) => k.id == id)
      case None => (Err(DoesNotExist), m)
      case Some(i) =>
        var k := m.keys[i];
        var k1 := k.(name := patch.name.GetOr(k.name),
                     allowedDomains := if patch.allowedDomains.Some? then patch.allowedDomains else k.allowedDomains,
                     allowedIps := if patch.allowedIps.Some? then patch.allowedIps else k.allowedIps);
        if exists j :: 0 <= j < |m.keys| && j != i && m.keys[j].user == k1.user && m.keys[j].name == k1.name
        then (Err(AlreadyExists), m)
        else
          ReplaceKeepsValid(m.keys, i, k1);
          (Ok(k1), m.(keys := m.keys[i := k1]))
  }

  lemma ReplaceKeepsValid(keys: seq<UserKey>, i: nat, k: UserKey)
    requires i < |keys| && k.id == keys[i].id && k.keyValue == keys[i].keyValue
    requires forall j :: 0 <= j < |keys| && j != i ==> (keys[j].user, keys[j].name) != (k.user, k.name)
    ensures Valid(keys) ==> Valid(keys[i := k])
  {
    if Valid(keys) {
      Seqs.UniqueByUpdate(keys, (x: UserKey) => x.id, i, k);
      Seqs.UniqueByUpdate(keys, (x: UserKey) => x.keyValue, i, k);
      Seqs.UniqueByReplace(keys, (x: UserKey) => (x.user, x.name), i, k);
    }
  }

  /** `last_used := now` on the row with the id; the result of the update is not looked at. */
  function TouchLastUsed(keys: seq<UserKey>, id: string, now: int): (r: seq<UserKey>)
    ensures |r| == |keys|
    ensures forall i :: 0 <= i < |keys| ==>
      r[i] == (if keys[i].id == id then keys[i].(lastUsed := Some(now)) else keys[i])
  {
    seq(|keys|, i requires 0 <= i < |keys| => if keys[i].id == id then keys[i].(lastUsed := Some(now)) else keys[i])
  }

  // ----- Properties -----

  /**
   * The raw key is shown once: the first read after a successful create
   * shows the raw key, the next read shows no key value at all, and the
   * stored row holds only the key hash of the raw key.
   */
  lemma RawKeyShownOnce(m: KeyModel, cfg: RbacService.Config, KH: string -> string, users: set<string>,
                        freshId: string, candidates: seq<string>, user: string, name: string,
                        domains: Option<seq<string>>, ips: Option<seq<string>>, expiresAt: Option<int>, now: int)
    requires forall j :: 0 <= j < |candidates| ==> candidates[j] != ""
    requires CreateKey(m, cfg, KH, users, freshId, candidates, user, name, domains, ips, expiresAt, now).0.Ok?
    ensures var c := CreateKey(m, cfg, KH, users, freshId, candidates, user, name, domains, ips, expiresAt, now);
            var raw := candidates[FirstFreeKey(m.keys, KH, candidates).value];
            var first := Read(c.1, freshId);
            var second := Read(first.1, freshId);
            && first.0 == Ok(c.0.value.(keyValue := raw)) && raw != ""
            && second.0 == Ok(c.0.value.(keyValue := ""))
            && c.0.value in c.1.keys && c.0.value.keyValue == KeyHash(KH, raw)
  {
    var c := CreateKey(m, cfg, KH, users, freshId, candidates, user, name, domains, ips, expiresAt, now);
    var raw := candidates[FirstFreeKey(m.keys, KH, candidates).value];
    ReadAppended(m.keys, c.0.value, raw);
    ReadAppended(m.keys, c.0.value, "");
    assert c.1.keys[|m.keys|] == c.0.value;
  }

  /**
   * With no `max_mins` configured and no expiry supplied, a new key expires
   * the moment it is created.
   */
  lemma DefaultExpiryIsNow(m: KeyModel, cfg: RbacService.Config, KH: string -> string, users: set<string>,
                           freshId: string, candidates: seq<string>, user: string, name: string,
                           domains: Option<seq<string>>, ips: Option<seq<string>>, now: int)
    requires RbacService.KeyMaxMinsKey !in cfg
    requires CreateKey(m, cfg, KH, users, freshId, candidates, user, name, domains, ips, None, now).0.Ok?
    ensures CreateKey(m, cfg, KH, users, freshId, candidates, user, name, domains, ips, None, now).0.value.expiresAt == now
  {
  }

  /** With no bound configured, any supplied expiry is accepted, even one in the past. */
  lemma UnboundedExpiryAccepted(cfg: RbacService.Config, e: int, now: int)
    requires RbacService.KeyMaxMins(cfg) <= 0
    ensures ExpiryAllowed(cfg, e, now)
  {
  }

  /**
   * A failed create leaves the stash as it was (corrected behaviour); as the
   * source is written, the raw key of the key that was never stored is
   * stashed and shown by the next read of an unrelated key.
   */
  lemma FailedCreateLeaksRawKey()
    ensures var u := "00000000-0000-0000-0000-000000000001";
            var existing := UserKey("k1", u, "main", "h-old", None, None, 100, None);
            var m := KeyModel([existing], "");
            var cfg := map[RbacService.KeyMaxMinsKey := RbacService.VInt(10)];
            var KH := (raw: string) => "h-" + raw;
            var written := CreateKeyAsWritten(m, cfg, KH, {u}, "k2", ["new"], u, "second", None, None, Some(0), 100);
            var fixed := CreateKey(m, cfg, KH, {u}, "k2", ["new"], u, "second", None, None, Some(0), 100);
            && written.0 == Err(InvalidField) && fixed.0 == Err(InvalidField)
            && Read(written.1, "k1").0 == Ok(existing.(keyValue := "new"))
            && Read(fixed.1, "k1").0 == Ok(existing.(keyValue := ""))
  {
    var u := "00000000-0000-0000-0000-000000000001";
    var existing := UserKey("k1", u, "main", "h-old", None, None, 100, None);
    var KH := (raw: string) => "h-" + raw;
    assert FieldsValid(u, "second");
    assert "h-" + "new" != "h-old" by {
      assert ("h-" + "new")[2] == 'n';
    }
    assert !HashedKeyExists([existing], KeyHash(KH, "new"));
  }
}
