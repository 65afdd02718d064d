/**
 * The service object every model and authenticator consults: configuration
 * with defaults, prefixed table names, the generic secret hash and the OTP
 * alphabets.
 */
module RbacService {

  /** A configuration value as PHP holds it. */
  datatype Value = VBool(b: bool) | VInt(i: int) | VStr(s: string) | VNull

  /** Configuration, keyed by the full dotted path (`user.token.revocable`). */
  type Config = map<string, Value>

  const RequireVerificationKey := "user.require_verification"
  const RevocableKey := "user.token.revocable"
  const AccessDurationKey := "user.token.access_duration"
  const RefreshDurationKey := "user.token.refresh_duration"
  const KeyMaxMinsKey := "user.key.max_mins"
  const InvitationDurationKey := "invitation_duration"
  const ProtectedPrefixKey := "protected_prefix"
  const TablePrefixKey := "table_prefix"

  /** `getConfig`: the configured value, or the caller's default when the key is missing. */
  function GetConfig(cfg: Config, key: string, default: Value): (v: Value)
    ensures key in cfg ==> v == cfg[key]
    ensures key !in cfg ==> v == default
  {
    if key in cfg then cfg[key] else default
  }

  /** PHP `$v === true`: only the boolean `true` passes, never `1` or `"true"`. */
  predicate IsTrue(v: Value) {
    v == VBool(true)
  }

  /** A value used as a number of minutes in PHP arithmetic (`true` is 1, `false` and `null` are 0). */
  function AsInt(v: Value): int {
    match v
    case VInt(i) => i
    case VBool(b) => if b then 1 else 0
    case VNull => 0
    case VStr(_) => 0
  }

  /** A value used where PHP expects a string. */
  function AsString(v: Value): string {
    match v
    case VStr(s) => s
    case _ => ""
  }

  /** `user.require_verification`, default `true`, compared with `=== true`. */
  function RequireVerification(cfg: Config): (r: bool)
    ensures r <==> RequireVerificationKey !in cfg || cfg[RequireVerificationKey] == VBool(true)
  {
    IsTrue(GetConfig(cfg, RequireVerificationKey, VBool(true)))
  }

  /** `user.require_verification === false`: verification explicitly switched off. */
  function VerificationSwitchedOff(cfg: Config): (r: bool)
    ensures r <==> RequireVerificationKey in cfg && cfg[RequireVerificationKey] == VBool(false)
    ensures r ==> !RequireVerification(cfg)
  {
    GetConfig(cfg, RequireVerificationKey, VBool(true)) == VBool(false)
  }

  /** `user.token.revocable`, no default (null), compared with `=== true`. */
  function Revocable(cfg: Config): (r: bool)
    ensures r <==> RevocableKey in cfg && cfg[RevocableKey] == VBool(true)
  {
    IsTrue(GetConfig(cfg, RevocableKey, VNull))
  }

  /** `user.token.access_duration` in minutes, default 5. */
  function AccessDuration(cfg: Config): (m: int)
    ensures AccessDurationKey !in cfg ==> m == 5
    ensures AccessDurationKey in cfg && cfg[AccessDurationKey].VInt? ==> m == cfg[AccessDurationKey].i
  {
    AsInt(GetConfig(cfg, AccessDurationKey, VInt(5)))
  }

  /** `user.token.refresh_duration` in minutes, default 10080 (one week). */
  function RefreshDuration(cfg: Config): (m: int)
    ensures RefreshDurationKey !in cfg ==> m == 10080
    ensures RefreshDurationKey in cfg && cfg[RefreshDurationKey].VInt? ==> m == cfg[RefreshDurationKey].i
  {
    AsInt(GetConfig(cfg, RefreshDurationKey, VInt(10080)))
  }

  /** `user.key.max_mins`, default 0 (no bound on a supplied expiry). */
  function KeyMaxMins(cfg: Config): (m: int)
    ensures KeyMaxMinsKey !in cfg ==> m == 0
    ensures KeyMaxMinsKey in cfg && cfg[KeyMaxMinsKey].VInt? ==> m == cfg[KeyMaxMinsKey].i
  {
    AsInt(GetConfig(cfg, KeyMaxMinsKey, VInt(0)))
  }

  /** `invitation_duration` in minutes, default 0 (an invitation expires at once). */
  function InvitationDuration(cfg: Config): (m: int)
    ensures InvitationDurationKey !in cfg ==> m == 0
    ensures InvitationDurationKey in cfg && cfg[InvitationDurationKey].VInt? ==> m == cfg[InvitationDurationKey].i
  {
    AsInt(GetConfig(cfg, InvitationDurationKey, VInt(0)))
  }

  /** `protected_prefix`, default `_app-`. */
  function ProtectedPrefix(cfg: Config): (p: string)
    ensures ProtectedPrefixKey !in cfg ==> p == "_app-"
    ensures ProtectedPrefixKey in cfg && cfg[ProtectedPrefixKey].VStr? ==> p == cfg[ProtectedPrefixKey].s
  {
    AsString(GetConfig(cfg, ProtectedPrefixKey, VStr("_app-")))
  }

  // Table names (TABLE_* constants)
  const TablePermissions := "permissions"
  const TableTenantInvitations := "tenant_invitations"
  const TableTenantMeta := "tenant_meta"
  const TableTenantRolePermissions := "tenant_role_permissions"
  const TableTenantPermissions := "tenant_permissions"
  const TableTenantRoles := "tenant_roles"
  const TableTenantTeams := "tenant_teams"
  const TableTenantUserMeta := "tenant_user_meta"
  const TableTenantUserRoles := "tenant_user_roles"
  const TableTenantUserTeams := "tenant_user_teams"
  const TableTenantUsers := "tenant_users"
  const TableTenants := "tenants"
  const TableUserKeys := "user_keys"
  const TableUserMeta := "user_meta"
  const TableUserTokens := "user_tokens"
  const TableUsers := "users"

  /** `getTableName`: the configured `table_prefix` (default empty) followed by the table. */
  function TableName(cfg: Config, table: string): (n: string)
    ensures TablePrefixKey !in cfg ==> n == table
    ensures TablePrefixKey in cfg && cfg[TablePrefixKey].VStr? ==>
      |n| == |cfg[TablePrefixKey].s| + |table| &&
      n[..|cfg[TablePrefixKey].s|] == cfg[TablePrefixKey].s &&
      n[|cfg[TablePrefixKey].s|..] == table
  {
    AsString(GetConfig(cfg, TablePrefixKey, VStr(""))) + table
  }

  /**
   * `createHash`: the keyed hash of a raw secret. `H` stands for the
   * application's keyed hash primitive, which this model leaves uninterpreted.
   */
  function CreateHash(H: string -> string, raw: string): string {
    H(raw)
  }

  /** `hashMatches`: the stored hash is exactly the hash of the presented raw value. */
  predicate HashMatches(H: string -> string, hash: string, raw: string): (m: bool)
    ensures m <==> hash == CreateHash(H, raw)
  {
    hash == H(raw)
  }

  /** A freshly created hash always matches the value it was created from. */
  lemma HashRoundTrip(H: string -> string, raw: string)
    ensures HashMatches(H, CreateHash(H, raw), raw)
  {
  }

  /** The OTP alphabets (TOTP_TYPE_* constants). */
  datatype OtpAlphabet = NonZero | Alpha | Numeric | AlphaNumeric {

    /** The constant's string value. */
    function Name(): (n: string)
      ensures n in ["nonzero", "alpha", "numeric", "alphanumeric"]
    {
      match this
      case NonZero => "nonzero"
      case Alpha => "alpha"
      case Numeric => "numeric"
      case AlphaNumeric => "alphanumeric"
    }
  }

  /** The four constants are pairwise distinct, so the name identifies the alphabet. */
  lemma AlphabetNamesDistinct(a: OtpAlphabet, b: OtpAlphabet)
    ensures a.Name() == b.Name() <==> a == b
  {
  }
}
