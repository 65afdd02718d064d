/**
 * Bearer tokens as the two token stores issue them and the token
 * authenticator reads them. Signing, verification and encoding belong to the
 * JWT library and are left abstract: a token carries its decoded claims (if
 * it decodes at all) and whether its signature verifies with the app key.
 */
module Jwt {
  import opened Wrappers
  import RbacService

  /** The two token types (TOKEN_TYPE_* constants). */
  datatype TokenKind = Access | Refresh {

    /** The constant's string value. */
    function Name(): string {
      match this
      case Access => "access"
      case Refresh => "refresh"
    }
  }

  /**
   * The `if ($type == ACCESS) … else if ($type == REFRESH) … else` dispatch:
   * the kind whose name the string is, or none for any other string.
   */
  function ParseKind(s: string): (r: Option<TokenKind>)
    ensures forall k: TokenKind :: r == Some(k) <==> s == k.Name()
    ensures r.None? <==> s != "access" && s != "refresh"
  {
    if s == "access" then Some(Access)
    else if s == "refresh" then Some(Refresh)
    else None
  }

  /** Registered claims plus the custom payload (which holds `type`). */
  datatype Claims = Claims(
    sub: Option<string>,
    iat: Option<int>,
    nbf: Option<int>,
    exp: Option<int>,
    jti: Option<string>,
    payload: map<string, string>)
  {
    /** The `type` payload claim, if present. */
    function Type(): Option<string> {
      if "type" in payload then Some(payload["type"]) else None
    }
  }

  /** A presented token: its claims when it decodes, and whether its signature verifies. */
  datatype Token = Token(claims: Option<Claims>, signatureValid: bool)

  /**
   * `createJwt`: claims `sub` = user, `iat` = `nbf` = now, `exp`; `jti` only
   * when non-empty; the payload is the filter-supplied payload with `type`
   * set last, so it overrides any `type` the filter supplied.
   */
  function CreateJwt(user: string, kind: TokenKind, now: int, exp: int, jti: string, filtered: map<string, string>): (t: Token)
    ensures t.signatureValid && t.claims.Some?
    ensures t.claims.value.sub == Some(user)
    ensures t.claims.value.iat == Some(now) && t.claims.value.nbf == Some(now)
    ensures t.claims.value.exp == Some(exp)
    ensures jti == "" ==> t.claims.value.jti.None?
    ensures jti != "" ==> t.claims.value.jti == Some(jti)
    ensures t.claims.value.Type() == Some(kind.Name())
    ensures forall k :: k in filtered && k != "type" ==> k in t.claims.value.payload && t.claims.value.payload[k] == filtered[k]
    ensures t.claims.value.payload.Keys == filtered.Keys + {"type"}
  {
    Token(Some(Claims(Some(user), Some(now), Some(now), Some(exp),
                      if jti == "" then None else Some(jti),
                      filtered["type" := kind.Name()])), true)
  }

  /** The `jti` claim of a decodable token, "" when there is none. */
  function Jti(t: Token): string {
    if t.claims.Some? then t.claims.value.jti.GetOr("") else ""
  }

  /**
   * The library's `validateClaims` (assumed semantics): `iat` and `nbf`, when
   * present, are not in the future, and `exp`, when present, is still ahead.
   */
  predicate TemporalClaimsValid(c: Claims, now: int) {
    && (c.iat.None? || c.iat.value <= now)
    && (c.nbf.None? || c.nbf.value <= now)
    && (c.exp.None? || now < c.exp.value)
  }

  /** The token lifetime in seconds the configuration gives `kind`. */
  function Lifetime(cfg: RbacService.Config, kind: TokenKind): int {
    match kind
    case Access => RbacService.AccessDuration(cfg) * 60
    case Refresh => RbacService.RefreshDuration(cfg) * 60
  }

  /** Whether a token of `kind` has a stored record: refresh always, access only when revocable. */
  predicate Recorded(cfg: RbacService.Config, kind: TokenKind) {
    kind == Refresh || RbacService.Revocable(cfg)
  }

  /** With nothing configured, access tokens live 5 minutes, refresh tokens 10080 (a week), and access tokens are not recorded. */
  lemma DefaultPolicy()
    ensures Lifetime(map[], Access) == 300 && Lifetime(map[], Refresh) == 604800
    ensures !Recorded(map[], Access) && Recorded(map[], Refresh)
  {
  }
}
