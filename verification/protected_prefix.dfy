/**
 * The protected-prefix policy of the meta tables: keys that start with the
 * configured prefix are reserved for the library's own records (tokens and
 * one-time passwords). Two flags opt in for the next operation only.
 */
module ProtectedPrefix {
  import opened Wrappers
  import opened Errors

  /** The two opt-in flags, `with_protected` and `only_protected`. */
  datatype Mode = Mode(withProtected: bool, onlyProtected: bool)

  /** Both flags off: the state after construction and after every operation. */
  const Default := Mode(false, false)

  /** `withProtectedPrefix()`: include protected keys in the next operation. */
  function WithProtectedPrefix(m: Mode): (r: Mode)
    ensures r.withProtected && r.onlyProtected == m.onlyProtected
  {
    m.(withProtected := true)
  }

  /** `onlyProtectedPrefix()`: restrict the next operation to protected keys. */
  function OnlyProtectedPrefix(m: Mode): (r: Mode)
    ensures r.onlyProtected && r.withProtected == m.withProtected
  {
    m.(onlyProtected := true)
  }

  /** `resetProtectedPrefixFilter`: both flags off, whatever they were. */
  function Reset(m: Mode): (r: Mode)
    ensures !r.withProtected && !r.onlyProtected
  {
    Default
  }

  /** ASCII case folding, standing in for the database's case-insensitive collation. */
  function Lower(c: char): char {
    if 'A' <= c <= 'Z' then (c as int + 32) as char else c
  }

  /** PHP `str_starts_with`: exact, case-sensitive. */
  predicate StartsWith(s: string, p: string) {
    |p| <= |s| && s[..|p|] == p
  }

  /** The query builder's case-insensitive "starts with". */
  predicate StartsWithInsensitive(s: string, p: string) {
    |p| <= |s| && forall i :: 0 <= i < |p| ==> Lower(s[i]) == Lower(p[i])
  }

  /** A case-sensitive match is also a case-insensitive one. */
  lemma SensitiveImpliesInsensitive(s: string, p: string)
    requires StartsWith(s, p)
    ensures StartsWithInsensitive(s, p)
  {
    forall i | 0 <= i < |p|
      ensures Lower(s[i]) == Lower(p[i])
    {
      assert s[..|p|][i] == p[i];
    }
  }

  /**
   * `filterProtectedPrefixReading`: whether a row with `key` is visible to a
   * read. `only` shows just protected keys and wins over `with`; `with` shows
   * everything; with neither, protected keys are hidden.
   */
  predicate ReadVisible(m: Mode, prefix: string, key: string): (v: bool)
    ensures m.onlyProtected ==> (v <==> StartsWithInsensitive(key, prefix))
    ensures !m.onlyProtected && m.withProtected ==> v
    ensures m == Default ==> (v <==> !StartsWithInsensitive(key, prefix))
  {
    if m.onlyProtected then StartsWithInsensitive(key, prefix)
    else if !m.withProtected then !StartsWithInsensitive(key, prefix)
    else true
  }

  /**
   * `filterProtectedPrefixWriting` exactly as the source writes it: the
   * second test is an `else if` at the same level as the first, so with
   * `only` set and `with` not set a protected key falls through to it and is
   * rejected as well.
   */
  function WriteCheckAsWritten(m: Mode, prefix: string, key: string): Option<OrmError> {
    if m.onlyProtected && !StartsWith(key, prefix) then Some(InvalidField)
    else if !m.withProtected && StartsWith(key, prefix) then Some(InvalidField)
    else None
  }

  /** With only `onlyProtectedPrefix()` set, the as-written write filter rejects every key. */
  lemma OnlyModeWriteRejectsEverything(prefix: string, key: string)
    ensures WriteCheckAsWritten(Mode(false, true), prefix, key) == Some(InvalidField)
  {
  }

  /** A concrete protected write that the as-written filter rejects in `only` mode. */
  lemma OnlyModeWriteCounterexample()
    ensures WriteCheckAsWritten(Mode(false, true), "_app-", "_app-tfa") == Some(InvalidField)
    ensures WriteCheck(Mode(false, true), "_app-", "_app-tfa") == None
  {
    assert StartsWith("_app-tfa", "_app-") by {
      assert "_app-tfa"[..5] == "_app-";
    }
  }

  /**
   * The write filter as evidently intended, with the same nesting as the
   * delete filter: `only` accepts exactly the protected keys, `with` accepts
   * everything, and with neither flag protected keys are rejected. The
   * comparison is case-sensitive, unlike the read filter.
   */
  function WriteCheck(m: Mode, prefix: string, key: string): (r: Option<OrmError>)
    ensures r == None || r == Some(InvalidField)
    ensures m.onlyProtected ==> (r.None? <==> StartsWith(key, prefix))
    ensures !m.onlyProtected && m.withProtected ==> r.None?
    ensures m == Default ==> (r.None? <==> !StartsWith(key, prefix))
  {
    if m.onlyProtected then
      (if StartsWith(key, prefix) then None else Some(InvalidField))
    else if !m.withProtected then
      (if StartsWith(key, prefix) then Some(InvalidField) else None)
    else None
  }

  /** The as-written filter and the intended one differ only when `only` is set without `with`. */
  lemma WriteCheckAgreesOutsideOnlyMode(m: Mode, prefix: string, key: string)
    requires m != Mode(false, true)
    ensures WriteCheckAsWritten(m, prefix, key) == WriteCheck(m, prefix, key)
  {
  }

  /** `filterProtectedPrefixDeleting`: the same accept/reject rule, applied to the stored key. */
  function DeleteCheck(m: Mode, prefix: string, key: string): (r: Option<OrmError>)
    ensures r == WriteCheck(m, prefix, key)
  {
    if m.onlyProtected then
      (if !StartsWith(key, prefix) then Some(InvalidField) else None)
    else if !m.withProtected then
      (if StartsWith(key, prefix) then Some(InvalidField) else None)
    else None
  }

  /**
   * The write and delete checks are case-sensitive while the read filter is
   * not: with no flags, `_APP-x` is hidden from reads yet accepted for writing.
   */
  lemma WriteCheckIsCaseSensitive()
    ensures !ReadVisible(Default, "_app-", "_APP-x")
    ensures WriteCheck(Default, "_app-", "_APP-x") == None
    ensures DeleteCheck(Default, "_app-", "_APP-x") == None
  {
    assert "_APP-x"[..5] != "_app-" by {
      assert "_APP-x"[..5][1] == 'A';
    }
    assert StartsWithInsensitive("_APP-x", "_app-") by {
      assert Lower('A') == 'a' && Lower('P') == 'p';
    }
  }
}
