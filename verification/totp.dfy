/** The one-time-password record (`Totp`): an array with defaulting accessors. */
module Totp {
  import opened Json

  /** The array the record was constructed from. */
  datatype Totp = Totp(fields: map<string, JVal>) {

    /** `getTotp`: the constructor array, unchanged. */
    function GetTotp(): (a: map<string, JVal>)
      ensures Totp(a) == this
    {
      fields
    }

    /** `getCreatedAt`: the `created_at` timestamp, 0 when absent. */
    function GetCreatedAt(): (t: int)
      ensures "created_at" !in fields ==> t == 0
      ensures "created_at" in fields && fields["created_at"].JInt? ==> t == fields["created_at"].i
    {
      IntOr(fields, "created_at", 0)
    }

    /** `getExpiresAt`: the `expires_at` timestamp, 0 (never) when absent. */
    function GetExpiresAt(): (t: int)
      ensures "expires_at" !in fields ==> t == 0
      ensures "expires_at" in fields && fields["expires_at"].JInt? ==> t == fields["expires_at"].i
    {
      IntOr(fields, "expires_at", 0)
    }

    /** `getValue`: the secret (raw or hashed), "" when absent. */
    function GetValue(): (v: string)
      ensures "value" !in fields ==> v == ""
      ensures "value" in fields && fields["value"].JStr? ==> v == fields["value"].s
    {
      StrOr(fields, "value", "")
    }
  }

  /** The record `createTotp` builds: its three accessors give back what it was built from. */
  function Make(createdAt: int, expiresAt: int, value: string): (t: Totp)
    ensures t.GetCreatedAt() == createdAt
    ensures t.GetExpiresAt() == expiresAt
    ensures t.GetValue() == value
  {
    Totp(map["created_at" := JInt(createdAt), "expires_at" := JInt(expiresAt), "value" := JStr(value)])
  }
}
