/**
 * The field rules of the models' `allowed_fields_write`, which the ORM's
 * validator applies to the fields a create supplies. Lengths are counted in
 * characters.
 */
module Rules {

  /** `lengthEquals:36`: the UUID-valued columns. */
  predicate IsUuid(id: string) {
    |id| == 36
  }

  /** `maxLength:255`. */
  predicate ShortText(v: string) {
    |v| <= 255
  }

  /**
   * `email|maxLength:255`. The validator's `email` test is not part of this
   * model; `IsEmail` stands for it.
   */
  predicate EmailRule(IsEmail: string -> bool, email: string) {
    IsEmail(email) && ShortText(email)
  }
}
