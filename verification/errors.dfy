/** The two error taxonomies of the library. */
module Errors {

  /** Authentication failures raised by the authenticators. */
  datatype AuthError =
    | UserDoesNotExist
    | UserDisabled
    | UserNotVerified
    | InvalidPassword
    | InvalidToken
    | TokenDoesNotExist
    | InvalidUserKey
    | ExpiredUserKey
    | InvalidDomain
    | InvalidIp
    | TotpDoesNotExist
    | UnexpectedAuthentication

  /** Exceptions raised by the resource models. */
  datatype OrmError =
    | DoesNotExist
    | AlreadyExists
    | InvalidField
    | InvalidRequest
    | Unexpected
}
