/** The error vocabulary of the domain layer and the `ErrorOr<T>` result that carries it. */
module DomainErrors {

  /** The ErrorOr library's error categories that the domain uses; `Custom` carries an int. */
  datatype ErrorType = Validation | NotFound | Failure | Custom(typeCode: int)

  datatype Error = Error(code: string, description: string, errorType: ErrorType)

  /** ErrorOr<T>: either the handler's value or the (single) error it reported. */
  datatype ErrorOr<+T> = Value(value: T) | Err(error: Error)

  // CustomErrorTypes
  const UnauthorizedType: int := 401
  const TimeoutType: int := 408
  const GoneType: int := 410

  // DomainErrors.Authentication
  const AuthenticationInvalidCredentials: Error :=
    Error("Authentication.InvalidCredentials", "invalid credentials", Validation)
  const AuthenticationFailure: Error :=
    Error("Authentication.GeneralFailure", "a failure has occurred", Failure)

  // DomainErrors.Authorization
  const AuthorizationUnauthorized: Error :=
    Error("Authorization.Unauthorized", "unauthorized access", Custom(UnauthorizedType))
  const AuthorizationFailure: Error :=
    Error("Authorization.GeneralFailure", "a failure has occurred", Failure)

  // DomainErrors.AccountManager
  const AccountManagerValidation: Error :=
    Error("AccountManager.Validation", "one or more inputs are invalid", Validation)
  const AccountManagerFailure: Error :=
    Error("AccountManager.GeneralFailure", "a failure has occurred", Failure)

  // DomainErrors.User
  const UserNotFound: Error :=
    Error("User.NotFound", "User was not found in the system", NotFound)
  const UserFailure: Error :=
    Error("User.Failure", "a failure occurred in the system", Failure)

  // DomainErrors.Account
  const AccountNotFound: Error :=
    Error("Account.NotFound", "Account was not found in the system", NotFound)
  const AccountFailure: Error :=
    Error("Account.Failure", "a failure occurred in the system", Failure)

  // DomainErrors.System
  const SystemTimeout: Error :=
    Error("System.Timeout", "the request has timed out", Custom(TimeoutType))

  /** Every error the domain defines. */
  const AllErrors: seq<Error> := [
    AuthenticationInvalidCredentials, AuthenticationFailure,
    AuthorizationUnauthorized, AuthorizationFailure,
    AccountManagerValidation, AccountManagerFailure,
    UserNotFound, UserFailure, AccountNotFound, AccountFailure,
    SystemTimeout
  ]

  /** Callers and tests tell errors apart by code: no two domain errors share one, although
      several share a description ("a failure has occurred"). */
  lemma CodesIdentifyErrors()
    ensures forall i, j :: 0 <= i < j < |AllErrors| ==> AllErrors[i].code != AllErrors[j].code
    ensures AuthenticationFailure.description == AuthorizationFailure.description
  {
  }
}
