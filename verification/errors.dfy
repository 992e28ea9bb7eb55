/** The application's error taxonomy: `AppError` and its four subclasses,
    as one tagged datatype whose status code, code and message are fixed
    by the variant. */
module Errors {
  import opened Results

  /** The `details` payload of an `AppError` is arbitrary JSON; the model
      carries it as an opaque serialised string. */
  type Payload = string

  const DefaultAuthenticationMessage: string := "Authentication failed"
  const DefaultAuthorizationMessage: string := "Access denied"

  datatype AppError =
    | ValidationError(message: string, details: Option<Payload> := None)
    | NotFoundError(resource: string)
    | AuthenticationError(message: string := DefaultAuthenticationMessage)
    | AuthorizationError(message: string := DefaultAuthorizationMessage)
  {
    /** The HTTP status each subclass passes to the base constructor. */
    function StatusCode(): (s: nat)
      ensures 400 <= s < 500
      ensures s == 400 <==> ValidationError?
      ensures s == 401 <==> AuthenticationError?
      ensures s == 403 <==> AuthorizationError?
      ensures s == 404 <==> NotFoundError?
    {
      match this
      case ValidationError(_, _) => 400
      case NotFoundError(_) => 404
      case AuthenticationError(_) => 401
      case AuthorizationError(_) => 403
    }

    /** The machine-readable code; every variant has its own. */
    function Code(): (c: string)
      ensures c == "VALIDATION_ERROR" <==> ValidationError?
      ensures c == "NOT_FOUND" <==> NotFoundError?
      ensures c == "AUTHENTICATION_ERROR" <==> AuthenticationError?
      ensures c == "AUTHORIZATION_ERROR" <==> AuthorizationError?
    {
      match this
      case ValidationError(_, _) => "VALIDATION_ERROR"
      case NotFoundError(_) => "NOT_FOUND"
      case AuthenticationError(_) => "AUTHENTICATION_ERROR"
      case AuthorizationError(_) => "AUTHORIZATION_ERROR"
    }

    /** The `Error.message`: the given one, or for NotFoundError the
        resource name followed by " not found". */
    function Message(): (m: string)
      ensures NotFoundError? ==> m == resource + " not found"
      ensures !NotFoundError? ==> m == message
    {
      match this
      case NotFoundError(r) => r + " not found"
      case ValidationError(msg, _) => msg
      case AuthenticationError(msg) => msg
      case AuthorizationError(msg) => msg
    }

    /** `details`: only ValidationError passes any to the base class. */
    function Details(): (d: Option<Payload>)
      ensures d.Some? ==> ValidationError? && d == details
      ensures ValidationError? ==> d == details
    {
      if ValidationError? then details else None
    }
  }

  /** Two errors share a status code exactly when they share a code, which is
      exactly when they are the same subclass. */
  lemma StatusAndCodeDetermineKind(a: AppError, b: AppError)
    ensures a.StatusCode() == b.StatusCode() <==> a.Code() == b.Code()
    ensures a.Code() == b.Code() <==>
      (a.ValidationError? && b.ValidationError?) || (a.NotFoundError? && b.NotFoundError?) ||
      (a.AuthenticationError? && b.AuthenticationError?) || (a.AuthorizationError? && b.AuthorizationError?)
  {
  }

  /** Errors raised by the database driver rather than by the application:
      a unique or primary-key violation, a value wider than its varchar
      column, a negative OFFSET. */
  datatype DbError =
    | UniqueViolation(column: string)
    | ValueTooLong(column: string)
    | NegativeOffset

  /** What a handler passes to `next(error)`: an application error, a
      database error, or the rejection raised by the request-body validation
      middleware, whose error shape is not part of this model. */
  datatype Fault =
    | App(error: AppError)
    | Db(cause: DbError)
    | BodyRejected
}
