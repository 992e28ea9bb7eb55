/** The access-control middleware: `authenticate` turns the bearer token of
    the `Authorization` header into `req.user`, and `authorize(...roles)`
    lets a request through only when that user's role is one of the roles.
    Token verification (signature and expiry) is a parameter. */
module Auth {
  import opened Results
  import opened Errors
  import opened Schema
  import Strings

  const InvalidToken: string := "Invalid token"
  const NoTokenProvided: string := "No token provided"

  /** The parts of an Express request the middleware reads and writes. */
  class Request {
    const authorization: Option<string>
    var user: Option<Claims>

    constructor (authorization: Option<string>)
      ensures this.authorization == authorization && user == None
    {
      this.authorization := authorization;
      user := None;
    }
  }

  /** How a middleware ends: `next()` or `next(error)`. */
  datatype Next = Proceed | Reject(error: AppError)

  /** `authorization?.split(' ')[1]`, where a missing or empty second piece
      means no token. The scheme word before the space is not checked. */
  function BearerToken(header: Option<string>): Option<string> {
    if header.None? then None
    else
      var parts := Strings.Split(header.value, ' ');
      if |parts| >= 2 && parts[1] != "" then Some(parts[1]) else None
  }

  /** A header `<scheme> <token>` yields the token, whatever the scheme; a
      header without a space, or with nothing after it, yields none. */
  lemma BearerTokenOfHeader(scheme: string, token: string)
    requires ' ' !in scheme && ' ' !in token
    ensures token != "" ==> BearerToken(Some(scheme + " " + token)) == Some(token)
    ensures token == "" ==> BearerToken(Some(scheme + " " + token)) == None
    ensures forall rest :: BearerToken(Some(scheme + " " + token + " " + rest)) == (if token != "" then Some(token) else None)
    ensures BearerToken(Some(scheme)) == None
    ensures BearerToken(None) == None
  {
    Strings.SplitAfterFirst(scheme, ' ', token);
    forall rest
      ensures BearerToken(Some(scheme + " " + token + " " + rest)) == (if token != "" then Some(token) else None)
    {
      assert scheme + " " + token + " " + rest == scheme + [' '] + (token + [' '] + rest);
      Strings.SplitAfterFirst(scheme, ' ', token + [' '] + rest);
      Strings.SplitAfterFirst(token, ' ', rest);
    }
    Strings.SplitWithoutSeparator(token, ' ');
    Strings.SplitWithoutSeparator(scheme, ' ');
  }

  /** What `authenticate` decides for a header: the verified claims, or
      `AuthenticationError('Invalid token')` for every failure, a missing
      token included, because the catch replaces whatever was thrown. */
  function Authentication(header: Option<string>, verify: string -> Option<Claims>): (r: Result<Claims, AppError>)
    ensures r.Success? <==> BearerToken(header).Some? && verify(BearerToken(header).value).Some?
    ensures r.Success? ==> r.value == verify(BearerToken(header).value).value
    ensures r.Failure? ==> r.error == AuthenticationError(InvalidToken) && r.error.StatusCode() == 401
  {
    match BearerToken(header)
    case None => Failure(AuthenticationError(InvalidToken))
    case Some(token) =>
      match verify(token)
      case None => Failure(AuthenticationError(InvalidToken))
      case Some(claims) => Success(claims)
  }

  /** `authenticate`: the body of the `try` either throws or sets `req.user`
      and proceeds; the `catch` turns any throw into 'Invalid token'. */
  method Authenticate(req: Request, verify: string -> Option<Claims>) returns (next: Next)
    modifies req`user
    ensures var a := Authentication(req.authorization, verify);
            && (a.Success? ==> next == Proceed && req.user == Some(a.value))
            && (a.Failure? ==> next == Reject(a.error) && req.user == old(req.user))
  {
    var thrown: Option<AppError> := None;
    var token := BearerToken(req.authorization);
    if token.None? {
      thrown := Some(AuthenticationError(NoTokenProvided));
    } else {
      var decoded := verify(token.value);
      if decoded.None? {
        thrown := Some(AuthenticationError(InvalidToken));
      } else {
        req.user := decoded;
      }
    }
    if thrown.Some? {
      next := Reject(AuthenticationError(InvalidToken));
    } else {
      next := Proceed;
    }
  }

  /** `authorize(...roles)`: 401 without a user, 403 when the user's role is
      not one of `roles`, and `next()` otherwise. */
  function Authorize(roles: seq<string>, user: Option<Claims>): (n: Next)
    ensures n.Reject? && n.error.StatusCode() == 401 <==> user.None?
    ensures n.Reject? && n.error.StatusCode() == 403 <==> user.Some? && user.value.role !in roles
    ensures n == Proceed <==> user.Some? && user.value.role in roles
    ensures n.Reject? ==> n.error == AuthenticationError() || n.error == AuthorizationError()
  {
    if user.None? then Reject(AuthenticationError())
    else if user.value.role !in roles then Reject(AuthorizationError())
    else Proceed
  }
}
