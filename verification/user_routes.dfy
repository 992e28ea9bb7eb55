/** The `/users` router: which middleware guards each route, the
    owner-or-admin check of PATCH, how the query string becomes list
    options, and what each handler hands to the response or to
    `next(error)`. Writing the HTTP response is not modelled beyond its
    status and payload. */
module UserRoutes {
  import opened Results
  import opened Errors
  import opened Schema
  import opened UserService
  import opened Auth
  import Strings

  /** The role list passed to `authorize` on the admin-only routes. */
  const AdminOnly: seq<string> := [AdminRole]

  /** What a handler does: answer with a status and a payload, answer 204
      with no body, or forward an error to `next`, unchanged. */
  datatype Reply<T> = Respond(status: nat, data: T) | NoContent | Forward(fault: Fault)

  /** A service result answered with `res.json` (status 200) or forwarded. */
  function JsonOr<T>(r: Result<T, Fault>): (reply: Reply<T>)
    ensures r.Success? ==> reply == Respond(200, r.value)
    ensures r.Failure? ==> reply == Forward(r.error)
  {
    match r
    case Success(v) => Respond(200, v)
    case Failure(e) => Forward(e)
  }

  /** `authenticate`, then `authorize(...roles)` when the route has it. */
  function Gate(header: Option<string>, verify: string -> Option<Claims>, roles: Option<seq<string>>)
    : (r: Result<Claims, AppError>)
    ensures r.Success? ==> Authentication(header, verify) == Success(r.value)
    ensures r.Success? && roles.Some? ==> r.value.role in roles.value
  {
    match Authentication(header, verify)
    case Failure(e) => Failure(e)
    case Success(claims) =>
      if roles.None? then Success(claims)
      else
        match Authorize(roles.value, Some(claims))
        case Proceed => Success(claims)
        case Reject(e) => Failure(e)
  }

  /** The admin-only routes let a request through exactly when its token
      verifies and names the admin role; an unverified token is 401 and any
      other role is 403. */
  lemma AdminGate(header: Option<string>, verify: string -> Option<Claims>)
    ensures var a := Authentication(header, verify);
            var g := Gate(header, verify, Some(AdminOnly));
            && (g.Success? <==> a.Success? && a.value.role == AdminRole)
            && (a.Failure? ==> g == Failure(AuthenticationError(InvalidToken)))
            && (a.Success? && a.value.role != AdminRole ==> g == Failure(AuthorizationError()))
  {
  }

  /** The routes guarded by `authenticate` alone admit every verified token,
      whatever its role. */
  lemma AuthenticatedGate(header: Option<string>, verify: string -> Option<Claims>)
    ensures Gate(header, verify, None) == Authentication(header, verify)
  {
  }

  /** The query string of `GET /users`. */
  datatype ListQuery = ListQuery(page: Option<nat>, perPage: Option<nat>, sort: Option<string>, fields: Option<string>)

  /** `sort` passes through; `fields` is split on ','. */
  function ListOptionsOf(q: ListQuery): (o: ListOptions)
    ensures o.page == q.page && o.perPage == q.perPage && o.sort == q.sort
    ensures o.fields.Some? <==> q.fields.Some?
    ensures o.fields.Some? ==> |o.fields.value| >= 1
    ensures o.fields.Some? ==> Strings.Join(o.fields.value, ',') == q.fields.value
  {
    var fields := if q.fields.Some? then Some(Strings.Split(q.fields.value, ',')) else None;
    assert q.fields.Some? ==> Strings.Join(fields.value, ',') == q.fields.value by {
      if q.fields.Some? { Strings.JoinSplit(q.fields.value, ','); }
    }
    ListOptions(q.page, q.perPage, q.sort, fields)
  }

  /** Comma-joined column names arrive as exactly those names. */
  lemma FieldsQueryRoundTrip(q: ListQuery, names: seq<string>)
    requires |names| >= 1 && forall i :: 0 <= i < |names| ==> ',' !in names[i]
    requires q.fields == Some(Strings.Join(names, ','))
    ensures ListOptionsOf(q).fields == Some(names)
  {
    Strings.SplitJoin(names, ',');
  }

  /** The PATCH handler's check: the caller is an admin or is the user
      being changed. */
  predicate OwnerOrAdmin(user: Option<Claims>, pathId: Id) {
    user.Some? && (user.value.role == AdminRole || user.value.id == pathId)
  }

  /** An ordinary user may patch themself and nobody else; an admin may
      patch anyone. */
  lemma PatchPermission(id: Id, other: Id)
    requires id != other
    ensures OwnerOrAdmin(Some(Claims(id, UserRole)), id)
    ensures !OwnerOrAdmin(Some(Claims(id, UserRole)), other)
    ensures OwnerOrAdmin(Some(Claims(id, AdminRole)), other)
  {
  }

  /** GET /users: authenticate, authorize('admin'), then list. */
  method GetUsers(db: UsersTable, req: Request, verify: string -> Option<Claims>, query: ListQuery)
    returns (reply: Reply<ListPage>)
    modifies req`user
    ensures var g := Gate(req.authorization, verify, Some(AdminOnly));
            && (g.Failure? ==> reply == Forward(App(g.error)))
            && (g.Success? ==> reply == JsonOr(ListResult(db.rows, ListOptionsOf(query))))
  {
    var authn := Authenticate(req, verify);
    if authn.Reject? {
      return Forward(App(authn.error));
    }
    var authz := Authorize(AdminOnly, req.user);
    if authz.Reject? {
      return Forward(App(authz.error));
    }
    var result := List(db, ListOptionsOf(query));
    reply := JsonOr(result);
  }

  /** GET /users/:id: authenticate, then look the user up; any role may
      read any user. */
  method GetUser(db: UsersTable, req: Request, verify: string -> Option<Claims>, pathId: Id)
    returns (reply: Reply<Record>)
    modifies req`user
    ensures var a := Authentication(req.authorization, verify);
            && (a.Failure? ==> reply == Forward(App(a.error)))
            && (a.Success? ==> reply == JsonOr(FindById(db.rows, pathId)))
  {
    var authn := Authenticate(req, verify);
    if authn.Reject? {
      return Forward(App(authn.error));
    }
    reply := JsonOr(FindById(db.rows, pathId));
  }

  /** PATCH /users/:id: authenticate, validate the body against the update
      schema, refuse unless owner or admin, then update. Every refusal comes
      before the table is touched. */
  method PatchUser(db: UsersTable, req: Request, verify: string -> Option<Claims>, pathId: Id,
                   body: UpdateUser, isEmail: string -> bool, now: Time)
    returns (reply: Reply<Record>)
    requires db.Valid()
    modifies req`user, db
    ensures db.Valid()
    ensures var a := Authentication(req.authorization, verify);
            && (a.Failure? ==> reply == Forward(App(a.error)) && db.rows == old(db.rows))
            && (a.Success? && !ValidUpdate(body, isEmail) ==>
                  reply == Forward(BodyRejected) && db.rows == old(db.rows))
            && (a.Success? && ValidUpdate(body, isEmail) && !OwnerOrAdmin(Some(a.value), pathId) ==>
                  reply == Forward(App(AuthorizationError())) && db.rows == old(db.rows))
            && (a.Success? && ValidUpdate(body, isEmail) && OwnerOrAdmin(Some(a.value), pathId) ==>
                  var s := UpdateOn(old(db.rows), pathId, body, now);
                  reply == JsonOr(s.result) && db.rows == s.rows)
  {
    var authn := Authenticate(req, verify);
    if authn.Reject? {
      return Forward(App(authn.error));
    }
    if !ValidUpdate(body, isEmail) {
      return Forward(BodyRejected);
    }
    if !OwnerOrAdmin(req.user, pathId) {
      return Forward(App(AuthorizationError()));
    }
    var result := Update(db, pathId, body, now);
    reply := JsonOr(result);
  }

  /** DELETE /users/:id: authenticate, authorize('admin'), delete, and answer
      204 with an empty body. */
  method DeleteUser(db: UsersTable, req: Request, verify: string -> Option<Claims>, pathId: Id)
    returns (reply: Reply<()>)
    requires db.Valid()
    modifies req`user, db
    ensures db.Valid()
    ensures var g := Gate(req.authorization, verify, Some(AdminOnly));
            && (g.Failure? ==> reply == Forward(App(g.error)) && db.rows == old(db.rows))
            && (g.Success? ==>
                  var s := DeleteOn(old(db.rows), pathId);
                  db.rows == s.rows &&
                  (s.result.Success? ==> reply == NoContent) &&
                  (s.result.Failure? ==> reply == Forward(s.result.error)))
  {
    var authn := Authenticate(req, verify);
    if authn.Reject? {
      return Forward(App(authn.error));
    }
    var authz := Authorize(AdminOnly, req.user);
    if authz.Reject? {
      return Forward(App(authz.error));
    }
    var result := Delete(db, pathId);
    if result.Failure? {
      return Forward(result.error);
    }
    reply := NoContent;
  }
}
