# User management API: users table, service, access control

A Dafny model of the core of an Express user-management API. The model covers five parts:

- the `users` table and its column constraints;
- `UserService`: `list`, `create`, `login`, `findById`, `update` and `delete`;
- the `authenticate` and `authorize(...roles)` middleware;
- the guard chain of each `/users` route, including the owner-or-admin rule on PATCH;
- the `AppError` taxonomy.

The database, bcrypt and JSON Web Tokens are treated as abstract:

- The table is a `UsersTable` object. Its `rows` field holds the rows in storage order, and `create`, `update` and `delete` replace that sequence.
- The reading operations (`findById`, `login`, the result of `list`) are functions of the rows.
- Password hashing, hash comparison, token signing, token verification and the e-mail format test are function-valued parameters.
- Fresh uuids and the current time are parameters too.

Modules, one per source component:

| file | module | models |
|---|---|---|
| results.dfy | `Results` | Option / Result |
| strings.dfy | `Strings` | JavaScript `split` on one character, `join`, code-point text order |
| errors.dfy | `Errors` | `AppError` and its subclasses; database errors; what reaches `next(error)` |
| schema.dfy | `Schema` | row, insert, update and login shapes; column widths; validation rules |
| ordering.dfy | `Ordering` | how the store applies `orderBy`, `offset` and `limit` |
| user_service.dfy | `UserService` | the table object and the six service operations |
| auth.dfy | `Auth` | `authenticate`, `authorize` |
| user_routes.dfy | `UserRoutes` | the four `/users` routes |

Each mutating operation has two forms:

- a function on a table state (`CreateOn`, `UpdateOn`, `DeleteOn`) that returns a `Step`: the result, and the rows afterwards;
- a method that takes the `UsersTable` (`Create`, `Update`, `Delete`) and is proved to perform exactly that step and to keep ids and e-mails unique (`Valid`).

The route methods are proved against the same functions. So a refusal by any guard provably leaves the table unchanged.

Where the code and the prose description of the system disagree, the model follows the code:

- `list` does not enforce `page >= 1` or `per_page > 0`. Page 0 with a non-zero per_page yields a negative OFFSET, which the database refuses.
- The role given at registration is stored as given, with no admin check. An empty role becomes `'user'`.
- A token's scheme word ("Bearer") is never checked. Only the text between the first and the second space is used.
- `id`, `createdAt` and `updatedAt` are spread from the input into the row on insert. On update, `id` and `createdAt` are spread too, because both schemas accept them. `updatedAt` on update is always the update time.

## Model

| member | source | states |
|---|---|---|
| `Errors.AppError.StatusCode` | src/utils/errors.ts:13-34 | ValidationError is 400, AuthenticationError 401, AuthorizationError 403, NotFoundError 404, each exactly; all are client errors |
| `Errors.AppError.Code` | src/utils/errors.ts:13-34 | VALIDATION_ERROR, NOT_FOUND, AUTHENTICATION_ERROR and AUTHORIZATION_ERROR each belong to exactly one subclass |
| `Errors.AppError.Message` | src/utils/errors.ts:19-34 | NotFoundError's message is the resource followed by " not found"; the others carry their message, whose defaults are 'Authentication failed' and 'Access denied' |
| `Errors.AppError.Details` | src/utils/errors.ts:1-16 | a ValidationError carries exactly the details it was given; the other subclasses carry none |
| `Errors.StatusAndCodeDetermineKind` | src/utils/errors.ts:15-33 | two errors share a status code iff they share a code iff they are the same subclass |
| `Schema.ToRecord` | src/db/schema.ts:11-19 | a row object has exactly the seven column properties |
| `Schema.RecordRoundTrip` | src/db/schema.ts:11-19 | reading a row object back gives the row |
| `Schema.OverlongColumn` | src/db/schema.ts:13-16 | a row is refused for width exactly when username exceeds 50, e-mail 255 or role 20 characters, and the column named is one of those |
| `Schema.RegistrationIsValidLogin` | src/db/schema.ts:21-31 | every input the registration schema accepts is a well-formed login for the same e-mail and password |
| `Schema.UpdateSchemaIsPartialInsert` | src/db/schema.ts:21-34 | input valid for insert is valid as an update; a complete valid update plus a password of at least 6 characters is a valid insert |
| `Ordering.SortRows` | src/services/userService.ts:41-46 | the page is drawn from a permutation of all rows sorted by the order column in the requested direction |
| `Ordering.Window` | src/services/userService.ts:41-43 | LIMIT/OFFSET yield the rows from position offset on, at most limit of them, in order |
| `Ordering.PageStart` | src/services/userService.ts:23 | the pages before page `page`, laid end to end, end at `(page-1)*per_page` |
| `Ordering.SortedUnique` | src/services/userService.ts:41-44 | when no two rows share a sort key, any two sorted orders of the same rows are equal, so every query sees the same order |
| `Ordering.PagesDisjoint` | src/services/userService.ts:23-44 | when the sort keys are distinct, two different pages share no row, even when each is cut from its own query's sorted order |
| `UserService.Redact` | src/services/userService.ts:52 | the redacted object has no password and keeps every other property unchanged |
| `UserService.PublicView` | src/services/userService.ts:72 | a single-user response has every column but the password |
| `UserService.PublicViewLosesOnlyPassword` | src/services/userService.ts:109 | putting the hash back into a redacted row gives the original row |
| `UserService.IndexOfIdIsOnly` | src/services/userService.ts:101-103 | with unique keys, the lookup by id finds the one row with that id |
| `UserService.Violation` | src/db/schema.ts:12-16 | the database refuses a written row exactly when a value is too wide or its id or e-mail is held by another row; an e-mail refusal means the e-mail is taken |
| `UserService.AppendKeepsKeysUnique` | src/db/schema.ts:12-14 | appending a row that violates nothing keeps ids and e-mails unique |
| `UserService.ReplaceKeepsKeysUnique` | src/db/schema.ts:12-14 | replacing a row by one that clashes with no other row keeps ids and e-mails unique |
| `UserService.Offset` | src/services/userService.ts:16-23 | the offset is the start of page `page`; it is negative exactly for page 0 with a non-zero page size |
| `UserService.ParseSortToken` | src/services/userService.ts:24-29 | `column:direction`, with or without further `:`-separated text, orders by column, descending exactly when the direction is 'desc'; a bare column is ascending; no or empty token is createdAt descending |
| `UserService.SelectAsWritten` | src/services/userService.ts:33-37 | the filter as written keeps every requested column and agrees with the intended projection on columns; every other name it keeps is an inherited Object.prototype name |
| `UserService.SelectAsWrittenAdmitsNonColumn` | src/services/userService.ts:34 | the filter as written keeps "toString", which is not a column |
| `UserService.SelectColumns` | src/services/userService.ts:31-38 | the loop keeps exactly the requested names that are columns |
| `UserService.Projection` | src/services/userService.ts:32-45 | no fields means every column; otherwise exactly the requested names that are columns, unknown names dropped |
| `UserService.Project` | src/services/userService.ts:45 | a projected row has exactly the selected columns, with the row's values |
| `UserService.ListItem` | src/services/userService.ts:51-54 | a listed item never has a password, has exactly the projected columns but the password, and each holds the row's value |
| `UserService.Items` | src/services/userService.ts:51-54 | one item per page row, in page order |
| `UserService.PageRows` | src/services/userService.ts:23-44 | the page is the LIMIT/OFFSET window of the sorted table at offset `(page-1)*per_page`, so at most per_page rows, in sorted order |
| `UserService.ListResult` | src/services/userService.ts:10-59 | page defaults to 1 and per_page to 20, both echoed back; total is the count of all rows; negative offsets are refused; item i is page row i, projected and without password; at most per_page items |
| `UserService.List` | src/services/userService.ts:10-59 | the method with its select loop and reassigned order computes `ListResult` on the current rows |
| `UserService.ListTotalIgnoresPaging` | src/services/userService.ts:47-57 | total is the row count whatever the page, sort and projection |
| `UserService.ListPagesDisjoint` | src/services/userService.ts:23-44 | when the sort column's values are distinct, each page is the window of whatever sorted order its query uses, and different pages share no row |
| `UserService.NewRow` | src/services/userService.ts:62-70 | the stored password is the hash of the given one; the role is the given one, or 'user' when missing or empty |
| `UserService.ValidInsertRow` | src/db/schema.ts:21-26 | a validated registration stores a role from the enum and a username that fits its column; only the e-mail can be too wide |
| `UserService.CreateOn` | src/services/userService.ts:61-74 | succeeds exactly when the new row violates no constraint; success appends it and returns it without password; a taken e-mail always fails and the table is unchanged; keys stay unique |
| `UserService.Create` | src/services/userService.ts:61-74 | performs `CreateOn` on the table and keeps it valid |
| `UserService.Login` | src/services/userService.ts:76-98 | fails with AuthenticationError('Invalid credentials') unless the row with the e-mail has a matching hash; the token is signed over exactly that row's id and role; the user has no password |
| `UserService.LoginFailuresIndistinguishable` | src/services/userService.ts:81-88 | an unknown e-mail and a wrong password give the same error |
| `UserService.LoginSucceedsIff` | src/services/userService.ts:77-88 | with unique e-mails, login succeeds iff some row has the e-mail and a matching hash |
| `UserService.LoginAfterCreate` | src/services/userService.ts:62-94 | a registration that violates nothing succeeds, and logging in with the chosen password afterwards yields a token over the stored id and role, provided compare accepts a password against its own hash |
| `UserService.FindById` | src/services/userService.ts:100-111 | succeeds iff a row has the id, and returns it without password; otherwise NotFoundError('User') |
| `UserService.FindByIdAfterCreate` | src/services/userService.ts:61-111 | a created user is found by its id as create returned it |
| `UserService.Patched` | src/services/userService.ts:114-118 | the patch cannot change the password hash; updatedAt is always the update time; given fields replace stored ones |
| `UserService.ValidUpdateKeepsRole` | src/db/schema.ts:25-34 | a validated update keeps the role inside the enum |
| `UserService.UpdateOn` | src/services/userService.ts:113-128 | NotFoundError('User') iff no row has the id; succeeds exactly when a row has the id and its patched values violate no constraint; on success only that row changes, its hash is kept and updatedAt is now; on failure nothing changes; keys stay unique |
| `UserService.UpdateTouchesOnlyItsRow` | src/services/userService.ts:114-120 | every row with another id is left exactly as it was |
| `UserService.FindByIdAfterUpdate` | src/services/userService.ts:100-128 | an updated user is found under its possibly new id as update returned it |
| `UserService.Update` | src/services/userService.ts:113-128 | performs `UpdateOn` on the table and keeps it valid |
| `UserService.WithoutId` | src/services/userService.ts:131-133 | the rows left are exactly those with another id; fewer rows iff some row had the id, the same table otherwise |
| `UserService.WithoutIdAppend` | src/services/userService.ts:131-133 | deleting filters each part of the table separately, so the remaining rows keep their storage order |
| `UserService.WithoutIdKeepsKeysUnique` | src/services/userService.ts:131-133 | deleting keeps ids and e-mails unique |
| `UserService.DeleteOn` | src/services/userService.ts:130-138 | NotFoundError('User') iff no row has the id, then nothing changes; otherwise the rows with that id are removed |
| `UserService.DeleteTwiceNotFound` | src/services/userService.ts:130-138 | after a successful delete, deleting or finding the same id gives NotFound |
| `UserService.Delete` | src/services/userService.ts:130-138 | performs `DeleteOn` on the table and keeps it valid |
| `UserService.DeleteTwice` | src/services/userService.ts:130-138 | deleting an existing id twice through the table: the first succeeds, the second is NotFound |
| `Auth.BearerTokenOfHeader` | src/middleware/auth.ts:12-15 | `<scheme> <token>` and `<scheme> <token> <rest>` yield the token whatever the scheme and the rest; no space, or an empty piece after the first space (two spaces in a row included), yields no token |
| `Auth.Authentication` | src/middleware/auth.ts:11-26 | succeeds iff a token is present and verifies, giving its claims; every failure, a missing token included, is AuthenticationError('Invalid token') (401) |
| `Auth.Authenticate` | src/middleware/auth.ts:6-27 | on success sets req.user to the decoded claims and calls next(); on failure calls next with the error and leaves req.user as it was |
| `Auth.Authorize` | src/middleware/auth.ts:29-40 | 401 iff there is no user; 403 iff the user's role is not among the roles; next() iff it is |
| `UserRoutes.JsonOr` | src/routes/users.ts:20-23 | a service result is answered with status 200 and its value, or forwarded unchanged to next |
| `UserRoutes.Gate` | src/routes/users.ts:12 | a request passes the guard chain only with a verified token whose role is among the route's roles |
| `UserRoutes.AdminGate` | src/routes/users.ts:12 | the admin-only guard passes iff the token verifies and names 'admin'; otherwise 401 for the token, 403 for the role |
| `UserRoutes.AuthenticatedGate` | src/routes/users.ts:28 | GET /:id admits any verified token, whatever its role |
| `UserRoutes.ListOptionsOf` | src/routes/users.ts:14-19 | page, per_page and sort pass through; fields is the comma split of the query string, which joins back to it |
| `UserRoutes.FieldsQueryRoundTrip` | src/routes/users.ts:18 | comma-joined column names arrive as exactly those names |
| `UserRoutes.PatchPermission` | src/routes/users.ts:42-44 | an ordinary user may patch themself and no one else; an admin may patch anyone |
| `UserRoutes.GetUsers` | src/routes/users.ts:10-24 | only an admin's request reaches list; its result is answered or forwarded |
| `UserRoutes.GetUser` | src/routes/users.ts:26-35 | any authenticated request reaches findById |
| `UserRoutes.PatchUser` | src/routes/users.ts:36-52 | a refused token, an invalid body, or a caller who is neither admin nor owner stops before the table is touched, with 401, a validation rejection and 403 in that order; otherwise the reply and the table are those of update |
| `UserRoutes.DeleteUser` | src/routes/users.ts:53-64 | only an admin's request deletes; success is 204 with no body; NotFound is forwarded |

## Findings

| source | as written | input that shows it | evidently intended | confidence | as-written member | corrected member |
|---|---|---|---|---|---|---|
| src/services/userService.ts:34 | `field in users` is JavaScript's `in`, which is also true for properties the table object inherits from Object.prototype | `fields=toString` puts `toString: true` into the column selection | keep only the names of the table's columns | not executed; the semantics of `in` are certain, what the ORM then does with the stray key is not modelled | `UserService.SelectAsWrittenAdmitsNonColumn` | `UserService.SelectColumns` |

## Left out

- The database engine, bcrypt and jsonwebtoken. Rows live in a sequence. Hashing, comparison, signing and verification are parameters. The model does not cover SQL, salts, cost factors, token expiry or the token claims beyond `{id, role}`.
- Request-body validation middleware: `src/middleware/validate` is not part of this model. The PATCH route checks the update schema itself. A rejection is the opaque fault `BodyRejected`, because that middleware's error shape is unknown.
- The e-mail format test of the validator library and the uuid format of ids. The first is a parameter; ids are opaque text.
- `Promise.all` in `list`: the page and the count are two reads of the same state. Skew under concurrent writes is not modelled.
- `Number(req.query.page)` and `Number(req.query.per_page)`: page and per_page are optional naturals passed straight through. So the model does not reproduce `NaN` for an absent parameter, or that `NaN` bypasses the defaults.
- The error handler `src/middleware/error.ts`: the model stops at `next(error)` and claims nothing about the status the client sees.
- The `/auth` routes, rate limiting, request ids, logging, OpenAPI documents, configuration, migrations and seeding.
- `UserService.List`: the modelled `list` selects columns with the intended filter (`SelectColumns`, `Projection`), not with `field in users` as written. An inherited name such as `toString` in `fields` is dropped rather than passed to the ORM; see Findings.
- `UserService.Patched` and `UserRoutes.PatchUser`: the update input has no `password` field. This assumes the validation middleware replaces `req.body` with the parsed, key-stripped value. If it passes the raw body on, a `password` key in a PATCH body would be spread into the update and overwrite the hash unhashed. That middleware is not part of this model.
- `UserService.SelectAsWritten`: `in` is modelled as true for the columns and for the property names of Object.prototype. Other own properties the ORM may put on the table object are not modelled.
- `UserService.ListResult`: an all-unknown `fields` list gives an empty column selection. The model returns items with no properties for it. What the ORM does with an empty selection, and how it treats `limit: 0`, is not modelled.
- `Ordering.SortRows`: text is compared by code point, as under a binary collation. Equal keys keep storage order, an order the database does not promise. A sort field that is not a column leaves storage order. How the ORM reads the `{[field]: desc}` object is not modelled.
- `UserService.ListPagesDisjoint` and `Ordering.PagesDisjoint` hold only when the sort column's values are distinct. Each page is a separate query, and PostgreSQL may order rows with equal keys differently for different LIMIT/OFFSET values. So with ties (rows created in the same instant under the default `createdAt` order, or `sort=role:asc`), the program's pages can overlap or skip rows. The model's own `PageRows` fixes one tie order and does not show this.
- `Schema.ValidUpdate`: timestamps are abstract instants. Whether a JSON body can carry `createdAt` or `updatedAt` past the derived validator is not modelled. The model lets a valid update replace `createdAt`.
- `Schema.ValidInsert` and `Schema.ValidUpdate`: lengths are counted in characters, whereas the validator counts JavaScript string length in UTF-16 code units. A username or password containing characters outside the Basic Multilingual Plane is judged differently: the model counts each such character once, the validator twice. `Schema.OverlongColumn` counts the same way, and Postgres `varchar` widths also count characters, so that one agrees.
- `UserService.Violation`: when a new id and a new e-mail both clash, the model reports the id. Which one the database reports is not modelled.
- `UserService.FindById`: an id that is not uuid text makes the database raise a cast error. The model answers NotFound instead. The same holds for `UserService.UpdateOn` and `UserService.DeleteOn`.
- `UserService.UpdateOn`: update keeps a row at its storage position. Postgres may move an updated row, which only affects the order of equal sort keys.
