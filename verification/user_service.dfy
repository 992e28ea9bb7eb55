/** `UserService`: listing, registration, login, lookup, update and deletion
    of users over the `users` table. The table is a `UsersTable` object whose
    rows the mutating operations replace; the reading operations are
    functions of the rows. Password hashing and comparison and token signing
    are parameters. */
module UserService {
  import opened Results
  import opened Errors
  import opened Schema
  import opened Ordering
  import Strings

  const DefaultPage: nat := 1
  const DefaultPerPage: nat := 20
  /** The order used when no sort token is given: newest first. */
  const DefaultOrder: OrderBy := OrderBy("createdAt", true)
  const InvalidCredentials: string := "Invalid credentials"
  const UserResource: string := "User"

  /** No two rows share an id (primary key) or an e-mail (unique column). */
  predicate KeysUnique(rows: seq<User>) {
    forall i, j :: 0 <= i < j < |rows| ==> rows[i].id != rows[j].id && rows[i].email != rows[j].email
  }

  /** The `users` table, rows in storage order. */
  class UsersTable {
    var rows: seq<User>

    ghost predicate Valid()
      reads this
    {
      KeysUnique(rows)
    }

    constructor ()
      ensures Valid() && rows == []
    {
      rows := [];
    }
  }

  // ---------------------------------------------------------------------
  // Password redaction

  /** `const { password, ...rest } = row`: the object without its password. */
  function Redact(r: Record): (p: Record)
    ensures "password" !in p
    ensures forall k :: k in r && k != "password" ==> k in p && p[k] == r[k]
    ensures p.Keys <= r.Keys
  {
    r - {"password"}
  }

  /** A row as every single-user response shows it. */
  function PublicView(u: User): (p: Record)
    ensures p.Keys == Columns - {"password"}
  {
    Redact(ToRecord(u))
  }

  /** Redaction loses the password and nothing else: putting the hash back
      gives the row. */
  lemma PublicViewLosesOnlyPassword(u: User)
    ensures FromRecord(PublicView(u)["password" := Text(u.password)]) == Some(u)
  {
    assert PublicView(u)["password" := Text(u.password)] == ToRecord(u);
  }

  // ---------------------------------------------------------------------
  // Lookups

  /** The first row, in storage order, that satisfies `p`. */
  function FirstWhere(rows: seq<User>, p: User -> bool): (k: Option<nat>)
    ensures k.Some? ==> k.value < |rows| && p(rows[k.value])
    ensures k.Some? ==> forall j :: 0 <= j < k.value ==> !p(rows[j])
    ensures k.None? ==> forall j :: 0 <= j < |rows| ==> !p(rows[j])
    decreases |rows|
  {
    if rows == [] then None
    else if p(rows[0]) then Some(0)
    else
      match FirstWhere(rows[1..], p)
      case None => None
      case Some(k) => Some(k + 1)
  }

  function IndexOfId(rows: seq<User>, id: Id): Option<nat> {
    FirstWhere(rows, (u: User) => u.id == id)
  }

  function IndexOfEmail(rows: seq<User>, email: string): Option<nat> {
    FirstWhere(rows, (u: User) => u.email == email)
  }

  /** With unique keys, the row found by id is the only one with that id. */
  lemma IndexOfIdIsOnly(rows: seq<User>, id: Id, i: nat)
    requires KeysUnique(rows)
    requires i < |rows| && rows[i].id == id
    ensures IndexOfId(rows, id) == Some(i)
  {
  }

  // ---------------------------------------------------------------------
  // Constraint checks the database applies to a new or changed row

  predicate IdTaken(rows: seq<User>, id: Id, except: Option<nat>) {
    exists i :: 0 <= i < |rows| && Some(i) != except && rows[i].id == id
  }

  predicate EmailTaken(rows: seq<User>, email: string, except: Option<nat>) {
    exists i :: 0 <= i < |rows| && Some(i) != except && rows[i].email == email
  }

  /** The error the database raises when `u` is written to the table in
      place of the row at `except` (or added, when `except` is None): a value
      too wide for its column, then a primary-key clash, then an e-mail clash. */
  function Violation(rows: seq<User>, u: User, except: Option<nat>): (v: Option<DbError>)
    ensures v.None? <==>
      FitsColumns(u) &&
      forall i :: 0 <= i < |rows| && Some(i) != except ==> rows[i].id != u.id && rows[i].email != u.email
    ensures v.Some? ==> v.value.ValueTooLong? || v.value == UniqueViolation("id") || v.value == UniqueViolation("email")
    ensures v == Some(UniqueViolation("email")) ==> EmailTaken(rows, u.email, except)
  {
    match OverlongColumn(u)
    case Some(column) => Some(ValueTooLong(column))
    case None =>
      if IdTaken(rows, u.id, except) then Some(UniqueViolation("id"))
      else if EmailTaken(rows, u.email, except) then Some(UniqueViolation("email"))
      else None
  }

  /** Adding a row that violates nothing keeps ids and e-mails unique. */
  lemma AppendKeepsKeysUnique(rows: seq<User>, u: User)
    requires KeysUnique(rows) && Violation(rows, u, None).None?
    ensures KeysUnique(rows + [u])
  {
  }

  /** Replacing a row by one that clashes with no other row keeps ids and
      e-mails unique. */
  lemma ReplaceKeepsKeysUnique(rows: seq<User>, i: nat, u: User)
    requires KeysUnique(rows) && i < |rows| && Violation(rows, u, Some(i)).None?
    ensures KeysUnique(rows[i := u])
  {
  }

  // ---------------------------------------------------------------------
  // list

  datatype ListOptions = ListOptions(
    page: Option<nat>,
    perPage: Option<nat>,
    sort: Option<string>,
    fields: Option<seq<string>>)

  datatype ListPage = ListPage(items: seq<Record>, total: nat, page: nat, perPage: nat)

  /** `(page - 1) * per_page`: the start of the page for page 1 onwards,
      and one page before the first row for page 0. */
  function Offset(page: nat, perPage: nat): (o: int)
    ensures o == (page as int - 1) * perPage
    ensures page >= 1 ==> o == PageStart(page, perPage)
    ensures o < 0 <==> page == 0 && perPage > 0
  {
    if page == 0 then -(perPage as int) else PageStart(page, perPage)
  }

  /** The sort token: an empty or missing one gives newest-first; otherwise
      the column is the text before the first ':' and the direction is
      descending exactly when the text after it, up to any further ':', is
      "desc". */
  function ParseSort(sort: Option<string>): OrderBy {
    if sort.None? || sort.value == "" then DefaultOrder
    else
      var parts := Strings.Split(sort.value, ':');
      OrderBy(parts[0], |parts| >= 2 && parts[1] == "desc")
  }

  /** `column:direction` parses back into its column, descending exactly for
      "desc"; a bare column is ascending; no token is the default order. */
  lemma ParseSortToken(column: string, direction: string, rest: string)
    requires ':' !in column && ':' !in direction
    ensures ParseSort(Some(column + ":" + direction)) == OrderBy(column, direction == "desc")
    ensures ParseSort(Some(column + ":" + direction + ":" + rest)) == OrderBy(column, direction == "desc")
    ensures column != "" ==> ParseSort(Some(column)) == OrderBy(column, false)
    ensures ParseSort(None) == ParseSort(Some("")) == OrderBy("createdAt", true)
  {
    Strings.SplitAfterFirst(column, ':', direction);
    Strings.SplitWithoutSeparator(direction, ':');
    assert column + ":" + direction + ":" + rest == column + [':'] + (direction + [':'] + rest);
    Strings.SplitAfterFirst(column, ':', direction + [':'] + rest);
    Strings.SplitAfterFirst(direction, ':', rest);
    Strings.SplitWithoutSeparator(column, ':');
  }

  /** The projection filter as written: `name in users` is JavaScript's `in`,
      which also holds for the names the table object inherits from
      Object.prototype: the property names of Object.prototype are listed
      here. Own properties of the table object other than its columns are
      not modelled. */
  const InheritedNames: set<string> :=
    {"constructor", "hasOwnProperty", "isPrototypeOf", "propertyIsEnumerable",
     "toLocaleString", "toString", "valueOf", "__proto__",
     "__defineGetter__", "__defineSetter__", "__lookupGetter__", "__lookupSetter__"}

  predicate InUsersObject(name: string) {
    name in Columns || name in InheritedNames
  }

  /** Compared with the intended filter, the one as written keeps every
      requested column and may keep inherited names as well. */
  function SelectAsWritten(fields: seq<string>): (select: set<string>)
    ensures forall f :: f in fields && f in Columns ==> f in select
    ensures forall f :: f in select ==> f in fields
    ensures select - Columns <= InheritedNames
    ensures fields != [] ==> select * Columns == Projection(Some(fields)).value
  {
    set f | f in fields && InUsersObject(f)
  }

  /** The filter as written lets a name through that is not a column. */
  lemma SelectAsWrittenAdmitsNonColumn()
    ensures "toString" in SelectAsWritten(["toString"])
    ensures "toString" !in Columns
  {
  }

  /** The projection as intended: the requested names that are columns, or
      every column when no names were requested. */
  function Projection(fields: Option<seq<string>>): (columns: Option<set<string>>)
    ensures columns.None? <==> fields.None? || fields.value == []
    ensures columns.Some? ==> columns.value <= Columns
    ensures columns.Some? ==> forall f :: f in fields.value && f in Columns ==> f in columns.value
    ensures columns.Some? ==> forall f :: f in columns.value ==> f in fields.value
  {
    if fields.None? || fields.value == [] then None
    else Some(set f | f in fields.value && f in Columns)
  }

  /** Builds the `select` object one requested name at a time, keeping the
      names that are columns. */
  method SelectColumns(fields: seq<string>) returns (select: set<string>)
    ensures forall f :: f in select <==> f in fields && f in Columns
  {
    select := {};
    var i := 0;
    while i < |fields|
      invariant 0 <= i <= |fields|
      invariant forall f :: f in select <==> f in fields[..i] && f in Columns
    {
      if fields[i] in Columns {
        select := select + {fields[i]};
      }
      assert fields[..i + 1] == fields[..i] + [fields[i]];
      i := i + 1;
    }
    assert fields[..i] == fields;
  }

  /** The row object restricted to the projected columns. */
  function Project(r: Record, columns: Option<set<string>>): (p: Record)
    ensures columns.None? ==> p == r
    ensures columns.Some? ==> p.Keys == r.Keys * columns.value
    ensures forall k :: k in p ==> k in r && p[k] == r[k]
  {
    if columns.None? then r else map k | k in r && k in columns.value :: r[k]
  }

  /** One listed row: projected, then stripped of its password. */
  function ListItem(u: User, columns: Option<set<string>>): (p: Record)
    ensures "password" !in p
    ensures columns.None? ==> p == PublicView(u)
    ensures columns.Some? ==> p.Keys == Columns * columns.value - {"password"}
    ensures forall k :: k in p ==> p[k] == ToRecord(u)[k]
  {
    Redact(Project(ToRecord(u), columns))
  }

  function Items(rows: seq<User>, columns: Option<set<string>>): (items: seq<Record>)
    ensures |items| == |rows|
    ensures forall i :: 0 <= i < |rows| ==> items[i] == ListItem(rows[i], columns)
  {
    seq(|rows|, i requires 0 <= i < |rows| => ListItem(rows[i], columns))
  }

  /** The rows of one page, in order, before projection: the LIMIT/OFFSET
      window of the sorted table, so its length and positions are those
      `Window` states. */
  function PageRows(rows: seq<User>, options: ListOptions): (r: seq<User>)
    requires Offset(options.page.GetOr(DefaultPage), options.perPage.GetOr(DefaultPerPage)) >= 0
    ensures var perPage := options.perPage.GetOr(DefaultPerPage);
            var offset := Offset(options.page.GetOr(DefaultPage), perPage);
            r == Window(SortRows(rows, ParseSort(options.sort)), offset as nat, perPage)
    ensures |r| <= options.perPage.GetOr(DefaultPerPage)
  {
    var page := options.page.GetOr(DefaultPage);
    var perPage := options.perPage.GetOr(DefaultPerPage);
    var offset: nat := Offset(page, perPage);
    Window(SortRows(rows, ParseSort(options.sort)), offset, perPage)
  }

  /** What `list` returns for a table state: the window of sorted rows,
      projected and redacted, with the count of the whole table and the
      page parameters echoed back. */
  function ListResult(rows: seq<User>, options: ListOptions): (r: Result<ListPage, Fault>)
    ensures var page := options.page.GetOr(DefaultPage);
            var perPage := options.perPage.GetOr(DefaultPerPage);
            && (r.Failure? <==> Offset(page, perPage) < 0)
            && (r.Failure? ==> r.error == Db(NegativeOffset))
            && (r.Success? ==> r.value.total == |rows| && r.value.page == page && r.value.perPage == perPage)
    ensures r.Success? ==> forall i :: 0 <= i < |r.value.items| ==> "password" !in r.value.items[i]
    ensures r.Success? ==> |r.value.items| <= options.perPage.GetOr(DefaultPerPage)
    ensures r.Success? ==>
              var page := PageRows(rows, options);
              && |r.value.items| == |page|
              && forall i :: 0 <= i < |page| ==> r.value.items[i] == ListItem(page[i], Projection(options.fields))
  {
    var page := options.page.GetOr(DefaultPage);
    var perPage := options.perPage.GetOr(DefaultPerPage);
    if Offset(page, perPage) < 0 then Failure(Db(NegativeOffset))
    else Success(ListPage(Items(PageRows(rows, options), Projection(options.fields)), |rows|, page, perPage))
  }

  /** `UserService.list`. The page and the count are two reads of the same
      table state. */
  method List(db: UsersTable, options: ListOptions) returns (r: Result<ListPage, Fault>)
    ensures r == ListResult(db.rows, options)
    ensures r.Success? ==> r.value.total == |db.rows|
    ensures r.Success? ==> forall i :: 0 <= i < |r.value.items| ==> "password" !in r.value.items[i]
  {
    var page := options.page.GetOr(DefaultPage);
    var perPage := options.perPage.GetOr(DefaultPerPage);
    var fields := options.fields.GetOr([]);
    var offset := (page as int - 1) * perPage;

    var orderBy := DefaultOrder;
    if options.sort.Some? && options.sort.value != "" {
      var parts := Strings.Split(options.sort.value, ':');
      orderBy := OrderBy(parts[0], |parts| >= 2 && parts[1] == "desc");
    }

    var columns: Option<set<string>> := None;
    if |fields| > 0 {
      var select := SelectColumns(fields);
      assert select == set f | f in fields && f in Columns;
      columns := Some(select);
    }

    if offset < 0 {
      return Failure(Db(NegativeOffset));
    }
    var pageRows := Window(SortRows(db.rows, orderBy), offset, perPage);
    var count := |db.rows|;
    r := Success(ListPage(Items(pageRows, columns), count, page, perPage));
  }

  /** The count covers the whole table whatever the page, sort and
      projection, and a page never holds more rows than the table. */
  lemma ListTotalIgnoresPaging(rows: seq<User>, options: ListOptions, other: ListOptions)
    requires ListResult(rows, options).Success? && ListResult(rows, other).Success?
    ensures ListResult(rows, options).value.total == ListResult(rows, other).value.total == |rows|
    ensures |ListResult(rows, options).value.items| <= |rows|
  {
    var s := SortRows(rows, ParseSort(options.sort));
    assert |s| == |multiset(s)| == |multiset(rows)| == |rows|;
  }

  /** Each page is its own query, and the database may order rows with
      equal keys differently in each. When the sort column's values are
      distinct, every order the database may pick for either query is the
      model's, and two different pages share no row. */
  lemma ListPagesDisjoint(rows: seq<User>, options: ListOptions, p1: nat, p2: nat, s1: seq<User>, s2: seq<User>)
    requires KeysUnique(rows)
    requires KeysDistinct(rows, ParseSort(options.sort).column)
    requires 1 <= p1 < p2
    requires multiset(s1) == multiset(rows) && SortedBy(s1, ParseSort(options.sort))
    requires multiset(s2) == multiset(rows) && SortedBy(s2, ParseSort(options.sort))
    ensures var perPage := options.perPage.GetOr(DefaultPerPage);
            && PageRows(rows, options.(page := Some(p1))) == Window(s1, PageStart(p1, perPage), perPage)
            && PageRows(rows, options.(page := Some(p2))) == Window(s2, PageStart(p2, perPage), perPage)
    ensures Disjoint(PageRows(rows, options.(page := Some(p1))), PageRows(rows, options.(page := Some(p2))))
  {
    var ob := ParseSort(options.sort);
    var sorted := SortRows(rows, ob);
    PermutationKeepsKeysDistinct(rows, sorted, ob.column);
    SortedUnique(sorted, s1, ob);
    SortedUnique(sorted, s2, ob);
    PagesDisjoint(rows, s1, s2, ob, options.perPage.GetOr(DefaultPerPage), p1, p2);
  }

  // ---------------------------------------------------------------------
  // create

  /** The row `create` inserts: the input spread over the column defaults,
      the password replaced by its hash and the role defaulting to "user"
      when missing or empty. */
  function NewRow(data: NewUser, freshId: Id, now: Time, hash: string -> string): (u: User)
    ensures u.password == hash(data.password)
    ensures u.role == (if data.role.Some? && data.role.value != "" then data.role.value else DefaultRole)
    ensures u.username == data.username && u.email == data.email
    ensures u.id == data.id.GetOr(freshId)
    ensures u.createdAt == data.createdAt.GetOr(now) && u.updatedAt == data.updatedAt.GetOr(now)
  {
    User(data.id.GetOr(freshId), data.username, data.email, hash(data.password),
         if data.role.Some? && data.role.value != "" then data.role.value else DefaultRole,
         data.createdAt.GetOr(now), data.updatedAt.GetOr(now))
  }

  /** Input accepted by the insert schema becomes a row whose role is in the
      enum and whose username fits its column. */
  lemma ValidInsertRow(data: NewUser, freshId: Id, now: Time, hash: string -> string, isEmail: string -> bool)
    requires ValidInsert(data, isEmail)
    ensures NewRow(data, freshId, now, hash).role in Roles
    ensures |NewRow(data, freshId, now, hash).username| <= UsernameMaxLength
    ensures OverlongColumn(NewRow(data, freshId, now, hash)).Some? ==>
              OverlongColumn(NewRow(data, freshId, now, hash)) == Some("email")
  {
  }

  /** A mutation's outcome: what the call returns or throws, and the table
      afterwards. */
  datatype Step<T> = Step(result: Result<T, Fault>, rows: seq<User>)

  /** `create` on a table state: the new row is appended unless the database
      refuses it, and then nothing changes. */
  function CreateOn(rows: seq<User>, data: NewUser, freshId: Id, now: Time, hash: string -> string)
    : (s: Step<Record>)
    ensures s.result.Success? ==>
              var u := NewRow(data, freshId, now, hash);
              s.rows == rows + [u] && s.result.value == PublicView(u)
    ensures s.result.Success? <==> Violation(rows, NewRow(data, freshId, now, hash), None).None?
    ensures s.result.Failure? ==> s.rows == rows && s.result.error.Db?
    ensures EmailTaken(rows, data.email, None) ==> s.result.Failure?
    ensures s.result == Failure(Db(UniqueViolation("email"))) ==> EmailTaken(rows, data.email, None)
    ensures KeysUnique(rows) ==> KeysUnique(s.rows)
  {
    var u := NewRow(data, freshId, now, hash);
    match Violation(rows, u, None)
    case Some(v) => Step(Failure(Db(v)), rows)
    case None =>
      assert KeysUnique(rows) ==> KeysUnique(rows + [u]) by {
        if KeysUnique(rows) { AppendKeepsKeysUnique(rows, u); }
      }
      Step(Success(PublicView(u)), rows + [u])
  }

  /** `UserService.create`. */
  method Create(db: UsersTable, data: NewUser, freshId: Id, now: Time, hash: string -> string)
    returns (r: Result<Record, Fault>)
    requires db.Valid()
    modifies db
    ensures db.Valid()
    ensures Step(r, db.rows) == CreateOn(old(db.rows), data, freshId, now, hash)
  {
    var u := NewRow(data, freshId, now, hash);
    var v := Violation(db.rows, u, None);
    if v.Some? {
      return Failure(Db(v.value));
    }
    db.rows := db.rows + [u];
    r := Success(PublicView(u));
  }

  // ---------------------------------------------------------------------
  // login

  datatype Session = Session(token: string, user: Record)

  /** `UserService.login`: the first row with the e-mail, if its hash matches
      the password, yields a token over exactly its id and role. */
  function Login(rows: seq<User>, data: LoginData, compare: (string, string) -> bool, sign: Claims -> string)
    : (r: Result<Session, Fault>)
    ensures r.Failure? ==> r.error == App(AuthenticationError(InvalidCredentials))
    ensures r.Success? <==>
      IndexOfEmail(rows, data.email).Some? && compare(data.password, rows[IndexOfEmail(rows, data.email).value].password)
    ensures r.Success? ==>
      var u := rows[IndexOfEmail(rows, data.email).value];
      r.value == Session(sign(Claims(u.id, u.role)), PublicView(u)) && "password" !in r.value.user
  {
    match IndexOfEmail(rows, data.email)
    case None => Failure(App(AuthenticationError(InvalidCredentials)))
    case Some(i) =>
      var u := rows[i];
      if !compare(data.password, u.password) then Failure(App(AuthenticationError(InvalidCredentials)))
      else Success(Session(sign(Claims(u.id, u.role)), PublicView(u)))
  }

  /** An unknown e-mail and a wrong password fail identically, so a caller
      cannot tell which one happened. */
  lemma LoginFailuresIndistinguishable(rows: seq<User>, unknown: LoginData, wrong: LoginData,
                                       compare: (string, string) -> bool, sign: Claims -> string)
    requires forall i :: 0 <= i < |rows| ==> rows[i].email != unknown.email
    requires exists i :: 0 <= i < |rows| && rows[i].email == wrong.email
    requires forall i :: 0 <= i < |rows| && rows[i].email == wrong.email ==> !compare(wrong.password, rows[i].password)
    ensures Login(rows, unknown, compare, sign).Failure?
    ensures Login(rows, wrong, compare, sign).Failure?
    ensures Login(rows, unknown, compare, sign) == Login(rows, wrong, compare, sign)
  {
  }

  /** With unique e-mails, login succeeds exactly when some row has the
      e-mail and its hash matches the password. */
  lemma LoginSucceedsIff(rows: seq<User>, data: LoginData, compare: (string, string) -> bool, sign: Claims -> string)
    requires KeysUnique(rows)
    ensures Login(rows, data, compare, sign).Success? <==>
      exists i :: 0 <= i < |rows| && rows[i].email == data.email && compare(data.password, rows[i].password)
  {
    if i :| 0 <= i < |rows| && rows[i].email == data.email && compare(data.password, rows[i].password) {
      assert IndexOfEmail(rows, data.email) == Some(i);
    }
  }

  /** A user just registered can log in with the password they chose,
      provided the hash comparison accepts a password against its own hash,
      and the token names the stored id and role. */
  lemma LoginAfterCreate(rows: seq<User>, data: NewUser, freshId: Id, now: Time, hash: string -> string,
                         compare: (string, string) -> bool, sign: Claims -> string)
    requires KeysUnique(rows)
    requires forall p :: compare(p, hash(p))
    requires Violation(rows, NewRow(data, freshId, now, hash), None).None?
    ensures CreateOn(rows, data, freshId, now, hash).result.Success?
    ensures var u := NewRow(data, freshId, now, hash);
            Login(CreateOn(rows, data, freshId, now, hash).rows, LoginData(data.email, data.password), compare, sign)
              == Success(Session(sign(Claims(u.id, u.role)), PublicView(u)))
  {
    var u := NewRow(data, freshId, now, hash);
    assert CreateOn(rows, data, freshId, now, hash).rows == rows + [u];
    AppendKeepsKeysUnique(rows, u);
    assert (rows + [u])[|rows|] == u;
    assert IndexOfEmail(rows + [u], data.email) == Some(|rows|);
  }

  // ---------------------------------------------------------------------
  // findById

  /** `UserService.findById`. */
  function FindById(rows: seq<User>, id: Id): (r: Result<Record, Fault>)
    ensures r.Success? <==> exists i :: 0 <= i < |rows| && rows[i].id == id
    ensures r.Failure? ==> r.error == App(NotFoundError(UserResource))
    ensures r.Success? ==> r.value == PublicView(rows[IndexOfId(rows, id).value]) && "password" !in r.value
  {
    match IndexOfId(rows, id)
    case None => Failure(App(NotFoundError(UserResource)))
    case Some(i) => Success(PublicView(rows[i]))
  }

  /** A user just created is found by its id, as the create call returned it. */
  lemma FindByIdAfterCreate(rows: seq<User>, data: NewUser, freshId: Id, now: Time, hash: string -> string)
    requires KeysUnique(rows)
    requires CreateOn(rows, data, freshId, now, hash).result.Success?
    ensures var s := CreateOn(rows, data, freshId, now, hash);
            FindById(s.rows, NewRow(data, freshId, now, hash).id) == s.result
  {
    var u := NewRow(data, freshId, now, hash);
    var s := CreateOn(rows, data, freshId, now, hash);
    assert s.rows[|rows|] == u;
    IndexOfIdIsOnly(s.rows, u.id, |rows|);
  }

  // ---------------------------------------------------------------------
  // update

  /** `{...data, updatedAt: now}` applied to a row: the given fields replace
      the stored ones, `updatedAt` is always the update time, and the
      password hash cannot change. */
  function Patched(u: User, patch: UpdateUser, now: Time): (v: User)
    ensures v.password == u.password
    ensures v.updatedAt == now
    ensures v.id == patch.id.GetOr(u.id) && v.username == patch.username.GetOr(u.username)
    ensures v.email == patch.email.GetOr(u.email) && v.role == patch.role.GetOr(u.role)
    ensures v.createdAt == patch.createdAt.GetOr(u.createdAt)
  {
    User(patch.id.GetOr(u.id), patch.username.GetOr(u.username), patch.email.GetOr(u.email),
         u.password, patch.role.GetOr(u.role), patch.createdAt.GetOr(u.createdAt), now)
  }

  /** An update accepted by the update schema keeps a role inside the enum. */
  lemma ValidUpdateKeepsRole(u: User, patch: UpdateUser, now: Time, isEmail: string -> bool)
    requires ValidUpdate(patch, isEmail) && u.role in Roles
    ensures Patched(u, patch, now).role in Roles
  {
  }

  /** `update` on a table state: the row with the id is patched in place
      unless there is none (NotFound) or the database refuses the new values;
      every other row stays as it was. */
  function UpdateOn(rows: seq<User>, id: Id, patch: UpdateUser, now: Time): (s: Step<Record>)
    ensures s.result == Failure(App(NotFoundError(UserResource))) <==>
              forall j :: 0 <= j < |rows| ==> rows[j].id != id
    ensures s.result.Success? <==>
              && IndexOfId(rows, id).Some?
              && var i := IndexOfId(rows, id).value;
                 Violation(rows, Patched(rows[i], patch, now), Some(i)).None?
    ensures s.result.Failure? ==> s.rows == rows
    ensures s.result.Success? ==>
              exists i :: 0 <= i < |rows| && rows[i].id == id &&
                s.rows == rows[i := Patched(rows[i], patch, now)] &&
                s.rows[i].password == rows[i].password && s.rows[i].updatedAt == now &&
                s.result.value == PublicView(s.rows[i])
    ensures |s.rows| == |rows|
    ensures KeysUnique(rows) ==> KeysUnique(s.rows)
  {
    match IndexOfId(rows, id)
    case None => Step(Failure(App(NotFoundError(UserResource))), rows)
    case Some(i) =>
      var v := Patched(rows[i], patch, now);
      match Violation(rows, v, Some(i))
      case Some(e) => Step(Failure(Db(e)), rows)
      case None =>
        assert KeysUnique(rows) ==> KeysUnique(rows[i := v]) by {
          if KeysUnique(rows) { ReplaceKeepsKeysUnique(rows, i, v); }
        }
        Step(Success(PublicView(v)), rows[i := v])
  }

  /** An update leaves every other row, and every row's password hash,
      exactly as it was. */
  lemma UpdateTouchesOnlyItsRow(rows: seq<User>, id: Id, patch: UpdateUser, now: Time, j: nat)
    requires j < |rows| && rows[j].id != id
    ensures UpdateOn(rows, id, patch, now).rows[j] == rows[j]
    ensures UpdateOn(rows, id, patch, now).rows[j].password == rows[j].password
  {
  }

  /** After a successful update the row is found under its (possibly new)
      id exactly as the update returned it. */
  lemma FindByIdAfterUpdate(rows: seq<User>, id: Id, patch: UpdateUser, now: Time)
    requires KeysUnique(rows)
    requires UpdateOn(rows, id, patch, now).result.Success?
    ensures var s := UpdateOn(rows, id, patch, now);
            FindById(s.rows, patch.id.GetOr(id)) == s.result
  {
    var s := UpdateOn(rows, id, patch, now);
    var i := IndexOfId(rows, id).value;
    assert s.rows[i].id == patch.id.GetOr(id);
    IndexOfIdIsOnly(s.rows, s.rows[i].id, i);
  }

  /** `UserService.update`. */
  method Update(db: UsersTable, id: Id, patch: UpdateUser, now: Time) returns (r: Result<Record, Fault>)
    requires db.Valid()
    modifies db
    ensures db.Valid()
    ensures Step(r, db.rows) == UpdateOn(old(db.rows), id, patch, now)
  {
    var found := IndexOfId(db.rows, id);
    if found.None? {
      return Failure(App(NotFoundError(UserResource)));
    }
    var i := found.value;
    var v := Patched(db.rows[i], patch, now);
    var violation := Violation(db.rows, v, Some(i));
    if violation.Some? {
      return Failure(Db(violation.value));
    }
    db.rows := db.rows[i := v];
    r := Success(PublicView(v));
  }

  // ---------------------------------------------------------------------
  // delete

  /** `DELETE ... WHERE id = ?`: every row with another id, in order. */
  function WithoutId(rows: seq<User>, id: Id): (r: seq<User>)
    ensures forall u :: u in r <==> u in rows && u.id != id
    ensures |r| <= |rows|
    ensures |r| == |rows| <==> forall j :: 0 <= j < |rows| ==> rows[j].id != id
    ensures (forall j :: 0 <= j < |rows| ==> rows[j].id != id) ==> r == rows
    decreases |rows|
  {
    if rows == [] then []
    else (if rows[0].id == id then [] else [rows[0]]) + WithoutId(rows[1..], id)
  }

  /** Deleting filters each part of the table separately, so the rows that
      stay keep their storage order. */
  lemma {:induction false} WithoutIdAppend(a: seq<User>, b: seq<User>, id: Id)
    ensures WithoutId(a + b, id) == WithoutId(a, id) + WithoutId(b, id)
    decreases |a|
  {
    if a != [] {
      var head := if a[0].id == id then [] else [a[0]];
      assert (a + b)[1..] == a[1..] + b;
      assert WithoutId(a + b, id) == head + WithoutId(a[1..] + b, id);
      assert WithoutId(a, id) == head + WithoutId(a[1..], id);
      WithoutIdAppend(a[1..], b, id);
    } else {
      assert a + b == b;
    }
  }

  /** Deleting rows keeps ids and e-mails unique. */
  lemma {:induction false} WithoutIdKeepsKeysUnique(rows: seq<User>, id: Id)
    requires KeysUnique(rows)
    ensures KeysUnique(WithoutId(rows, id))
    decreases |rows|
  {
    if rows != [] {
      WithoutIdKeepsKeysUnique(rows[1..], id);
      var rest := WithoutId(rows[1..], id);
      if rows[0].id != id {
        forall k | 0 <= k < |rest|
          ensures rows[0].id != rest[k].id && rows[0].email != rest[k].email
        {
          assert rest[k] in rows[1..];
        }
      }
    }
  }

  /** `delete` on a table state: every row with the id goes; NotFound when
      there was none, and then nothing changes. */
  function DeleteOn(rows: seq<User>, id: Id): (s: Step<()>)
    ensures s.result.Failure? <==> forall j :: 0 <= j < |rows| ==> rows[j].id != id
    ensures s.result.Failure? ==> s.result.error == App(NotFoundError(UserResource)) && s.rows == rows
    ensures s.result.Success? ==> s.rows == WithoutId(rows, id) && |s.rows| < |rows|
    ensures KeysUnique(rows) ==> KeysUnique(s.rows)
  {
    if IndexOfId(rows, id).None? then Step(Failure(App(NotFoundError(UserResource))), rows)
    else
      assert KeysUnique(rows) ==> KeysUnique(WithoutId(rows, id)) by {
        if KeysUnique(rows) { WithoutIdKeepsKeysUnique(rows, id); }
      }
      Step(Success(()), WithoutId(rows, id))
  }

  /** Deleting the same id twice: once the first delete succeeds, no row has
      the id, so the second is NotFound and the lookup fails too. */
  lemma {:induction false} DeleteTwiceNotFound(rows: seq<User>, id: Id)
    requires DeleteOn(rows, id).result.Success?
    ensures DeleteOn(DeleteOn(rows, id).rows, id) == Step(Failure(App(NotFoundError(UserResource))), DeleteOn(rows, id).rows)
    ensures FindById(DeleteOn(rows, id).rows, id) == Failure(App(NotFoundError(UserResource)))
  {
    var r := WithoutId(rows, id);
    forall j | 0 <= j < |r| ensures r[j].id != id {
      assert r[j] in r;
    }
  }

  /** `UserService.delete`. */
  method Delete(db: UsersTable, id: Id) returns (r: Result<(), Fault>)
    requires db.Valid()
    modifies db
    ensures db.Valid()
    ensures Step(r, db.rows) == DeleteOn(old(db.rows), id)
  {
    var removed := IndexOfId(db.rows, id).Some?;
    if !removed {
      return Failure(App(NotFoundError(UserResource)));
    }
    WithoutIdKeepsKeysUnique(db.rows, id);
    db.rows := WithoutId(db.rows, id);
    r := Success(());
  }

  /** Deleting the same id twice through the table object. */
  method DeleteTwice(db: UsersTable, id: Id) returns (first: Result<(), Fault>, second: Result<(), Fault>)
    requires db.Valid()
    requires exists i :: 0 <= i < |db.rows| && db.rows[i].id == id
    modifies db
    ensures first.Success?
    ensures second == Failure(App(NotFoundError(UserResource)))
  {
    first := Delete(db, id);
    DeleteTwiceNotFound(old(db.rows), id);
    second := Delete(db, id);
  }
}
