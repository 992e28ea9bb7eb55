/** The `users` table: its row type, its column constraints, the shapes of
    insert, update and login input, and the validation rules placed on
    them. */
module Schema {
  import opened Results

  /** A uuid primary key, as text. */
  type Id = string
  /** A timestamp; the model only needs to compare and copy them. */
  type Time = nat

  /** One row of `users`. `password` holds the hash, never the plaintext. */
  datatype User = User(
    id: Id,
    username: string,
    email: string,
    password: string,
    role: string,
    createdAt: Time,
    updatedAt: Time)

  /** The insert shape: `id`, `role` and both timestamps have column
      defaults and may be omitted; anything present is spread into the row. */
  datatype NewUser = NewUser(
    id: Option<Id>,
    username: string,
    email: string,
    password: string,
    role: Option<string>,
    createdAt: Option<Time>,
    updatedAt: Option<Time>)

  /** The update shape: the insert schema made partial with `password`
      omitted, so an update has no way to name the password column. */
  datatype UpdateUser = UpdateUser(
    id: Option<Id>,
    username: Option<string>,
    email: Option<string>,
    role: Option<string>,
    createdAt: Option<Time>,
    updatedAt: Option<Time>)

  datatype LoginData = LoginData(email: string, password: string)

  /** The claim set a token carries and `req.user` holds: who and in which role. */
  datatype Claims = Claims(id: Id, role: string)

  /** A column value as it appears in a JavaScript row object. */
  datatype Value = Text(text: string) | Instant(time: Time)

  /** A row object: column property names to values. */
  type Record = map<string, Value>

  /** The property names under which the table object exposes its columns. */
  const Columns: set<string> :=
    {"id", "username", "email", "password", "role", "createdAt", "updatedAt"}

  const UsernameMinLength: nat := 3
  const UsernameMaxLength: nat := 50
  const EmailMaxLength: nat := 255
  const RoleMaxLength: nat := 20
  const PasswordMinLength: nat := 6

  const UserRole: string := "user"
  const AdminRole: string := "admin"
  /** The column default for `role`. */
  const DefaultRole: string := UserRole
  /** The closed role enum of the insert schema. */
  const Roles: set<string> := {UserRole, AdminRole}

  /** The row as a JavaScript object, one property per column. */
  function ToRecord(u: User): (r: Record)
    ensures r.Keys == Columns
  {
    map["id" := Text(u.id), "username" := Text(u.username), "email" := Text(u.email),
        "password" := Text(u.password), "role" := Text(u.role),
        "createdAt" := Instant(u.createdAt), "updatedAt" := Instant(u.updatedAt)]
  }

  /** Reads a full row object back; None when a column is missing or has a
      value of the wrong kind. */
  function FromRecord(r: Record): (u: Option<User>)
    ensures u.Some? ==> Columns <= r.Keys
  {
    if Columns <= r.Keys
       && r["id"].Text? && r["username"].Text? && r["email"].Text?
       && r["password"].Text? && r["role"].Text?
       && r["createdAt"].Instant? && r["updatedAt"].Instant?
    then Some(User(r["id"].text, r["username"].text, r["email"].text, r["password"].text,
                   r["role"].text, r["createdAt"].time, r["updatedAt"].time))
    else None
  }

  /** The row object holds every field of the row and nothing else. */
  lemma RecordRoundTrip(u: User)
    ensures FromRecord(ToRecord(u)) == Some(u)
  {
  }

  /** The value a row holds in the named column; None for a name that is not
      a column. */
  function ColumnValue(u: User, column: string): (v: Option<Value>)
    ensures v.Some? <==> column in Columns
    ensures v.Some? ==> v.value == ToRecord(u)[column]
  {
    var r := ToRecord(u);
    if column in r then Some(r[column]) else None
  }

  /** The varchar widths of `username`, `email` and `role`. */
  predicate FitsColumns(u: User) {
    |u.username| <= UsernameMaxLength && |u.email| <= EmailMaxLength && |u.role| <= RoleMaxLength
  }

  /** The first column, in table order, whose value is wider than its
      varchar type, if any. */
  function OverlongColumn(u: User): (c: Option<string>)
    ensures c.None? <==> FitsColumns(u)
    ensures c.Some? ==> c.value in Columns - {"id", "password", "createdAt", "updatedAt"}
  {
    if |u.username| > UsernameMaxLength then Some("username")
    else if |u.email| > EmailMaxLength then Some("email")
    else if |u.role| > RoleMaxLength then Some("role")
    else None
  }

  predicate ValidUsername(s: string) {
    UsernameMinLength <= |s| <= UsernameMaxLength
  }

  /** An omitted role is allowed; a given one must be in the enum. */
  predicate ValidRole(role: Option<string>) {
    role.None? || role.value in Roles
  }

  /** `insertUserSchema`. The e-mail format test is the validator library's
      and is a parameter here. */
  predicate ValidInsert(d: NewUser, isEmail: string -> bool) {
    ValidUsername(d.username) && isEmail(d.email) && |d.password| >= PasswordMinLength && ValidRole(d.role)
  }

  /** `updateUserSchema`: the insert rules on whichever fields are present. */
  predicate ValidUpdate(d: UpdateUser, isEmail: string -> bool) {
    (d.username.Some? ==> ValidUsername(d.username.value))
    && (d.email.Some? ==> isEmail(d.email.value))
    && ValidRole(d.role)
  }

  /** `loginSchema`: a well-formed e-mail and any password string. */
  predicate ValidLogin(d: LoginData, isEmail: string -> bool) {
    isEmail(d.email)
  }

  /** Every input accepted at registration is also a well-formed login for
      the same e-mail and password. */
  lemma RegistrationIsValidLogin(d: NewUser, isEmail: string -> bool)
    requires ValidInsert(d, isEmail)
    ensures ValidLogin(LoginData(d.email, d.password), isEmail)
  {
  }

  /** The insert input seen as an update: every field present, password dropped. */
  function AsUpdate(d: NewUser): (p: UpdateUser)
    ensures p.username == Some(d.username) && p.email == Some(d.email)
  {
    UpdateUser(d.id, Some(d.username), Some(d.email), d.role, d.createdAt, d.updatedAt)
  }

  /** An update carrying every field, completed with a password. */
  function WithPassword(p: UpdateUser, password: string): (d: NewUser)
    requires p.username.Some? && p.email.Some?
    ensures AsUpdate(d) == p && d.password == password
  {
    NewUser(p.id, p.username.value, p.email.value, password, p.role, p.createdAt, p.updatedAt)
  }

  /** The update schema is the insert schema made partial without the
      password rule: an input valid for insert is valid as an update, and a
      complete valid update plus a long-enough password is a valid insert. */
  lemma UpdateSchemaIsPartialInsert(d: NewUser, p: UpdateUser, password: string, isEmail: string -> bool)
    ensures ValidInsert(d, isEmail) ==> ValidUpdate(AsUpdate(d), isEmail)
    ensures p.username.Some? && p.email.Some? && ValidUpdate(p, isEmail) && |password| >= PasswordMinLength ==>
              ValidInsert(WithPassword(p, password), isEmail)
  {
  }
}
