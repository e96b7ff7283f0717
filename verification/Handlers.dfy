/**
 * The fourteen request handlers and the dispatcher, as functions of session, store, request fields and engine choices.
 */
module Handlers {
  import opened Bytes
  import opened Decimal
  import opened MessagePb
  import opened Commands
  import opened PasswordHash
  import opened CourseTables
  import opened CourseViews
  import opened CourseStore
  import opened Administrators
  import opened ListCodec

  datatype Role = STUDENT | ADMIN
  datatype Session = Session(role: Role, name: Text)

  /** What handle_client starts every connection with. */
  const FRESH_SESSION := Session(STUDENT, [])

  datatype Response = Response(cmdType: uint32, payload: Text)
  datatype Store = Store(courses: Db, admins: AdminDb)
  datatype Library = Library(like: Like, kdf: Kdf)

  /** All that engine and random source decide during one request. */
  datatype Env = Env(engine: Engine, cursor: Cursor, first: AdminEngine, second: AdminEngine)

  /** send_response_s accepts it: server to client, and not empty. */
  predicate CanBeSent(r: Response) { IsS2C(r.cmdType) && r.payload != [] }

  datatype Effect = Effect(session: Session, store: Store, resp: Response)

  const OK := Ascii("OK")
  const LOGIN_FIELDS := Ascii("Login payload requires username and password")
  const CREDENTIALS_EMPTY := Ascii("Username or password cannot be empty")
  const LOGIN_INVALID := Ascii("Invalid username or password")
  const CODE_REQUIRED := Ascii("Course code required")
  const INSTRUCTOR_REQUIRED := Ascii("Instructor name required")
  const SEMESTER_REQUIRED := Ascii("Semester required")
  const ADD_FIELDS := Ascii("Add requires 8 fields (code/title/section/instructor/day/duration/semester/classroom)")
  const UPDATE_FIELDS := Ascii("Update requires 8 fields")
  const DELETE_FIELDS := Ascii("Delete requires code and section")
  const KEY_EMPTY := Ascii("Course code and section cannot be empty")
  const INSERT_FAILED := Ascii("Failed to insert course: ")
  const UPDATE_FAILED := Ascii("Failed to update course: ")
  const DELETE_FAILED := Ascii("Failed to delete course: ")
  const CREATE_FIELDS := Ascii("Admin create requires username and password")
  const ALREADY_EXISTS := Ascii("Username already exists")
  const CREATE_FAILED := Ascii("Create admin failed: ")
  const ADMIN_UPDATE_FIELDS := Ascii("Admin update requires old_username, new_username, new_password")
  const NAMES_EMPTY := Ascii("Old/new username cannot be empty")
  const OLD_MISSING := Ascii("Old username not found")
  const RENAME_FAILED := Ascii("Rename failed: ")
  const PASSWORD_FAILED := Ascii("Password update failed: ")
  const NAME_REQUIRED := Ascii("Username required")
  const NOT_YOURSELF := Ascii("Cannot delete yourself")
  const REMOVE_FAILED := Ascii("Delete failed: ")
  const UNKNOWN := Ascii("Unknown command")
  const FORBIDDEN := Ascii("Insufficient permissions")

  function FieldAt(f: seq<Text>, i: nat): Text { if i < |f| then f[i] else [] }

  function HandleLogin(lib: Library, s: Session, st: Store, f: seq<Text>, env: Env): (r: Effect)
    ensures CanBeSent(r.resp)
  {
    hide VerifyLogin;
    if |f| < 2 then Effect(s, st, Response(CMD_ERROR, LOGIN_FIELDS))
    else if f[0] == [] || f[1] == [] then Effect(s, st, Response(CMD_ERROR, CREDENTIALS_EMPTY))
    else
      var r := VerifyLogin(lib.kdf, st.admins, f[0], f[1], env.first);
      var st' := st.(admins := r.0);
      if !r.1 then Effect(s, st', Response(CMD_ERROR, LOGIN_INVALID))
      else Effect(Session(ADMIN, f[0]), st', Response(CMD_LOGIN_RESP, OK))
  }

  function HandleLogout(s: Session, st: Store): (r: Effect)
    ensures CanBeSent(r.resp)
  {
    Effect(Session(STUDENT, []), st, Response(CMD_OK, OK))
  }

  /** Run one query and answer with its rows. */
  function AnswerRows(s: Session, st: Store, rows: seq<Course>, cur: Cursor): (r: Effect)
    ensures CanBeSent(r.resp)
  {
    var r := Ask(st.courses, rows, cur);
    Effect(s, st.(courses := r.0), Response(CMD_QUERY_RESP, SerializeCourses(r.1)))
  }

  /** The three queries that need a non-empty first field. */
  function HandleQuery(lib: Library, s: Session, st: Store, q: Query, arg: Text, missing: Text,
      cur: Cursor): (r: Effect)
    requires missing != []
    ensures CanBeSent(r.resp)
  {
    if arg == [] then Effect(s, st, Response(CMD_ERROR, missing))
    else AnswerRows(s, st, Rows(lib.like, st.courses.tables, q), cur)
  }

  function HandleViewAll(lib: Library, s: Session, st: Store, env: Env): (r: Effect)
    ensures CanBeSent(r.resp)
  {
    AnswerRows(s, st, Rows(lib.like, st.courses.tables, All), env.cursor)
  }

  /** The offset and limit a request asks for, after defaults and clamping. */
  function PageBounds(f: seq<Text>): (r: (int, int))
    ensures 0 <= r.0 && 1 <= r.1 <= 1000
  {
    var offset := if |f| >= 1 && Stoi(f[0]).Some? then Stoi(f[0]).value else 0;
    var limit := if |f| >= 2 && Stoi(f[1]).Some? then Stoi(f[1]).value else 200;
    (if offset < 0 then 0 else offset, if limit <= 0 || limit > 1000 then 200 else limit)
  }

  function HandleViewPage(lib: Library, s: Session, st: Store, f: seq<Text>, env: Env): (r: Effect)
    ensures CanBeSent(r.resp)
  {
    var b := PageBounds(f);
    AnswerRows(s, st, Page(lib.like, st.courses.tables, b.0, b.1), env.cursor)
  }

  /** What add, update and delete answer when the repository call is over. */
  function Written(s: Session, st: Store, r: (Db, bool), failed: Text): (e: Effect)
    requires failed != []
    ensures CanBeSent(e.resp)
  {
    Effect(s, st.(courses := r.0),
           if r.1 then Response(CMD_ADMIN_RESP, OK) else Response(CMD_SERVER_ERROR, failed + r.0.lastError))
  }

  function HandleAdd(s: Session, st: Store, f: seq<Text>, env: Env): (r: Effect)
    ensures CanBeSent(r.resp)
  {
    if |f| < 8 then Effect(s, st, Response(CMD_ERROR, ADD_FIELDS))
    else
      var c := CourseOf(f);
      if c.code == [] || c.section == [] then Effect(s, st, Response(CMD_ERROR, KEY_EMPTY))
      else Written(s, st, InsertOrReplace(st.courses, c, env.engine), INSERT_FAILED)
  }

  function HandleUpdate(s: Session, st: Store, f: seq<Text>, env: Env): (r: Effect)
    ensures CanBeSent(r.resp)
  {
    if |f| < 8 then Effect(s, st, Response(CMD_ERROR, UPDATE_FIELDS))
    else
      var c := CourseOf(f);
      if c.code == [] || c.section == [] then Effect(s, st, Response(CMD_ERROR, KEY_EMPTY))
      else Written(s, st, Update(st.courses, c, env.engine), UPDATE_FAILED)
  }

  function HandleDelete(s: Session, st: Store, f: seq<Text>, env: Env): (r: Effect)
    ensures CanBeSent(r.resp)
  {
    if |f| < 2 then Effect(s, st, Response(CMD_ERROR, DELETE_FIELDS))
    else if f[0] == [] || f[1] == [] then Effect(s, st, Response(CMD_ERROR, KEY_EMPTY))
    else Written(s, st, Delete(st.courses, CourseKey(f[0], f[1]), env.engine), DELETE_FAILED)
  }

  function HandleAdminList(s: Session, st: Store, env: Env): (r: Effect)
    ensures CanBeSent(r.resp)
  {
    var r := ListUsernames(st.admins, env.cursor);
    Effect(s, st.(admins := r.0), Response(CMD_ADMIN_LIST_RESP, SerializeNames(r.1)))
  }

  function HandleAdminCreate(lib: Library, s: Session, st: Store, f: seq<Text>, env: Env): (r: Effect)
    ensures CanBeSent(r.resp)
  {
    hide InsertAdmin;
    hide Exists;
    if |f| < 2 then Effect(s, st, Response(CMD_ERROR, CREATE_FIELDS))
    else if f[0] == [] || f[1] == [] then Effect(s, st, Response(CMD_ERROR, CREDENTIALS_EMPTY))
    else if Exists(st.admins, f[0], env.first.existsOld) then Effect(s, st, Response(CMD_ERROR, ALREADY_EXISTS))
    else
      var r := InsertAdmin(lib.kdf, st.admins, f[0], f[1], env.second);
      Effect(s, st.(admins := r.0),
             if r.1 then Response(CMD_ADMIN_RESP, OK) else Response(CMD_SERVER_ERROR, CREATE_FAILED + r.0.lastError))
  }

  /** Rename first, then the password, then the session name; a failure stops where it happens. */
  function HandleAdminUpdate(lib: Library, s: Session, st: Store, f: seq<Text>, env: Env): (r: Effect)
    ensures CanBeSent(r.resp)
  {
    hide Rename;
    hide InsertAdmin;
    hide Exists;
    if |f| < 3 then Effect(s, st, Response(CMD_ERROR, ADMIN_UPDATE_FIELDS))
    else if f[0] == [] || f[1] == [] then Effect(s, st, Response(CMD_ERROR, NAMES_EMPTY))
    else if !Exists(st.admins, f[0], env.first.fetch) then Effect(s, st, Response(CMD_ERROR, OLD_MISSING))
    else
      var r := Rename(st.admins, f[0], f[1], env.first);
      var st1 := if f[0] == f[1] then st else st.(admins := r.0);
      if f[0] != f[1] && !r.1 then Effect(s, st1, Response(CMD_ERROR, RENAME_FAILED + r.0.lastError))
      else
        var w := InsertAdmin(lib.kdf, st1.admins, f[1], f[2], env.second);
        var st2 := if f[2] == [] then st1 else st1.(admins := w.0);
        if f[2] != [] && !w.1 then Effect(s, st2, Response(CMD_SERVER_ERROR, PASSWORD_FAILED + w.0.lastError))
        else Effect(if s.name == f[0] then s.(name := f[1]) else s, st2, Response(CMD_ADMIN_RESP, OK))
  }

  function HandleAdminDelete(s: Session, st: Store, f: seq<Text>, env: Env): (r: Effect)
    ensures CanBeSent(r.resp)
  {
    hide RemoveAdmin;
    var name := FieldAt(f, 0);
    if name == [] then Effect(s, st, Response(CMD_ERROR, NAME_REQUIRED))
    else if name == s.name then Effect(s, st, Response(CMD_ERROR, NOT_YOURSELF))
    else
      var r := RemoveAdmin(st.admins, name, env.first);
      Effect(s, st.(admins := r.0),
             if r.1 then Response(CMD_ADMIN_RESP, OK) else Response(CMD_ERROR, REMOVE_FAILED + r.0.lastError))
  }

  // ---- the dispatch table ----

  /** The functions register_all_server puts into the table. */
  datatype HandlerFn =
    | FnLogin | FnLogout | FnQueryCode | FnQueryInstructor | FnQuerySemester
    | FnViewAll | FnViewAllPage | FnAdd | FnUpdate | FnDelete
    | FnAdminList | FnAdminCreate | FnAdminUpdate | FnAdminDelete

  datatype Entry = Entry(required: Role, fn: HandlerFn)

  function Handle(lib: Library, fn: HandlerFn, s: Session, st: Store, f: seq<Text>, env: Env): (r: Effect)
    ensures CanBeSent(r.resp)
  {
    match fn
    case FnLogin => HandleLogin(lib, s, st, f, env)
    case FnLogout => HandleLogout(s, st)
    case FnQueryCode => HandleQuery(lib, s, st, ByCode(FieldAt(f, 0)), FieldAt(f, 0), CODE_REQUIRED, env.cursor)
    case FnQueryInstructor => HandleQuery(lib, s, st, ByInstructor(FieldAt(f, 0)), FieldAt(f, 0), INSTRUCTOR_REQUIRED,
        env.cursor)
    case FnQuerySemester => HandleQuery(lib, s, st, BySemester(FieldAt(f, 0)), FieldAt(f, 0), SEMESTER_REQUIRED,
        env.cursor)
    case FnViewAll => HandleViewAll(lib, s, st, env)
    case FnViewAllPage => HandleViewPage(lib, s, st, f, env)
    case FnAdd => HandleAdd(s, st, f, env)
    case FnUpdate => HandleUpdate(s, st, f, env)
    case FnDelete => HandleDelete(s, st, f, env)
    case FnAdminList => HandleAdminList(s, st, env)
    case FnAdminCreate => HandleAdminCreate(lib, s, st, f, env)
    case FnAdminUpdate => HandleAdminUpdate(lib, s, st, f, env)
    case FnAdminDelete => HandleAdminDelete(s, st, f, env)
  }

  /** The fourteen registrations of register_all_server; a second registration of a command replaces the first. */
  function RegisterAll(t: map<uint32, Entry>): map<uint32, Entry> {
    t[CMD_LOGIN_REQ := Entry(STUDENT, FnLogin)]
     [CMD_LOGOUT_REQ := Entry(STUDENT, FnLogout)]
     [CMD_QUERY_BY_CODE_REQ := Entry(STUDENT, FnQueryCode)]
     [CMD_QUERY_BY_INSTRUCTOR_REQ := Entry(STUDENT, FnQueryInstructor)]
     [CMD_QUERY_BY_SEMESTER_REQ := Entry(STUDENT, FnQuerySemester)]
     [CMD_VIEW_ALL_REQ := Entry(STUDENT, FnViewAll)]
     [CMD_VIEW_ALL_PAGE_REQ := Entry(STUDENT, FnViewAllPage)]
     [CMD_ADD_REQ := Entry(ADMIN, FnAdd)]
     [CMD_UPDATE_REQ := Entry(ADMIN, FnUpdate)]
     [CMD_DELETE_REQ := Entry(ADMIN, FnDelete)]
     [CMD_ADMIN_LIST_REQ := Entry(ADMIN, FnAdminList)]
     [CMD_ADMIN_CREATE_REQ := Entry(ADMIN, FnAdminCreate)]
     [CMD_ADMIN_UPDATE_REQ := Entry(ADMIN, FnAdminUpdate)]
     [CMD_ADMIN_DELETE_REQ := Entry(ADMIN, FnAdminDelete)]
  }

  /** The server's table: all registrations, into an empty one. */
  const SERVER_TABLE: map<uint32, Entry> := RegisterAll(map[])

  /** session.role >= entry.required */
  predicate Permits(role: Role, required: Role) { required == STUDENT || role == ADMIN }

  /** Every request, whatever command, fields, session and store, gets a server-to-client answer with a payload. */
  function Dispatch(lib: Library, table: map<uint32, Entry>, s: Session, st: Store, cmd: uint32, f: seq<Text>,
      env: Env): (r: Effect)
    ensures CanBeSent(r.resp)
  {
    if cmd !in table then Effect(s, st, Response(CMD_ERROR, UNKNOWN))
    else if !Permits(s.role, table[cmd].required) then Effect(s, st, Response(CMD_PERMISSION_ERR, FORBIDDEN))
    else Handle(lib, table[cmd].fn, s, st, f, env)
  }
}
