/** What requests are answered that are not carried out: refused for the role, unknown, or malformed. */
module Answers {
  import opened Bytes
  import opened Decimal
  import opened MessagePb
  import opened Commands
  import opened CourseTables
  import opened CourseViews
  import opened CourseStore
  import opened Administrators
  import opened ListCodec
  import opened Handlers
  import opened Authority
  import opened RequestEffects

  /** The commands that need an administrator. */
  predicate Restricted(cmd: uint32) {
    cmd in {CMD_ADD_REQ, CMD_UPDATE_REQ, CMD_DELETE_REQ, CMD_ADMIN_LIST_REQ, CMD_ADMIN_CREATE_REQ,
            CMD_ADMIN_UPDATE_REQ, CMD_ADMIN_DELETE_REQ}
  }

  /** The commands that do not. */
  predicate Open(cmd: uint32) {
    cmd in {CMD_LOGIN_REQ, CMD_LOGOUT_REQ, CMD_QUERY_BY_CODE_REQ, CMD_QUERY_BY_INSTRUCTOR_REQ,
            CMD_QUERY_BY_SEMESTER_REQ, CMD_VIEW_ALL_REQ, CMD_VIEW_ALL_PAGE_REQ}
  }

  lemma WhatIsRegistered(cmd: uint32)
    ensures cmd in SERVER_TABLE <==> Restricted(cmd) || Open(cmd)
    ensures cmd in SERVER_TABLE ==> (SERVER_TABLE[cmd].required == ADMIN <==> Restricted(cmd))
    ensures !(Restricted(cmd) && Open(cmd))
  {
  }

  lemma CourseWritersNeverForbid(s: Session, st: Store, f: seq<Text>, env: Env)
    ensures HandleAdd(s, st, f, env).resp.cmdType != CMD_PERMISSION_ERR
    ensures HandleUpdate(s, st, f, env).resp.cmdType != CMD_PERMISSION_ERR
    ensures HandleDelete(s, st, f, env).resp.cmdType != CMD_PERMISSION_ERR
  {
    hide InsertOrReplace;
    hide Update;
    hide Delete;
    hide CourseOf;
    hide Ascii;
    hide CanBeSent;
  }

  lemma AccountHandlersNeverForbid(lib: Library, s: Session, st: Store, f: seq<Text>, env: Env)
    ensures HandleLogin(lib, s, st, f, env).resp.cmdType != CMD_PERMISSION_ERR
    ensures HandleAdminList(s, st, env).resp.cmdType != CMD_PERMISSION_ERR
    ensures HandleAdminCreate(lib, s, st, f, env).resp.cmdType != CMD_PERMISSION_ERR
    ensures HandleAdminUpdate(lib, s, st, f, env).resp.cmdType != CMD_PERMISSION_ERR
    ensures HandleAdminDelete(s, st, f, env).resp.cmdType != CMD_PERMISSION_ERR
  {
    hide VerifyLogin;
    hide InsertAdmin;
    hide Rename;
    hide RemoveAdmin;
    hide ListUsernames;
    hide Exists;
    hide SerializeNames;
    hide Ascii;
    hide CanBeSent;
  }

  lemma HandlersNeverForbid(lib: Library, fn: HandlerFn, s: Session, st: Store, f: seq<Text>, env: Env)
    ensures Handle(lib, fn, s, st, f, env).resp.cmdType != CMD_PERMISSION_ERR
  {
    CourseWritersNeverForbid(s, st, f, env);
    AccountHandlersNeverForbid(lib, s, st, f, env);
    hide HandleLogin;
    hide HandleAdd;
    hide HandleUpdate;
    hide HandleDelete;
    hide HandleAdminList;
    hide HandleAdminCreate;
    hide HandleAdminUpdate;
    hide HandleAdminDelete;
    hide Ask;
    hide Rows;
    hide Page;
    hide PageBounds;
    hide SerializeCourses;
    hide Ascii;
    hide CanBeSent;
  }

  /**
   * A student is refused each of the seven restricted commands, with just this answer and nothing changed; and nobody
   * else is ever answered so.
   */
  lemma StudentsAreRefused(lib: Library, s: Session, st: Store, cmd: uint32, f: seq<Text>, env: Env)
    ensures var e := Send(lib, s, st, cmd, f, env);
      && (s.role == STUDENT && Restricted(cmd) ==>
            e == Effect(s, st, Response(CMD_PERMISSION_ERR, Ascii("Insufficient permissions"))))
      && (e.resp.cmdType == CMD_PERMISSION_ERR ==> s.role == STUDENT && Restricted(cmd))
  {
    hide RegisterAll;
    hide Handle;
    hide Ascii;
    WhatIsRegistered(cmd);
    hide Restricted;
    if cmd in SERVER_TABLE { HandlersNeverForbid(lib, SERVER_TABLE[cmd].fn, s, st, f, env); }
  }

  /** A command outside the fourteen, whatever the role. */
  lemma UnknownIsRefused(lib: Library, s: Session, st: Store, cmd: uint32, f: seq<Text>, env: Env)
    requires !Restricted(cmd) && !Open(cmd)
    ensures Send(lib, s, st, cmd, f, env) == Effect(s, st, Response(CMD_ERROR, Ascii("Unknown command")))
  {
    hide RegisterAll;
    hide Handle;
    hide Ascii;
    WhatIsRegistered(cmd);
    hide Restricted;
    hide Open;
  }

  /** The fields a command cannot do without are there, and those that must not be empty are not. */
  predicate WellFormed(cmd: uint32, f: seq<Text>) {
    if cmd in {CMD_LOGIN_REQ, CMD_DELETE_REQ, CMD_ADMIN_CREATE_REQ} then |f| >= 2 && f[0] != [] && f[1] != []
    else if cmd in {CMD_QUERY_BY_CODE_REQ, CMD_QUERY_BY_INSTRUCTOR_REQ, CMD_QUERY_BY_SEMESTER_REQ,
                    CMD_ADMIN_DELETE_REQ} then |f| >= 1 && f[0] != []
    else if cmd in {CMD_ADD_REQ, CMD_UPDATE_REQ} then |f| >= 8 && f[0] != [] && f[2] != []
    else if cmd == CMD_ADMIN_UPDATE_REQ then |f| >= 3 && f[0] != [] && f[1] != []
    else true
  }

  /** What is said of a request that is not: first of missing fields, then of empty ones. */
  function Complaint(cmd: uint32, f: seq<Text>): string {
    if cmd == CMD_LOGIN_REQ && |f| < 2 then "Login payload requires username and password"
    else if cmd == CMD_ADMIN_CREATE_REQ && |f| < 2 then "Admin create requires username and password"
    else if cmd == CMD_LOGIN_REQ || cmd == CMD_ADMIN_CREATE_REQ then "Username or password cannot be empty"
    else if cmd == CMD_QUERY_BY_CODE_REQ then "Course code required"
    else if cmd == CMD_QUERY_BY_INSTRUCTOR_REQ then "Instructor name required"
    else if cmd == CMD_QUERY_BY_SEMESTER_REQ then "Semester required"
    else if cmd == CMD_ADD_REQ && |f| < 8
        then "Add requires 8 fields (code/title/section/instructor/day/duration/semester/classroom)"
    else if cmd == CMD_UPDATE_REQ && |f| < 8 then "Update requires 8 fields"
    else if cmd == CMD_DELETE_REQ && |f| < 2 then "Delete requires code and section"
    else if cmd == CMD_ADMIN_UPDATE_REQ && |f| < 3 then "Admin update requires old_username, new_username, new_password"
    else if cmd == CMD_ADMIN_UPDATE_REQ then "Old/new username cannot be empty"
    else if cmd == CMD_ADMIN_DELETE_REQ then "Username required"
    else "Course code and section cannot be empty"
  }

  lemma MalformedCourseRequests(lib: Library, s: Session, st: Store, cmd: uint32, f: seq<Text>, env: Env)
    requires cmd in {CMD_ADD_REQ, CMD_UPDATE_REQ, CMD_DELETE_REQ} && !WellFormed(cmd, f) && s.role == ADMIN
    ensures Send(lib, s, st, cmd, f, env) == Effect(s, st, Response(CMD_ERROR, Ascii(Complaint(cmd, f))))
  {
    hide Send;
    hide InsertOrReplace;
    hide Update;
    hide Delete;
    hide Written;
    hide Ascii;
    hide CanBeSent;
    CourseRequests(lib, s, st, f, env);
  }

  lemma MalformedAccountRequests(lib: Library, s: Session, st: Store, cmd: uint32, f: seq<Text>, env: Env)
    requires cmd in {CMD_ADMIN_CREATE_REQ, CMD_ADMIN_UPDATE_REQ, CMD_ADMIN_DELETE_REQ} && !WellFormed(cmd, f)
    requires s.role == ADMIN
    ensures Send(lib, s, st, cmd, f, env) == Effect(s, st, Response(CMD_ERROR, Ascii(Complaint(cmd, f))))
  {
    hide Send;
    hide InsertAdmin;
    hide Rename;
    hide RemoveAdmin;
    hide Exists;
    hide Ascii;
    hide CanBeSent;
    AccountRequests(lib, s, st, f, env);
  }

  lemma MalformedOpenRequests(lib: Library, s: Session, st: Store, cmd: uint32, f: seq<Text>, env: Env)
    requires cmd in {CMD_LOGIN_REQ, CMD_QUERY_BY_CODE_REQ, CMD_QUERY_BY_INSTRUCTOR_REQ, CMD_QUERY_BY_SEMESTER_REQ}
        && !WellFormed(cmd, f)
    ensures Send(lib, s, st, cmd, f, env) == Effect(s, st, Response(CMD_ERROR, Ascii(Complaint(cmd, f))))
  {
    hide RegisterAll;
    hide VerifyLogin;
    hide AnswerRows;
    hide Rows;
    hide Ascii;
    hide CanBeSent;
    hide HandleViewPage;
    hide HandleAdd;
    hide HandleUpdate;
    hide HandleDelete;
    hide HandleAdminList;
    hide HandleAdminCreate;
    hide HandleAdminUpdate;
    hide HandleAdminDelete;
    TableRows();
    TableEntries(cmd);
  }

  /** A request with fields missing, or empty that must not be, is told so in a text of its own and changes nothing. */
  lemma MalformedIsRefused(lib: Library, s: Session, st: Store, cmd: uint32, f: seq<Text>, env: Env)
    requires !WellFormed(cmd, f) && (Restricted(cmd) ==> s.role == ADMIN)
    ensures Send(lib, s, st, cmd, f, env) == Effect(s, st, Response(CMD_ERROR, Ascii(Complaint(cmd, f))))
  {
    hide Send;
    if cmd in {CMD_ADD_REQ, CMD_UPDATE_REQ, CMD_DELETE_REQ} {
      MalformedCourseRequests(lib, s, st, cmd, f, env);
    } else if cmd in {CMD_ADMIN_CREATE_REQ, CMD_ADMIN_UPDATE_REQ, CMD_ADMIN_DELETE_REQ} {
      MalformedAccountRequests(lib, s, st, cmd, f, env);
    } else {
      MalformedOpenRequests(lib, s, st, cmd, f, env);
    }
  }

  /**
   * An account request that fails at the table is answered with its own text and the table's, which FailuresAreNamed
   * tells: a creation of an account that is not there yet, ...
   */
  lemma FailedCreationIsTold(lib: Library, s: Session, st: Store, u: Text, p: Text, env: Env)
    requires s.role == ADMIN && u != [] && p != []
    ensures var e := Send(lib, s, st, CMD_ADMIN_CREATE_REQ, [u, p], env);
      && (e.resp.cmdType == CMD_SERVER_ERROR ==>
            e.resp.payload == Ascii("Create admin failed: ") + e.store.admins.lastError)
      && (e.resp.cmdType == CMD_ERROR <==> Exists(st.admins, u, env.first.existsOld))
      && (e.resp.cmdType == CMD_ERROR ==> e.resp.payload == Ascii("Username already exists"))
  {
    hide HandleAdminList;
    hide HandleAdminUpdate;
    hide HandleAdminDelete;
    hide Send;
    hide RegisterAll;
    hide InsertAdmin;
    hide Exists;
    hide Ascii;
    hide CanBeSent;
    AccountRequests(lib, s, st, [u, p], env);
  }

  /** ... an update of one that is, where a rename and a password that fail are told apart, ... */
  lemma FailedUpdateIsTold(lib: Library, s: Session, st: Store, a: Text, b: Text, p: Text, env: Env)
    requires s.role == ADMIN && a != [] && b != []
    ensures var e := Send(lib, s, st, CMD_ADMIN_UPDATE_REQ, [a, b, p], env);
      && (e.resp.cmdType == CMD_SERVER_ERROR ==>
            e.resp.payload == Ascii("Password update failed: ") + e.store.admins.lastError)
      && (e.resp.cmdType == CMD_ERROR && Exists(st.admins, a, env.first.fetch) ==>
            e.resp.payload == Ascii("Rename failed: ") + e.store.admins.lastError)
      && (!Exists(st.admins, a, env.first.fetch) ==> e.resp == Response(CMD_ERROR, Ascii("Old username not found")))
  {
    hide HandleAdminList;
    hide HandleAdminCreate;
    hide HandleAdminDelete;
    hide Send;
    hide RegisterAll;
    hide InsertAdmin;
    hide Rename;
    hide Exists;
    hide Ascii;
    hide CanBeSent;
    AccountRequests(lib, s, st, [a, b, p], env);
  }

  /** ... and a deletion of any but one's own. */
  lemma FailedDeletionIsTold(lib: Library, s: Session, st: Store, u: Text, env: Env)
    requires s.role == ADMIN && u != [] && u != s.name
    ensures var e := Send(lib, s, st, CMD_ADMIN_DELETE_REQ, [u], env);
      e.resp.cmdType == CMD_ERROR ==> e.resp.payload == Ascii("Delete failed: ") + e.store.admins.lastError
  {
    hide HandleAdminList;
    hide HandleAdminCreate;
    hide HandleAdminUpdate;
    hide Send;
    hide RegisterAll;
    hide RemoveAdmin;
    hide Ascii;
    hide CanBeSent;
    AccountRequests(lib, s, st, [u], env);
  }

  /** Logging out takes all rights away, whoever asks. */
  lemma LogoutIsAnswered(lib: Library, s: Session, st: Store, f: seq<Text>, env: Env)
    ensures Send(lib, s, st, CMD_LOGOUT_REQ, f, env) == Effect(Session(STUDENT, []), st, Response(CMD_OK, Ascii("OK")))
  {
    TableEntries(CMD_LOGOUT_REQ);
    hide RegisterAll;
    hide Ascii;
    hide HandleLogin;
    hide HandleQuery;
    hide HandleViewAll;
    hide HandleViewPage;
    hide HandleAdd;
    hide HandleUpdate;
    hide HandleDelete;
    hide HandleAdminList;
    hide HandleAdminCreate;
    hide HandleAdminUpdate;
    hide HandleAdminDelete;
  }

  /** A page request without numbers, or with fields that are none, asks for the first 200 rows. */
  lemma UnreadableBounds(f: seq<Text>)
    ensures PageBounds([]) == (0, 200)
    ensures PageBounds(f) == PageBounds(if |f| <= 2 then f else f[..2])
    ensures |f| >= 1 && Stoi(f[0]).None? ==> PageBounds(f).0 == 0
    ensures |f| >= 2 && Stoi(f[1]).None? ==> PageBounds(f).1 == 200
  {
    hide Stoi;
  }
}
