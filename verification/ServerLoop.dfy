/** The server's handlers, dispatcher and per-connection loop, acting on their session, repositories and socket. */
module ServerLoop {
  import opened Bytes
  import opened Decimal
  import opened MessagePb
  import opened Commands
  import opened CourseTables
  import opened CourseViews
  import opened CourseStore
  import opened Administrators
  import opened AdministratorStore
  import opened ListCodec
  import opened Handlers
  import opened Sockets
  import opened Protocol

  /** Session_t. */
  class ClientSession {
    var role: Role
    var name: Text

    function State(): Session reads this { Session(role, name) }

    constructor ()
      ensures State() == FRESH_SESSION
    {
      role, name := STUDENT, [];
    }
  }

  datatype ReqContext = ReqContext(body: MsgBody, session: ClientSession, courses: CourseRepository,
      admins: AdministratorRepository) {
    function Lib(): Library { Library(courses.like, admins.kdf) }

    function StoreNow(): Store
      reads courses, admins
    {
      Store(courses.State(), admins.State())
    }

    function SessionNow(): Session
      reads session
    {
      session.State()
    }
  }

  method OnLogin(ctx: ReqContext, env: Env) returns (resp: Response)
    modifies ctx.session, ctx.admins
    ensures Effect(ctx.SessionNow(), ctx.StoreNow(), resp) ==
            Handle(ctx.Lib(), FnLogin, old(ctx.SessionNow()), old(ctx.StoreNow()), ctx.body.Fields(), env)
  {
    hide VerifyLogin;
    hide CString;
    hide CanBeSent;
    var payload := ctx.body.Fields();
    if |payload| < 2 { return Response(CMD_ERROR, LOGIN_FIELDS); }
    var username, password := payload[0], payload[1];
    if username == [] || password == [] { return Response(CMD_ERROR, CREDENTIALS_EMPTY); }
    var ok := ctx.admins.VerifyLogin(username, password, env.first);
    if !ok { return Response(CMD_ERROR, LOGIN_INVALID); }
    ctx.session.role := ADMIN;
    ctx.session.name := username;
    return Response(CMD_LOGIN_RESP, OK);
  }

  method OnLogout(ctx: ReqContext, env: Env) returns (resp: Response)
    modifies ctx.session
    ensures Effect(ctx.SessionNow(), ctx.StoreNow(), resp) ==
            Handle(ctx.Lib(), FnLogout, old(ctx.SessionNow()), old(ctx.StoreNow()), ctx.body.Fields(), env)
  {
    ctx.session.role := STUDENT;
    ctx.session.name := [];
    return Response(CMD_OK, OK);
  }

  method OnQueryCode(ctx: ReqContext, env: Env) returns (resp: Response)
    modifies ctx.courses
    ensures Effect(ctx.SessionNow(), ctx.StoreNow(), resp) ==
            Handle(ctx.Lib(), FnQueryCode, old(ctx.SessionNow()), old(ctx.StoreNow()), ctx.body.Fields(), env)
  {
    hide Rows;
    hide SerializeCourses;
    hide Collected;
    var code := FieldAt(ctx.body.Fields(), 0);
    if code == [] { return Response(CMD_ERROR, CODE_REQUIRED); }
    var courses := ctx.courses.SearchByCourseCode(code, env.cursor);
    var text := WriteCourses(courses);
    return Response(CMD_QUERY_RESP, text);
  }

  method OnQueryInstructor(ctx: ReqContext, env: Env) returns (resp: Response)
    modifies ctx.courses
    ensures Effect(ctx.SessionNow(), ctx.StoreNow(), resp) ==
            Handle(ctx.Lib(), FnQueryInstructor, old(ctx.SessionNow()), old(ctx.StoreNow()), ctx.body.Fields(), env)
  {
    hide Rows;
    hide SerializeCourses;
    hide Collected;
    var instructor := FieldAt(ctx.body.Fields(), 0);
    if instructor == [] { return Response(CMD_ERROR, INSTRUCTOR_REQUIRED); }
    var courses := ctx.courses.SearchByInstructor(instructor, env.cursor);
    var text := WriteCourses(courses);
    return Response(CMD_QUERY_RESP, text);
  }

  method OnQuerySemester(ctx: ReqContext, env: Env) returns (resp: Response)
    modifies ctx.courses
    ensures Effect(ctx.SessionNow(), ctx.StoreNow(), resp) ==
            Handle(ctx.Lib(), FnQuerySemester, old(ctx.SessionNow()), old(ctx.StoreNow()), ctx.body.Fields(), env)
  {
    hide Rows;
    hide SerializeCourses;
    hide Collected;
    var semester := FieldAt(ctx.body.Fields(), 0);
    if semester == [] { return Response(CMD_ERROR, SEMESTER_REQUIRED); }
    var courses := ctx.courses.ViewCoursesBySemester(semester, env.cursor);
    var text := WriteCourses(courses);
    return Response(CMD_QUERY_RESP, text);
  }

  method OnViewAll(ctx: ReqContext, env: Env) returns (resp: Response)
    modifies ctx.courses
    ensures Effect(ctx.SessionNow(), ctx.StoreNow(), resp) ==
            Handle(ctx.Lib(), FnViewAll, old(ctx.SessionNow()), old(ctx.StoreNow()), ctx.body.Fields(), env)
  {
    hide Rows;
    hide SerializeCourses;
    hide Collected;
    var courses := ctx.courses.ViewAllCourses(env.cursor);
    var text := WriteCourses(courses);
    return Response(CMD_QUERY_RESP, text);
  }

  method OnViewAllPage(ctx: ReqContext, env: Env) returns (resp: Response)
    modifies ctx.courses
    ensures Effect(ctx.SessionNow(), ctx.StoreNow(), resp) ==
            HandleViewPage(ctx.Lib(), old(ctx.SessionNow()), old(ctx.StoreNow()), ctx.body.Fields(), env)
  {
    hide Rows;
    hide SerializeCourses;
    hide Collected;
    hide Page;
    hide CanBeSent;
    var p := ctx.body.Fields();
    var offset := 0;
    var limit := 200;
    if |p| >= 1 {
      var n := Stoi(p[0]);
      if n.Some? { offset := n.value; }
    }
    if |p| >= 2 {
      var n := Stoi(p[1]);
      if n.Some? { limit := n.value; }
    }
    if limit <= 0 || limit > 1000 { limit := 200; }
    if offset < 0 { offset := 0; }
    assert (offset, limit) == PageBounds(p);
    var courses := ctx.courses.ViewAllCoursesPaged(offset, limit, env.cursor);
    var text := WriteCourses(courses);
    return Response(CMD_QUERY_RESP, text);
  }

  method OnAdd(ctx: ReqContext, env: Env) returns (resp: Response)
    modifies ctx.courses
    ensures Effect(ctx.SessionNow(), ctx.StoreNow(), resp) ==
            HandleAdd(old(ctx.SessionNow()), old(ctx.StoreNow()), ctx.body.Fields(), env)
  {
    hide Stored;
    hide CourseTables.InsertOrReplace;
    hide CanBeSent;
    var p := ctx.body.Fields();
    if |p| < 8 { return Response(CMD_ERROR, ADD_FIELDS); }
    var course := Course(p[0], p[1], p[2], p[3], p[4], p[5], p[6], p[7]);
    if course.code == [] || course.section == [] { return Response(CMD_ERROR, KEY_EMPTY); }
    var ok := ctx.courses.InsertOrReplace(course, env.engine);
    if !ok { return Response(CMD_SERVER_ERROR, INSERT_FAILED + ctx.courses.lastError); }
    return Response(CMD_ADMIN_RESP, OK);
  }

  method OnUpdate(ctx: ReqContext, env: Env) returns (resp: Response)
    modifies ctx.courses
    ensures Effect(ctx.SessionNow(), ctx.StoreNow(), resp) ==
            HandleUpdate(old(ctx.SessionNow()), old(ctx.StoreNow()), ctx.body.Fields(), env)
  {
    hide Stored;
    hide CourseTables.Update;
    hide CanBeSent;
    var p := ctx.body.Fields();
    if |p| < 8 { return Response(CMD_ERROR, UPDATE_FIELDS); }
    var course := Course(p[0], p[1], p[2], p[3], p[4], p[5], p[6], p[7]);
    if course.code == [] || course.section == [] { return Response(CMD_ERROR, KEY_EMPTY); }
    var ok := ctx.courses.Update(course, env.engine);
    if !ok { return Response(CMD_SERVER_ERROR, UPDATE_FAILED + ctx.courses.lastError); }
    return Response(CMD_ADMIN_RESP, OK);
  }

  method OnDelete(ctx: ReqContext, env: Env) returns (resp: Response)
    modifies ctx.courses
    ensures Effect(ctx.SessionNow(), ctx.StoreNow(), resp) ==
            HandleDelete(old(ctx.SessionNow()), old(ctx.StoreNow()), ctx.body.Fields(), env)
  {
    hide CourseTables.Delete;
    hide CString;
    hide CanBeSent;
    var p := ctx.body.Fields();
    if |p| < 2 { return Response(CMD_ERROR, DELETE_FIELDS); }
    var code, section := p[0], p[1];
    if code == [] || section == [] { return Response(CMD_ERROR, KEY_EMPTY); }
    var ok := ctx.courses.DeleteCourse(code, section, env.engine);
    if !ok { return Response(CMD_SERVER_ERROR, DELETE_FAILED + ctx.courses.lastError); }
    return Response(CMD_ADMIN_RESP, OK);
  }

  method OnAdminList(ctx: ReqContext, env: Env) returns (resp: Response)
    modifies ctx.admins
    ensures Effect(ctx.SessionNow(), ctx.StoreNow(), resp) ==
            Handle(ctx.Lib(), FnAdminList, old(ctx.SessionNow()), old(ctx.StoreNow()), ctx.body.Fields(), env)
  {
    hide SortedNames;
    hide Collected;
    var names := ctx.admins.ListUsernames(env.cursor);
    var os := ToText(|names|);
    for i := 0 to |names|
      invariant os == Appended(ToText(|names|), names[..i], RECORD_SEP)
      invariant ctx.SessionNow() == old(ctx.SessionNow())
      invariant (ctx.admins.State(), names) == ListUsernames(old(ctx.admins.State()), env.cursor)
      invariant ctx.courses.State() == old(ctx.courses.State())
    {
      assert names[..i + 1][..i] == names[..i];
      os := os + [RECORD_SEP] + names[i];
    }
    assert names[..|names|] == names;
    return Response(CMD_ADMIN_LIST_RESP, os);
  }

  method OnAdminCreate(ctx: ReqContext, env: Env) returns (resp: Response)
    modifies ctx.admins
    ensures Effect(ctx.SessionNow(), ctx.StoreNow(), resp) ==
            HandleAdminCreate(ctx.Lib(), old(ctx.SessionNow()), old(ctx.StoreNow()), ctx.body.Fields(), env)
  {
    hide InsertAdmin;
    hide ToStore;
    hide CString;
    hide CanBeSent;
    var p := ctx.body.Fields();
    if |p| < 2 { return Response(CMD_ERROR, CREATE_FIELDS); }
    var username, password := p[0], p[1];
    if username == [] || password == [] { return Response(CMD_ERROR, CREDENTIALS_EMPTY); }
    var taken := ctx.admins.HasAccount(username, env.first.existsOld);
    if taken { return Response(CMD_ERROR, ALREADY_EXISTS); }
    var ok := ctx.admins.InsertOrReplace(username, password, env.second);
    if !ok { return Response(CMD_SERVER_ERROR, CREATE_FAILED + ctx.admins.lastError); }
    return Response(CMD_ADMIN_RESP, OK);
  }

  method OnAdminUpdate(ctx: ReqContext, env: Env) returns (resp: Response)
    modifies ctx.session, ctx.admins
    ensures Effect(ctx.SessionNow(), ctx.StoreNow(), resp) ==
            HandleAdminUpdate(ctx.Lib(), old(ctx.SessionNow()), old(ctx.StoreNow()), ctx.body.Fields(), env)
  {
    hide InsertAdmin;
    hide ToStore;
    hide Rename;
    hide CString;
    hide CanBeSent;
    var p := ctx.body.Fields();
    if |p| < 3 { return Response(CMD_ERROR, ADMIN_UPDATE_FIELDS); }
    var oldName, newName, newPass := p[0], p[1], p[2];
    if oldName == [] || newName == [] { return Response(CMD_ERROR, NAMES_EMPTY); }
    var present := ctx.admins.HasAccount(oldName, env.first.fetch);
    if !present { return Response(CMD_ERROR, OLD_MISSING); }
    if oldName != newName {
      var renamed := ctx.admins.Rename(oldName, newName, env.first);
      if !renamed { return Response(CMD_ERROR, RENAME_FAILED + ctx.admins.lastError); }
    }
    if newPass != [] {
      var ok := ctx.admins.InsertOrReplace(newName, newPass, env.second);
      if !ok { return Response(CMD_SERVER_ERROR, PASSWORD_FAILED + ctx.admins.lastError); }
    }
    if ctx.session.name == oldName { ctx.session.name := newName; }
    return Response(CMD_ADMIN_RESP, OK);
  }

  method OnAdminDelete(ctx: ReqContext, env: Env) returns (resp: Response)
    modifies ctx.admins
    ensures Effect(ctx.SessionNow(), ctx.StoreNow(), resp) ==
            HandleAdminDelete(old(ctx.SessionNow()), old(ctx.StoreNow()), ctx.body.Fields(), env)
  {
    hide RemoveAdmin;
    hide CString;
    hide CanBeSent;
    var name := FieldAt(ctx.body.Fields(), 0);
    if name == [] { return Response(CMD_ERROR, NAME_REQUIRED); }
    if name == ctx.session.name { return Response(CMD_ERROR, NOT_YOURSELF); }
    var ok := ctx.admins.Remove(name, env.first);
    if !ok { return Response(CMD_ERROR, REMOVE_FAILED + ctx.admins.lastError); }
    return Response(CMD_ADMIN_RESP, OK);
  }

  /** entry.fn(ctx) */
  method Invoke(ctx: ReqContext, fn: HandlerFn, env: Env) returns (resp: Response)
    modifies ctx.session, ctx.courses, ctx.admins
    ensures Effect(ctx.SessionNow(), ctx.StoreNow(), resp) ==
            Handle(ctx.Lib(), fn, old(ctx.SessionNow()), old(ctx.StoreNow()), ctx.body.Fields(), env)
  {
    match fn {
      case FnLogin => resp := OnLogin(ctx, env);
      case FnLogout => resp := OnLogout(ctx, env);
      case FnQueryCode => resp := OnQueryCode(ctx, env);
      case FnQueryInstructor => resp := OnQueryInstructor(ctx, env);
      case FnQuerySemester => resp := OnQuerySemester(ctx, env);
      case FnViewAll => resp := OnViewAll(ctx, env);
      case FnViewAllPage => resp := OnViewAllPage(ctx, env);
      case _ => resp := InvokeAdmin(ctx, fn, env);
    }
  }

  /** The handlers registered for administrators. */
  method InvokeAdmin(ctx: ReqContext, fn: HandlerFn, env: Env) returns (resp: Response)
    requires fn in {FnAdd, FnUpdate, FnDelete, FnAdminList, FnAdminCreate, FnAdminUpdate, FnAdminDelete}
    modifies ctx.session, ctx.courses, ctx.admins
    ensures Effect(ctx.SessionNow(), ctx.StoreNow(), resp) ==
            Handle(ctx.Lib(), fn, old(ctx.SessionNow()), old(ctx.StoreNow()), ctx.body.Fields(), env)
  {
    hide HandleLogin;
    hide HandleQuery;
    hide HandleViewAll;
    hide HandleViewPage;
    hide HandleAdminList;
    hide HandleAdd;
    hide HandleUpdate;
    hide HandleDelete;
    hide HandleAdminCreate;
    hide HandleAdminUpdate;
    hide HandleAdminDelete;
    match fn {
      case FnAdd => resp := OnAdd(ctx, env);
      case FnUpdate => resp := OnUpdate(ctx, env);
      case FnDelete => resp := OnDelete(ctx, env);
      case FnAdminList => resp := OnAdminList(ctx, env);
      case FnAdminCreate => resp := OnAdminCreate(ctx, env);
      case FnAdminUpdate => resp := OnAdminUpdate(ctx, env);
      case FnAdminDelete => resp := OnAdminDelete(ctx, env);
    }
  }

  class Dispatcher {
    var table: map<uint32, Entry>

    constructor ()
      ensures table == map[]
    {
      table := map[];
    }

    /** A second registration of a command replaces the first. */
    method RegisterHandler(cmd: uint32, required: Role, fn: HandlerFn)
      modifies this
      ensures table == old(table)[cmd := Entry(required, fn)]
    {
      table := table[cmd := Entry(required, fn)];
    }

    method DispatchRequest(ctx: ReqContext, env: Env) returns (resp: Response)
      modifies ctx.session, ctx.courses, ctx.admins
      ensures Effect(ctx.SessionNow(), ctx.StoreNow(), resp) ==
              Dispatch(ctx.Lib(), table, old(ctx.SessionNow()), old(ctx.StoreNow()), ctx.body.cmdType,
                  ctx.body.Fields(), env)
    {
      if ctx.body.cmdType !in table { return Response(CMD_ERROR, UNKNOWN); }
      var entry := table[ctx.body.cmdType];
      if !Permits(ctx.session.role, entry.required) { return Response(CMD_PERMISSION_ERR, FORBIDDEN); }
      resp := Invoke(ctx, entry.fn, env);
    }
  }

  /** Fourteen registrations, into whatever table: the server's own is empty before. */
  method RegisterAllServer(d: Dispatcher)
    modifies d
    ensures d.table == RegisterAll(old(d.table))
  {
    d.RegisterHandler(CMD_LOGIN_REQ, STUDENT, FnLogin);
    d.RegisterHandler(CMD_LOGOUT_REQ, STUDENT, FnLogout);
    d.RegisterHandler(CMD_QUERY_BY_CODE_REQ, STUDENT, FnQueryCode);
    d.RegisterHandler(CMD_QUERY_BY_INSTRUCTOR_REQ, STUDENT, FnQueryInstructor);
    d.RegisterHandler(CMD_QUERY_BY_SEMESTER_REQ, STUDENT, FnQuerySemester);
    d.RegisterHandler(CMD_VIEW_ALL_REQ, STUDENT, FnViewAll);
    d.RegisterHandler(CMD_VIEW_ALL_PAGE_REQ, STUDENT, FnViewAllPage);
    d.RegisterHandler(CMD_ADD_REQ, ADMIN, FnAdd);
    d.RegisterHandler(CMD_UPDATE_REQ, ADMIN, FnUpdate);
    d.RegisterHandler(CMD_DELETE_REQ, ADMIN, FnDelete);
    d.RegisterHandler(CMD_ADMIN_LIST_REQ, ADMIN, FnAdminList);
    d.RegisterHandler(CMD_ADMIN_CREATE_REQ, ADMIN, FnAdminCreate);
    d.RegisterHandler(CMD_ADMIN_UPDATE_REQ, ADMIN, FnAdminUpdate);
    d.RegisterHandler(CMD_ADMIN_DELETE_REQ, ADMIN, FnAdminDelete);
  }

  // ---- the connection loop ----

  /** For the k-th request of a connection: engine choices, clock and initialization vector. */
  datatype Oracle = Oracle(env: nat -> Env, now: nat -> uint32, iv: nat -> Option<Iv>)

  datatype Wiring = Wiring(c: Crypto, key: Key)

  /** The message a response travels in. */
  function ReplyBody(resp: Response, id: uint32, now: uint32): MsgBody {
    MsgBody(resp.cmdType, id, now, Some([resp.payload]))
  }

  method SendResponseS(w: Wiring, sh: SocketHandler, os: Os, ids: RequestCounter, resp: Response, now: uint32,
      iv: Option<Iv>)
    returns (e: ErrorCode)
    modifies os`conns, ids
    ensures !IsS2C(resp.cmdType) ==> e == CMD_ERR && os.conns == old(os.conns) && ids.next == old(ids.next)
    ensures IsS2C(resp.cmdType) && resp.payload == [] ==>
        e == DISPATCH_ERR && os.conns == old(os.conns) && ids.next == old(ids.next)
    ensures CanBeSent(resp) ==>
      var r := SendBody(w.c, w.key, old(os.conns), sh.socket, ReplyBody(resp, old(ids.next), now), iv);
      os.conns == r.0 && e == (if r.1 == SUCCESS then SUCCESS else SEND_ERR)
          && ids.next == (old(ids.next) + 1) % 0x1_0000_0000
  {
    if !IsS2C(resp.cmdType) { return CMD_ERR; }
    if resp.payload == [] { return DISPATCH_ERR; }
    e := PackageSendBytes(w.c, w.key, sh, os, ids, resp.payload, resp.cmdType, now, iv);
    if e != SUCCESS { e := SEND_ERR; }
  }

  /**
   * The state of a connection's loop: socket, session and store, the next id, and how much was dispatched and answered.
   */
  datatype Progress = Progress(conn: Conn, session: Session, store: Store, nextId: uint32, dispatched: nat,
      answered: nat)

  /** One turn of the loop, and whether it goes on. */
  function ServeOne(w: Wiring, lib: Library, table: map<uint32, Entry>, o: Oracle, p: Progress): (r: (Progress, bool))
    ensures r.1 ==> |r.0.conn.incoming| < |p.conn.incoming|
    ensures p.dispatched <= r.0.dispatched <= p.dispatched + 1 && p.answered <= r.0.answered
    ensures r.1 ==> r.0.answered - p.answered == r.0.dispatched - p.dispatched == 1
  {
    var got := Receive(w.c, w.key, p.conn.incoming);
    var conn1 := p.conn.(incoming := got.rest);
    if got.err != SUCCESS then (p.(conn := conn1), false)
    else
      var e := Dispatch(lib, table, p.session, p.store, got.body.cmdType, got.body.Fields(), o.env(p.dispatched));
      var reply := ReplyBody(e.resp, p.nextId, o.now(p.dispatched));
      var sent := SendOver(w.c, w.key, conn1, reply, o.iv(p.dispatched));
      var ok := sent.1 == SUCCESS;
      (Progress(sent.0, e.session, e.store, (p.nextId + 1) % 0x1_0000_0000, p.dispatched + 1, if ok then p.answered + 1
          else p.answered), ok)
  }

  /**
   * Receive, dispatch, answer, until receiving or sending fails: each dispatched request has one answer, but perhaps
   * the last.
   */
  function Serve(w: Wiring, lib: Library, table: map<uint32, Entry>, o: Oracle, p: Progress): (r: Progress)
    ensures r.answered - p.answered <= r.dispatched - p.dispatched <= r.answered - p.answered + 1
    decreases |p.conn.incoming|
  {
    var one := ServeOne(w, lib, table, o, p);
    if one.1 then Serve(w, lib, table, o, one.0) else one.0
  }

  function Accepted(conn: Conn, st: Store, nextId: uint32): Progress {
    Progress(conn, FRESH_SESSION, st, nextId, 0, 0)
  }

  /** The body of handle_client's loop. */
  method ServeRequest(w: Wiring, sh: SocketHandler, os: Os, ids: RequestCounter, ctx0: ReqContext,
      dispatcher: Dispatcher, o: Oracle,
                   dispatched: nat, answered: nat)
    returns (dispatched': nat, answered': nat, goesOn: bool)
    requires sh.socket in os.conns
    modifies os`conns, ids, ctx0.session, ctx0.courses, ctx0.admins
    ensures sh.socket in os.conns && os.conns == old(os.conns)[sh.socket := os.conns[sh.socket]]
    ensures var before := Progress(old(os.conns)[sh.socket], old(ctx0.SessionNow()), old(ctx0.StoreNow()),
        old(ids.next), dispatched, answered);
      (Progress(os.conns[sh.socket], ctx0.SessionNow(), ctx0.StoreNow(), ids.next, dispatched', answered'), goesOn) ==
      ServeOne(w, ctx0.Lib(), dispatcher.table, o, before)
  {
    hide Dispatch;
    hide Receive;
    hide SendOver;
    var e, body := PackageReceive(w.c, w.key, sh, os);
    if e != SUCCESS { return dispatched, answered, false; }
    var ctx := ctx0.(body := body);
    var resp := dispatcher.DispatchRequest(ctx, o.env(dispatched));
    e := SendResponseS(w, sh, os, ids, resp, o.now(dispatched), o.iv(dispatched));
    if e != SUCCESS { return dispatched + 1, answered, false; }
    return dispatched + 1, answered + 1, true;
  }

  /** One connection from accept to close. */
  method HandleClient(w: Wiring, sh: SocketHandler, os: Os, ids: RequestCounter,
                       courses: CourseRepository, admins: AdministratorRepository, dispatcher: Dispatcher, o: Oracle)
    returns (session: ClientSession, dispatched: nat, answered: nat)
    requires sh.socket in os.conns
    modifies os`conns, ids, courses, admins
    ensures sh.socket in os.conns && os.conns == old(os.conns)[sh.socket := os.conns[sh.socket]]
    ensures Progress(os.conns[sh.socket], session.State(), Store(courses.State(), admins.State()), ids.next, dispatched,
        answered) ==
      Serve(w, Library(courses.like, admins.kdf), dispatcher.table, o,
               Accepted(old(os.conns)[sh.socket], Store(old(courses.State()), old(admins.State())), old(ids.next)))
  {
    hide ServeOne;
    session := new ClientSession();
    dispatched, answered := 0, 0;
    var ctx := ReqContext(DEFAULT_BODY, session, courses, admins);
    ghost var m0 := os.conns;
    ghost var start := Progress(os.conns[sh.socket], session.State(), ctx.StoreNow(), ids.next, 0, 0);
    var goesOn := true;
    while goesOn
      invariant fresh(session)
      invariant sh.socket in os.conns && os.conns == m0[sh.socket := os.conns[sh.socket]]
      invariant var now := Progress(os.conns[sh.socket], session.State(), ctx.StoreNow(), ids.next, dispatched,
          answered);
        Serve(w, ctx.Lib(), dispatcher.table, o, start) == if goesOn then Serve(w, ctx.Lib(), dispatcher.table, o, now)
            else now
      decreases goesOn, |os.conns[sh.socket].incoming|
    {
      dispatched, answered, goesOn := ServeRequest(w, sh, os, ids, ctx, dispatcher, o, dispatched, answered);
    }
  }
}
