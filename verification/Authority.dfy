/**
 * Any number of connections over one store, their requests interleaved in any order:
 * who holds administrator rights, and what can change without them.
 */
module Authority {
  import opened Bytes
  import opened MessagePb
  import opened Commands
  import opened PasswordHash
  import opened CourseTables
  import opened CourseViews
  import opened CourseStore
  import opened Administrators
  import opened Handlers

  // ---- one request ----

  /** The commands open to everybody; the others need an administrator. */
  predicate OpenToAll(fn: HandlerFn) {
    fn in {FnLogin, FnLogout, FnQueryCode, FnQueryInstructor, FnQuerySemester, FnViewAll, FnViewAllPage}
  }

  /** What the table says of a command. */
  lemma TableEntries(cmd: uint32)
    ensures cmd in SERVER_TABLE ==>
      var e := SERVER_TABLE[cmd];
      && (e.required == STUDENT <==> OpenToAll(e.fn))
      && (e.fn == FnLogin <==> cmd == CMD_LOGIN_REQ)
      && (e.fn == FnLogout <==> cmd == CMD_LOGOUT_REQ)
      && (e.fn == FnAdminUpdate <==> cmd == CMD_ADMIN_UPDATE_REQ)
      && (e.fn == FnAdminDelete <==> cmd == CMD_ADMIN_DELETE_REQ)
    ensures CMD_LOGIN_REQ in SERVER_TABLE && CMD_LOGOUT_REQ in SERVER_TABLE
    ensures CMD_ADMIN_UPDATE_REQ in SERVER_TABLE && CMD_ADMIN_DELETE_REQ in SERVER_TABLE
  {
  }

  /** A name is present exactly while the role is ADMIN. */
  predicate Coherent(s: Session) { s.role == ADMIN <==> s.name != [] }

  /** Eleven of the handlers never touch the session. */
  lemma SessionStays(lib: Library, fn: HandlerFn, s: Session, st: Store, f: seq<Text>, env: Env)
    requires fn !in {FnLogin, FnLogout, FnAdminUpdate}
    ensures Handle(lib, fn, s, st, f, env).session == s
  {
    hide InsertAdmin;
    hide RemoveAdmin;
    hide Exists;
    hide Ask;
    hide ListUsernames;
    hide InsertOrReplace;
    hide Update;
    hide Delete;
    hide CanBeSent;
  }

  /** A rename of the session's own account renames the session; rights stay as they are. */
  lemma AdminUpdateKeepsRights(lib: Library, s: Session, st: Store, f: seq<Text>, env: Env)
    requires s.role == ADMIN && Coherent(s)
    ensures var e := HandleAdminUpdate(lib, s, st, f, env); e.session.role == ADMIN && Coherent(e.session)
  {
    hide InsertAdmin;
    hide Rename;
    hide Exists;
    hide CanBeSent;
  }

  /** Rights come from a login answered with LOGIN_RESP and go with a logout; nothing else touches them. */
  lemma HandlerRights(lib: Library, fn: HandlerFn, s: Session, st: Store, f: seq<Text>, env: Env)
    requires Coherent(s) && (OpenToAll(fn) || s.role == ADMIN)
    ensures var e := Handle(lib, fn, s, st, f, env);
      && Coherent(e.session)
      && (e.session.role == ADMIN <==>
            (fn == FnLogin && e.resp.cmdType == CMD_LOGIN_RESP) || (s.role == ADMIN && fn != FnLogout))
  {
    if fn == FnAdminUpdate {
      AdminUpdateKeepsRights(lib, s, st, f, env);
      hide HandleAdminUpdate;
    } else if fn == FnLogin {
      hide VerifyLogin;
    } else if fn != FnLogout {
      SessionStays(lib, fn, s, st, f, env);
      hide Handle;
    }
  }

  lemma DispatchRights(lib: Library, s: Session, st: Store, cmd: uint32, f: seq<Text>, env: Env)
    requires Coherent(s)
    ensures var e := Dispatch(lib, SERVER_TABLE, s, st, cmd, f, env);
      && Coherent(e.session)
      && (e.session.role == ADMIN <==>
            (cmd == CMD_LOGIN_REQ && e.resp.cmdType == CMD_LOGIN_RESP) || (s.role == ADMIN && cmd != CMD_LOGOUT_REQ))
  {
    TableEntries(cmd);
    hide RegisterAll;
    hide Handle;
    if cmd in SERVER_TABLE && Permits(s.role, SERVER_TABLE[cmd].required) {
      HandlerRights(lib, SERVER_TABLE[cmd].fn, s, st, f, env);
    }
  }

  /** Two accounts tables that differ at most by one plain-text password having been encoded. */
  ghost predicate Reencoded(kdf: Kdf, before: map<Text, Text>, after: map<Text, Text>) {
    && after.Keys == before.Keys
    && (after == before ||
        exists u :: u in before && !IsEncoded(before[u]) && IsEncoded(after[u]) && OthersAlike(before, after, {u}))
    && forall v, q :: LogsIn(kdf, before, v, q) ==> LogsIn(kdf, after, v, q)
  }

  /** Queries and logout leave the store as it is, but for the recorded error text. */
  lemma QueriesOnlyRead(lib: Library, fn: HandlerFn, s: Session, st: Store, f: seq<Text>, env: Env)
    requires OpenToAll(fn) && fn != FnLogin
    ensures var after := Handle(lib, fn, s, st, f, env).store;
      && after.courses.tables == st.courses.tables && after.courses.saved == st.courses.saved
      && after.admins == st.admins
  {
    hide Rows;
    hide Page;
    hide Collected;
    hide PageBounds;
    hide CanBeSent;
  }

  /** What a handler open to everybody can do to the store. */
  lemma OpenHandlerStore(lib: Library, fn: HandlerFn, s: Session, st: Store, f: seq<Text>, env: Env)
    requires OpenToAll(fn)
    ensures var after := Handle(lib, fn, s, st, f, env).store;
      && after.courses.tables == st.courses.tables && after.courses.saved == st.courses.saved
      && Reencoded(lib.kdf, st.admins.table, after.admins.table)
  {
    if fn == FnLogin {
      if |f| >= 2 {
        LoginKeepsLogins(lib.kdf, st.admins, f[0], f[1], env.first);
      }
      hide VerifyLogin;
      hide LogsIn;
    } else {
      QueriesOnlyRead(lib, fn, s, st, f, env);
      hide Handle;
    }
  }

  /** A request from a session without rights leaves courses and schedules alone and at most re-encodes one password. */
  lemma StudentsChangeNothing(lib: Library, s: Session, st: Store, cmd: uint32, f: seq<Text>, env: Env)
    requires s.role == STUDENT
    ensures var after := Dispatch(lib, SERVER_TABLE, s, st, cmd, f, env).store;
      && after.courses.tables == st.courses.tables && after.courses.saved == st.courses.saved
      && Reencoded(lib.kdf, st.admins.table, after.admins.table)
  {
    TableEntries(cmd);
    hide RegisterAll;
    hide Handle;
    hide LogsIn;
    if cmd in SERVER_TABLE && Permits(s.role, SERVER_TABLE[cmd].required) {
      OpenHandlerStore(lib, SERVER_TABLE[cmd].fn, s, st, f, env);
    }
  }

  // ---- many connections ----

  datatype World = World(sessions: map<nat, Session>, store: Store)

  datatype Step =
    | Connect(id: nat)
    | Disconnect(id: nat)
    | Request(id: nat, cmd: uint32, fields: seq<Text>, env: Env)

  predicate Enabled(w: World, step: Step) {
    if step.Connect? then step.id !in w.sessions else step.id in w.sessions
  }

  function Answer(lib: Library, w: World, step: Step): Effect
    requires step.Request? && Enabled(w, step)
  {
    Dispatch(lib, SERVER_TABLE, w.sessions[step.id], w.store, step.cmd, step.fields, step.env)
  }

  function Do(lib: Library, w: World, step: Step): World
    requires Enabled(w, step)
  {
    match step
    case Connect(id) => w.(sessions := w.sessions[id := FRESH_SESSION])
    case Disconnect(id) => w.(sessions := w.sessions - {id})
    case Request(id, _, _, _) =>
      var e := Answer(lib, w, step);
      World(w.sessions[id := e.session], e.store)
  }

  /** What an observer of the wire sees. */
  datatype Event =
    | Came(id: nat)
    | Went(id: nat)
    | Answered(id: nat, cmd: uint32, resp: Response)

  function Seen(lib: Library, w: World, step: Step): Event
    requires Enabled(w, step)
  {
    match step
    case Connect(id) => Came(id)
    case Disconnect(id) => Went(id)
    case Request(id, cmd, _, _) => Answered(id, cmd, Answer(lib, w, step).resp)
  }

  predicate LoginSucceeds(ev: Event, id: nat) {
    ev.Answered? && ev.id == id && ev.cmd == CMD_LOGIN_REQ && ev.resp.cmdType == CMD_LOGIN_RESP
  }

  predicate EndsLogin(ev: Event, id: nat) {
    ev.id == id && (ev.Came? || ev.Went? || ev.cmd == CMD_LOGOUT_REQ)
  }

  /** Somewhere in the history id logged in, and has not logged out or reconnected since. */
  ghost predicate LoggedIn(h: seq<Event>, id: nat) {
    exists j :: 0 <= j < |h| && LoginSucceeds(h[j], id) && forall k :: j < k < |h| ==> !EndsLogin(h[k], id)
  }

  lemma LoggedInSnoc(h: seq<Event>, ev: Event, id: nat)
    ensures LoggedIn(h + [ev], id) <==> LoginSucceeds(ev, id) || (LoggedIn(h, id) && !EndsLogin(ev, id))
  {
    var h' := h + [ev];
    if LoginSucceeds(ev, id) {
      assert LoginSucceeds(h'[|h|], id);
    } else if LoggedIn(h, id) && !EndsLogin(ev, id) {
      var j :| 0 <= j < |h| && LoginSucceeds(h[j], id) && forall k :: j < k < |h| ==> !EndsLogin(h[k], id);
      assert LoginSucceeds(h'[j], id);
    }
    if LoggedIn(h', id) && !LoginSucceeds(ev, id) {
      var j :| 0 <= j < |h'| && LoginSucceeds(h'[j], id) && forall k :: j < k < |h'| ==> !EndsLogin(h'[k], id);
      assert LoginSucceeds(h[j], id);
      forall k | j < k < |h| ensures !EndsLogin(h[k], id) { assert h'[k] == h[k]; }
      assert h'[|h|] == ev;
    }
  }

  /** steps lead from no connections and store st to w, and h is what was seen. */
  ghost predicate Run(lib: Library, st: Store, steps: seq<Step>, w: World, h: seq<Event>) {
    if steps == [] then w == World(map[], st) && h == [] else
      var last := steps[|steps| - 1];
      exists w0, h0 :: Run(lib, st, steps[..|steps| - 1], w0, h0) && Enabled(w0, last)
        && w == Do(lib, w0, last) && h == h0 + [Seen(lib, w0, last)]
  }

  /** Rights are held by exactly the sessions whose history says so. */
  ghost predicate RightsMatch(w: World, h: seq<Event>) {
    forall id :: id in w.sessions ==> Coherent(w.sessions[id]) && (w.sessions[id].role == ADMIN <==> LoggedIn(h, id))
  }

  lemma StepKeepsRights(lib: Library, w: World, h: seq<Event>, step: Step)
    requires RightsMatch(w, h) && Enabled(w, step)
    ensures RightsMatch(Do(lib, w, step), h + [Seen(lib, w, step)])
  {
    var w' := Do(lib, w, step);
    var ev := Seen(lib, w, step);
    if step.Request? {
      DispatchRights(lib, w.sessions[step.id], w.store, step.cmd, step.fields, step.env);
    }
    hide Dispatch;
    hide LoggedIn;
    forall id | id in w'.sessions
      ensures Coherent(w'.sessions[id]) && (w'.sessions[id].role == ADMIN <==> LoggedIn(h + [ev], id))
    {
      LoggedInSnoc(h, ev, id);
    }
  }

  lemma {:induction false} RightsComeFromLogins(lib: Library, st: Store, steps: seq<Step>, w: World, h: seq<Event>)
    requires Run(lib, st, steps, w, h)
    ensures RightsMatch(w, h)
  {
    if steps != [] {
      var last := steps[|steps| - 1];
      var w0, h0 :| Run(lib, st, steps[..|steps| - 1], w0, h0) && Enabled(w0, last)
        && w == Do(lib, w0, last) && h == h0 + [Seen(lib, w0, last)];
      RightsComeFromLogins(lib, st, steps[..|steps| - 1], w0, h0);
      StepKeepsRights(lib, w0, h0, last);
    }
  }

  /**
   * In every interleaving: a step that changes courses, schedules or the set of accounts, or does more to the passwords
   * than re-encode one, is a request of a session that is logged in according to the history before it.
   */
  lemma OnlyLoggedInSessionsWrite(lib: Library, st: Store, steps: seq<Step>, w: World, h: seq<Event>, step: Step)
    requires Run(lib, st, steps, w, h) && Enabled(w, step)
    requires var after := Do(lib, w, step).store;
      after.courses.tables != w.store.courses.tables || !Reencoded(lib.kdf, w.store.admins.table, after.admins.table)
    ensures step.Request? && LoggedIn(h, step.id)
  {
    RightsComeFromLogins(lib, st, steps, w, h);
    assert Reencoded(lib.kdf, w.store.admins.table, w.store.admins.table);
    if step.Request? && w.sessions[step.id].role == STUDENT {
      StudentsChangeNothing(lib, w.sessions[step.id], w.store, step.cmd, step.fields, step.env);
    }
    hide Dispatch;
  }
}
