/**
 * One connection and the accounts table: a logged-in administrator keeps an account, the table never empties, and no
 * account has an empty name, except through the requests named here. Handlers compare names as they come, the database
 * compares them up to a NUL, so names that differ only after a NUL are one account and several session names.
 */
module AccountSafety {
  import opened Bytes
  import opened MessagePb
  import opened Commands
  import opened PasswordHash
  import opened CourseTables
  import opened CourseViews
  import opened CourseStore
  import opened Administrators
  import opened ListCodec
  import opened Handlers
  import opened Authority

  datatype Turn = Turn(cmd: uint32, fields: seq<Text>, env: Env)

  datatype State = State(session: Session, store: Store)

  function Next(lib: Library, x: State, t: Turn): State {
    var e := Dispatch(lib, SERVER_TABLE, x.session, x.store, t.cmd, t.fields, t.env);
    State(e.session, e.store)
  }

  function After(lib: Library, x: State, turns: seq<Turn>): State {
    if turns == [] then x else Next(lib, After(lib, x, turns[..|turns| - 1]), turns[|turns| - 1])
  }

  ghost predicate NulFreeNames(table: map<Text, Text>) {
    forall u :: u in table.Keys ==> Free(u, NUL)
  }

  /**
   * A role of ADMIN means that the session's name is an account; there is always an account, and names are as bound.
   */
  ghost predicate Safe(x: State) {
    && Coherent(x.session)
    && x.store.admins.table != map[]
    && NulFreeNames(x.store.admins.table)
    && (x.session.role == ADMIN ==> x.session.name in x.store.admins.table)
  }

  // ---- the requests that part a session from its account ----

  /** A login as an existing name followed by a NUL: granted, but the session keeps the longer name. */
  predicate LoginMisnames(lib: Library, x: State, f: seq<Text>, env: Env) {
    && |f| >= 2 && f[0] != [] && f[1] != [] && !Free(f[0], NUL)
    && x.store.admins.isOpen && env.first.fetch && LogsIn(lib.kdf, x.store.admins.table, CString(f[0]), f[1])
  }

  /** A deletion of the own name followed by a NUL: not the own name to the handler, but to the database. */
  predicate DeleteHitsOwn(x: State, f: seq<Text>, env: Env) {
    && |f| >= 1 && f[0] != x.session.name && CString(f[0]) == x.session.name
    && x.store.admins.isOpen && env.first.write.Done?
  }

  /** The rename half of an update request of f[0] to f[1] is carried out. */
  predicate Renames(db: AdminDb, f: seq<Text>, env: Env) {
    && |f| >= 3 && f[0] != [] && f[1] != [] && f[0] != f[1]
    && env.first.fetch && RenameDone(db, f[0], f[1], env.first)
  }

  /** The handler's guard for its early return: a new password was asked for and cannot be hashed or written. */
  predicate PasswordLost(lib: Library, f: seq<Text>, env: Env) {
    |f| >= 3 && f[2] != [] && (ToStore(lib.kdf, f[2], env.second.salt) == [] || !env.second.write.Done?)
  }

  /**
   * The own account gets another name and the session is not told: the password write fails, or the old name came with
   * a NUL.
   */
  predicate SessionMissesRename(lib: Library, x: State, f: seq<Text>, env: Env) {
    && Renames(x.store.admins, f, env) && CString(f[0]) == x.session.name
    && CString(f[0]) != CString(f[1]) && (PasswordLost(lib, f, env) || f[0] != x.session.name)
  }

  /** The session is told a new name that holds a NUL, and so is not the one stored. */
  predicate SessionGetsUnstoredName(lib: Library, x: State, f: seq<Text>, env: Env) {
    && Renames(x.store.admins, f, env) && f[0] == x.session.name
    && !PasswordLost(lib, f, env) && !Free(f[1], NUL)
  }

  predicate UpdateSevers(lib: Library, x: State, f: seq<Text>, env: Env) {
    SessionMissesRename(lib, x, f, env) || SessionGetsUnstoredName(lib, x, f, env)
  }

  predicate Severs(lib: Library, x: State, t: Turn) {
    || (t.cmd == CMD_LOGIN_REQ && LoginMisnames(lib, x, t.fields, t.env))
    || (t.cmd == CMD_ADMIN_DELETE_REQ && x.session.role == ADMIN && DeleteHitsOwn(x, t.fields, t.env))
    || (t.cmd == CMD_ADMIN_UPDATE_REQ && x.session.role == ADMIN && UpdateSevers(lib, x, t.fields, t.env))
  }

  // ---- what the handlers do to the set of accounts ----

  lemma InsertKeepsNames(kdf: Kdf, db: AdminDb, u: Text, p: Text, e: AdminEngine)
    ensures var r := InsertAdmin(kdf, db, u, p, e);
      && (r.1 <==> db.isOpen && ToStore(kdf, p, e.salt) != [] && e.write.Done?)
      && r.0.table.Keys == (if r.1 then db.table.Keys + {CString(u)} else db.table.Keys)
  {
    hide ToStore;
    hide CString;
  }

  lemma RenameNames(db: AdminDb, oldName: Text, newName: Text, e: AdminEngine)
    ensures var r := Rename(db, oldName, newName, e);
      var a, b := CString(oldName), CString(newName);
      && r.0.isOpen == db.isOpen
      && (!r.1 ==> r.0.table == db.table)
      && (r.1 && oldName != newName ==> a in db.table && (b !in db.table || a == b))
      && (r.1 && oldName != newName ==> r.0.table.Keys == db.table.Keys - {a} + {b})
      && (oldName != newName ==> (r.1 <==> RenameDone(db, oldName, newName, e)))
      && (r.1 ==> db.isOpen)
  {
    hide CString;
  }

  /** What an update request does to the set of accounts, and to the session. */
  lemma AdminUpdateNames(lib: Library, x: State, f: seq<Text>, env: Env)
    ensures var e := HandleAdminUpdate(lib, x.session, x.store, f, env);
      var names := x.store.admins.table.Keys;
      && e.store.admins.table.Keys == (if Renames(x.store.admins, f, env) then names - {CString(f[0])} + {CString(f[1])}
            else names)
      && e.session == (if Renames(x.store.admins, f, env) && f[0] == x.session.name && !PasswordLost(lib, f, env)
                       then x.session.(name := f[1]) else x.session)
  {
    if |f| >= 3 {
      var r := Rename(x.store.admins, f[0], f[1], env.first);
      InsertKeepsNames(lib.kdf, r.0, f[1], f[2], env.second);
      InsertKeepsNames(lib.kdf, x.store.admins, f[1], f[2], env.second);
      RenameNames(x.store.admins, f[0], f[1], env.first);
      hide InsertAdmin;
      hide Rename;
      hide ToStore;
      hide CanBeSent;
      hide CString;
    }
  }

  lemma CourseWritersKeepAccounts(s: Session, st: Store, f: seq<Text>, env: Env)
    ensures HandleAdd(s, st, f, env).store.admins == st.admins
    ensures HandleUpdate(s, st, f, env).store.admins == st.admins
    ensures HandleDelete(s, st, f, env).store.admins == st.admins
  {
    hide InsertOrReplace;
    hide Update;
    hide Delete;
    hide CourseOf;
    hide CanBeSent;
  }

  /** Only four handlers can change the accounts table. */
  lemma AccountsUntouched(lib: Library, fn: HandlerFn, s: Session, st: Store, f: seq<Text>, env: Env)
    requires fn !in {FnLogin, FnAdminCreate, FnAdminUpdate, FnAdminDelete}
    ensures Handle(lib, fn, s, st, f, env).store.admins.table == st.admins.table
  {
    CourseWritersKeepAccounts(s, st, f, env);
    hide Ask;
    hide CanBeSent;
    hide Rows;
    hide Page;
    hide PageBounds;
    hide SerializeCourses;
    hide SerializeNames;
    hide SortedNames;
    hide Collected;
    hide HandleAdd;
    hide HandleUpdate;
    hide HandleDelete;
    hide HandleLogin;
    hide HandleAdminCreate;
    hide HandleAdminUpdate;
    hide HandleAdminDelete;
  }

  lemma CreateNames(lib: Library, s: Session, st: Store, f: seq<Text>, env: Env)
    ensures var before := st.admins.table.Keys;
      var after := HandleAdminCreate(lib, s, st, f, env).store.admins.table.Keys;
      var done := |f| >= 2 && f[0] != [] && f[1] != [] && !Exists(st.admins, f[0], env.first.existsOld)
        && st.admins.isOpen && ToStore(lib.kdf, f[1], env.second.salt) != [] && env.second.write.Done?;
      after == (if done then before + {CString(f[0])} else before)
  {
    if |f| >= 2 { InsertKeepsNames(lib.kdf, st.admins, f[0], f[1], env.second); }
    hide InsertAdmin;
    hide ToStore;
    hide CanBeSent;
    hide CString;
  }

  lemma DeleteNames(s: Session, st: Store, f: seq<Text>, env: Env)
    ensures var name := FieldAt(f, 0);
      HandleAdminDelete(s, st, f, env).store.admins.table.Keys ==
        (if name != [] && name != s.name && st.admins.isOpen && env.first.write.Done?
            then st.admins.table.Keys - {CString(name)}
         else st.admins.table.Keys)
  {
    hide CanBeSent;
    hide CString;
  }

  /** A login that succeeds names an account, up to a NUL. */
  lemma LoginNames(lib: Library, s: Session, st: Store, f: seq<Text>, env: Env)
    ensures var e := HandleLogin(lib, s, st, f, env);
      var granted := |f| >= 2 && f[0] != [] && f[1] != [] && st.admins.isOpen && env.first.fetch
        && LogsIn(lib.kdf, st.admins.table, CString(f[0]), f[1]);
      && e.session == (if granted then Session(ADMIN, f[0]) else s)
      && e.store.admins.table.Keys == st.admins.table.Keys
  {
    if |f| >= 2 {
      LoginKeepsLogins(lib.kdf, st.admins, f[0], f[1], env.first);
      LoginSucceedsWhenAccepted(lib.kdf, st.admins, f[0], f[1], env.first);
    }
    hide VerifyLogin;
    hide LogsIn;
    hide CanBeSent;
    hide CString;
  }

  // ---- one request ----

  lemma LoginIsSafe(lib: Library, x: State, f: seq<Text>, env: Env)
    requires Safe(x)
    ensures var e := HandleLogin(lib, x.session, x.store, f, env);
      Safe(State(e.session, e.store)) <==> !LoginMisnames(lib, x, f, env)
  {
    LoginNames(lib, x.session, x.store, f, env);
    var e := HandleLogin(lib, x.session, x.store, f, env);
    SameNamesStay(x.store.admins.table, e.store.admins.table);
    assert forall u :: u in e.store.admins.table <==> u in x.store.admins.table.Keys;
    hide HandleLogin;
    hide CString;
    if |f| >= 2 && LogsIn(lib.kdf, x.store.admins.table, CString(f[0]), f[1]) {
      assert CString(f[0]) in x.store.admins.table.Keys;
    }
    hide LogsIn;
  }

  lemma SameNamesStay(before: map<Text, Text>, after: map<Text, Text>)
    requires before.Keys <= after.Keys && before != map[]
    ensures after != map[]
  {
    var name :| name in before;
    assert name in after.Keys;
  }

  lemma CreateIsSafe(lib: Library, x: State, f: seq<Text>, env: Env)
    requires Safe(x)
    ensures var e := HandleAdminCreate(lib, x.session, x.store, f, env);
      e.session == x.session ==> Safe(State(e.session, e.store))
  {
    CreateNames(lib, x.session, x.store, f, env);
    SameNamesStay(x.store.admins.table, HandleAdminCreate(lib, x.session, x.store, f, env).store.admins.table);
    assert x.session.role == ADMIN ==> x.session.name in x.store.admins.table.Keys;
    hide HandleAdminCreate;
    hide CString;
  }

  lemma DeleteIsSafe(x: State, f: seq<Text>, env: Env)
    requires Safe(x) && x.session.role == ADMIN
    ensures var e := HandleAdminDelete(x.session, x.store, f, env);
      e.session == x.session ==> (Safe(State(e.session, e.store)) <==> !DeleteHitsOwn(x, f, env))
  {
    DeleteNames(x.session, x.store, f, env);
    var after := HandleAdminDelete(x.session, x.store, f, env).store.admins.table;
    assert x.session.name in x.store.admins.table.Keys;
    assert x.session.name in after <==> x.session.name in after.Keys;
    if x.session.name in after.Keys { assert after != map[]; }
    hide HandleAdminDelete;
    hide CString;
  }

  lemma UpdateIsSafe(lib: Library, x: State, f: seq<Text>, env: Env)
    requires Safe(x) && x.session.role == ADMIN
    ensures var e := HandleAdminUpdate(lib, x.session, x.store, f, env);
      Safe(State(e.session, e.store)) <==> !UpdateSevers(lib, x, f, env)
  {
    AdminUpdateNames(lib, x, f, env);
    AdminUpdateKeepsRights(lib, x.session, x.store, f, env);
    var e := HandleAdminUpdate(lib, x.session, x.store, f, env);
    var before, after := x.store.admins.table, e.store.admins.table;
    assert x.session.name in before.Keys;
    hide HandleAdminUpdate;
    hide PasswordLost;
    if Renames(x.store.admins, f, env) {
      RenameNames(x.store.admins, f[0], f[1], env.first);
      assert CString(f[1]) in after.Keys;
      assert CString(f[0]) == x.session.name && f[0] != x.session.name ==> !Free(f[0], NUL);
      assert f[1] in after <==> f[1] in after.Keys;
      assert f[1] in after.Keys ==> Free(f[1], NUL);
    }
    assert e.session.name in after <==> e.session.name in after.Keys;
    hide Renames;
    hide CString;
  }

  lemma OthersAreSafe(lib: Library, fn: HandlerFn, x: State, f: seq<Text>, env: Env)
    requires Safe(x) && fn !in {FnLogin, FnAdminCreate, FnAdminUpdate, FnAdminDelete}
        && (OpenToAll(fn) || x.session.role == ADMIN)
    ensures var e := Handle(lib, fn, x.session, x.store, f, env); Safe(State(e.session, e.store))
  {
    HandlerRights(lib, fn, x.session, x.store, f, env);
    AccountsUntouched(lib, fn, x.session, x.store, f, env);
    if fn != FnLogout {
      SessionStays(lib, fn, x.session, x.store, f, env);
      hide Handle;
    }
  }

  lemma HandlerIsSafe(lib: Library, fn: HandlerFn, x: State, f: seq<Text>, env: Env)
    requires Safe(x) && (OpenToAll(fn) || x.session.role == ADMIN)
    ensures var e := Handle(lib, fn, x.session, x.store, f, env);
      Safe(State(e.session, e.store)) <==>
        match fn
        case FnLogin => !LoginMisnames(lib, x, f, env)
        case FnAdminDelete => !DeleteHitsOwn(x, f, env)
        case FnAdminUpdate => !UpdateSevers(lib, x, f, env)
        case _ => true
  {
    hide Safe;
    hide LoginMisnames;
    hide DeleteHitsOwn;
    hide UpdateSevers;
    hide HandleLogin;
    hide HandleAdminCreate;
    hide HandleAdminUpdate;
    hide HandleAdminDelete;
    match fn {
      case FnLogin => LoginIsSafe(lib, x, f, env);
      case FnAdminCreate => SessionStays(lib, fn, x.session, x.store, f, env); CreateIsSafe(lib, x, f, env);
      case FnAdminUpdate => UpdateIsSafe(lib, x, f, env);
      case FnAdminDelete => SessionStays(lib, fn, x.session, x.store, f, env); DeleteIsSafe(x, f, env);
      case _ => OthersAreSafe(lib, fn, x, f, env); hide Handle;
    }
  }

  /** Exactly these requests part a session from its account or empty the table. */
  lemma StepIsSafe(lib: Library, x: State, t: Turn)
    requires Safe(x)
    ensures Safe(Next(lib, x, t)) <==> !Severs(lib, x, t)
  {
    hide RegisterAll;
    hide LoginMisnames;
    hide DeleteHitsOwn;
    hide UpdateSevers;
    hide Handle;
    TableEntries(t.cmd);
    if t.cmd in SERVER_TABLE && Permits(x.session.role, SERVER_TABLE[t.cmd].required) {
      HandlerIsSafe(lib, SERVER_TABLE[t.cmd].fn, x, t.fields, t.env);
    }
    hide Safe;
  }

  /** Without a NUL in its fields, the only such request is a self-rename whose password cannot be hashed or written. */
  lemma PlainStepIsSafe(lib: Library, x: State, t: Turn)
    requires Safe(x) && AllFree(t.fields, NUL)
    ensures Safe(Next(lib, x, t)) <==>
      !(t.cmd == CMD_ADMIN_UPDATE_REQ && x.session.role == ADMIN && Renames(x.store.admins, t.fields, t.env)
        && t.fields[0] == x.session.name && PasswordLost(lib, t.fields, t.env))
  {
    StepIsSafe(lib, x, t);
    var f := t.fields;
    if |f| >= 1 { assert f[0] in f && CString(f[0]) == f[0]; }
    if |f| >= 2 { assert f[1] in f && CString(f[1]) == f[1]; }
    hide Safe;
    hide Next;
    hide CString;
    hide Rename;
    hide LogsIn;
    hide ToStore;
  }

  // ---- whole runs ----

  /**
   * Over every run of requests on one connection: as long as none of them is of the kinds above, an administrator
   * session has its account and at least one account exists.
   */
  lemma {:induction false} AccountsSurvive(lib: Library, x: State, turns: seq<Turn>)
    requires Safe(x)
    requires forall i :: 0 <= i < |turns| ==> !Severs(lib, After(lib, x, turns[..i]), turns[i])
    ensures Safe(After(lib, x, turns))
  {
    hide Safe;
    hide Severs;
    hide Next;
    if turns != [] {
      var n := |turns| - 1;
      forall i | 0 <= i < n ensures !Severs(lib, After(lib, x, turns[..n][..i]), turns[..n][i]) {
        assert turns[..n][..i] == turns[..i];
      }
      AccountsSurvive(lib, x, turns[..n]);
      StepIsSafe(lib, After(lib, x, turns[..n]), turns[n]);
    }
  }

  // ---- from the server's start on ----

  /** There is an account, and names are as bound. */
  ghost predicate Populated(st: Store) {
    st.admins.table != map[] && NulFreeNames(st.admins.table)
  }

  lemma FreshConnectionIsSafe(lib: Library, st: Store)
    requires Populated(st)
    ensures Safe(State(FRESH_SESSION, st))
  {
  }

  lemma StartUpPopulates(lib: Library, db: AdminDb, courses: Db, e1: AdminEngine, e2: AdminEngine)
    requires db.isOpen && NulFreeNames(db.table) && e2.write.Done? && e2.salt.Some?
        && lib.kdf(DEFAULT_PASSWORD, e2.salt.value, ITERATIONS).Some?
    ensures Populated(Store(courses, StartUp(lib.kdf, db, e1, e2)))
  {
    StartUpLeavesAnAccount(lib.kdf, db, e1, e2);
    var r := VerifyLogin(lib.kdf, db, DEFAULT_NAME, DEFAULT_PASSWORD, e1);
    LoginKeepsLogins(lib.kdf, db, DEFAULT_NAME, DEFAULT_PASSWORD, e1);
    InsertKeepsNames(lib.kdf, r.0, DEFAULT_NAME, DEFAULT_PASSWORD, e2);
    hide VerifyLogin;
    hide InsertAdmin;
    hide LogsIn;
    hide CString;
    assert r.0.table.Keys == db.table.Keys;
  }

  /** Connections one after the other, each with a session of its own. */
  function AfterConnections(lib: Library, st: Store, conns: seq<seq<Turn>>): Store {
    if conns == [] then st else
      var n := |conns| - 1;
      After(lib, State(FRESH_SESSION, AfterConnections(lib, st, conns[..n])), conns[n]).store
  }

  /** No request of a connection is of the kinds above. */
  ghost predicate Unsevered(lib: Library, x: State, turns: seq<Turn>) {
    forall i :: 0 <= i < |turns| ==> !Severs(lib, After(lib, x, turns[..i]), turns[i])
  }

  ghost predicate AllUnsevered(lib: Library, st: Store, conns: seq<seq<Turn>>) {
    forall i :: 0 <= i < |conns| ==>
      Unsevered(lib, State(FRESH_SESSION, AfterConnections(lib, st, conns[..i])), conns[i])
  }

  lemma {:induction false} ConnectionsKeepAnAccount(lib: Library, st: Store, conns: seq<seq<Turn>>)
    requires Populated(st) && AllUnsevered(lib, st, conns)
    ensures Populated(AfterConnections(lib, st, conns))
  {
    hide After;
    hide Unsevered;
    hide NulFreeNames;
    if conns != [] {
      var n := |conns| - 1;
      var x := State(FRESH_SESSION, AfterConnections(lib, st, conns[..n]));
      forall i | 0 <= i < n
        ensures Unsevered(lib, State(FRESH_SESSION, AfterConnections(lib, st, conns[..n][..i])), conns[..n][i])
      {
        assert conns[..n][..i] == conns[..i];
      }
      ConnectionsKeepAnAccount(lib, st, conns[..n]);
      FreshConnectionIsSafe(lib, x.store);
      ConnectionStaysSafe(lib, x, conns[n]);
    }
  }

  lemma ConnectionStaysSafe(lib: Library, x: State, turns: seq<Turn>)
    requires Safe(x) && Unsevered(lib, x, turns)
    ensures Safe(After(lib, x, turns))
  {
    AccountsSurvive(lib, x, turns);
    hide Safe;
    hide Severs;
    hide After;
  }

  /**
   * From the server's start to any moment of any connection, connections coming one after the other: if the default
   * account can be hashed and written and no request is of the kinds above, an administrator session has its account
   * and at least one account exists.
   */
  lemma ServerKeepsAnAccount(lib: Library, db: AdminDb, courses: Db, e1: AdminEngine, e2: AdminEngine,
      conns: seq<seq<Turn>>, turns: seq<Turn>)
    requires db.isOpen && NulFreeNames(db.table) && e2.write.Done? && e2.salt.Some?
        && lib.kdf(DEFAULT_PASSWORD, e2.salt.value, ITERATIONS).Some?
    requires var st := Store(courses, StartUp(lib.kdf, db, e1, e2));
      && AllUnsevered(lib, st, conns)
      && Unsevered(lib, State(FRESH_SESSION, AfterConnections(lib, st, conns)), turns)
    ensures var st := Store(courses, StartUp(lib.kdf, db, e1, e2));
      Safe(After(lib, State(FRESH_SESSION, AfterConnections(lib, st, conns)), turns))
  {
    hide StartUp;
    hide AfterConnections;
    hide After;
    hide AllUnsevered;
    hide Unsevered;
    hide Populated;
    hide Safe;
    hide NulFreeNames;
    var st := Store(courses, StartUp(lib.kdf, db, e1, e2));
    StartUpPopulates(lib, db, courses, e1, e2);
    ConnectionsKeepAnAccount(lib, st, conns);
    FreshConnectionIsSafe(lib, AfterConnections(lib, st, conns));
    ConnectionStaysSafe(lib, State(FRESH_SESSION, AfterConnections(lib, st, conns)), turns);
  }

  // ---- sessions side by side ----

  /** A deletion, by any session, of the only account under another name than the session's. */
  predicate DeletesTheLast(x: State, t: Turn) {
    && t.cmd == CMD_ADMIN_DELETE_REQ && x.session.role == ADMIN && FieldAt(t.fields, 0) != []
    && t.fields[0] != x.session.name && x.store.admins.table.Keys == {CString(t.fields[0])}
    && x.store.admins.isOpen && t.env.first.write.Done?
  }

  /** Whatever other sessions did before: exactly such a deletion empties the table. */
  lemma LastAccountGoes(lib: Library, x: State, t: Turn)
    requires x.store.admins.table != map[]
    ensures Next(lib, x, t).store.admins.table == map[] <==> DeletesTheLast(x, t)
  {
    TableEntries(t.cmd);
    hide RegisterAll;
    if t.cmd in SERVER_TABLE && Permits(x.session.role, SERVER_TABLE[t.cmd].required) {
      LastAccountInHandler(lib, SERVER_TABLE[t.cmd].fn, x, t.fields, t.env);
      hide Handle;
      hide CString;
    }
  }

  lemma LastAccountInHandler(lib: Library, fn: HandlerFn, x: State, f: seq<Text>, env: Env)
    requires x.store.admins.table != map[]
    ensures Handle(lib, fn, x.session, x.store, f, env).store.admins.table == map[] <==>
      && fn == FnAdminDelete && FieldAt(f, 0) != [] && f[0] != x.session.name
      && x.store.admins.table.Keys == {CString(f[0])} && x.store.admins.isOpen && env.first.write.Done?
  {
    hide HandleQuery;
    hide HandleViewAll;
    hide HandleViewPage;
    hide HandleAdd;
    hide HandleUpdate;
    hide HandleDelete;
    hide HandleAdminList;
    hide HandleLogin;
    hide HandleAdminCreate;
    hide HandleAdminUpdate;
    hide HandleAdminDelete;
    hide CString;
    hide ToStore;
    var before := x.store.admins.table;
    var after := Handle(lib, fn, x.session, x.store, f, env).store.admins.table;
    NoKeys(before);
    NoKeys(after);
    match fn {
      case FnLogin => LoginNames(lib, x.session, x.store, f, env);
      case FnAdminCreate => CreateNames(lib, x.session, x.store, f, env);
      case FnAdminUpdate => AdminUpdateNames(lib, x, f, env);
      case FnAdminDelete => DeleteNames(x.session, x.store, f, env);
      case _ => AccountsUntouched(lib, fn, x.session, x.store, f, env); hide Handle;
    }
    hide RenameDone;
    hide PasswordLost;
  }

  lemma NoKeys(table: map<Text, Text>)
    ensures table.Keys == {} <==> table == map[]
  {
  }

  // ---- each kind occurs ----

  /** A session of ann, the only account. */
  function OnlyAnn(st: Store): State { State(Session(ADMIN, Ascii("ann")), st) }

  lemma OnlyAnnIsPlain()
    ensures CString(Ascii("ann")) == Ascii("ann") != []
  {
    assert Ascii("ann")[0] as int == 'a' as int && Ascii("ann")[1] as int == 'n' as int
        && Ascii("ann")[2] as int == 'n' as int;
  }

  lemma OnlyAnnIsSafe(st: Store)
    requires st.admins == AdminDb(true, map[Ascii("ann") := Ascii("x")], [])
    ensures Safe(OnlyAnn(st)) && Ascii("ann") in st.admins.table && CString(Ascii("ann")) == Ascii("ann") != []
  {
    OnlyAnnIsPlain();
    hide CString;
    assert Ascii("ann") in st.admins.table;
    assert st.admins.table != map[];
  }

  function Fine(salt: Salt): AdminEngine { AdminEngine(true, true, true, Some(salt), Done) }

  function Smooth(first: AdminEngine, second: AdminEngine, day: Text -> Text): Env {
    Env(Engine(Done, Done, Done, Done, Done, day), Complete, first, second)
  }

  /** One request whose password write fails leaves the session with a name that is gone. */
  lemma SelfRenameCanLoseTheAccount(lib: Library, st: Store, salt: Salt, day: Text -> Text)
    requires st.admins == AdminDb(true, map[Ascii("ann") := Ascii("x")], [])
    ensures var env := Smooth(Fine(salt), Fine(salt).(write := StepFailed(Ascii("disk I/O error"))), day);
      var t := Turn(CMD_ADMIN_UPDATE_REQ, [Ascii("ann"), Ascii("bob"), Ascii("y")], env);
      Safe(OnlyAnn(st)) && !Safe(Next(lib, OnlyAnn(st), t))
  {
    var x := OnlyAnn(st);
    var env := Smooth(Fine(salt), Fine(salt).(write := StepFailed(Ascii("disk I/O error"))), day);
    var f := [Ascii("ann"), Ascii("bob"), Ascii("y")];
    OnlyAnnIsSafe(st);
    BobIsPlain();
    hide Ascii;
    hide CString;
    StepIsSafe(lib, x, Turn(CMD_ADMIN_UPDATE_REQ, f, env));
    assert Renames(st.admins, f, env) && PasswordLost(lib, f, env);
    hide Safe;
    hide Next;
  }

  lemma BobIsPlain()
    ensures CString(Ascii("bob")) == Ascii("bob") && Ascii("bob") != Ascii("ann") && Ascii("bob") != []
        && Ascii("y") != []
  {
    assert Ascii("ann")[0] as int == 'a' as int;
    assert Ascii("bob")[0] as int == 'b' as int && Ascii("bob")[1] as int == 'o' as int
        && Ascii("bob")[2] as int == 'b' as int;
  }

  lemma NamesWithNul()
    ensures CString(Ascii("ann") + [NUL]) == Ascii("ann") && Ascii("ann") + [NUL] != Ascii("ann")
  {
    OnlyAnnIsPlain();
    assert Ascii("ann") + [NUL] + [] == Ascii("ann") + [NUL];
    CStringEndsAtNul(Ascii("ann"), []);
    hide CString;
  }

  lemma PermittedRequestRuns(lib: Library, x: State, t: Turn)
    requires t.cmd in SERVER_TABLE && Permits(x.session.role, SERVER_TABLE[t.cmd].required)
    ensures var e := Handle(lib, SERVER_TABLE[t.cmd].fn, x.session, x.store, t.fields, t.env);
      Next(lib, x, t) == State(e.session, e.store)
  {
    hide RegisterAll;
    hide Handle;
  }

  lemma OwnRowIsDeleted(st: Store, env: Env)
    requires st.admins == AdminDb(true, map[Ascii("ann") := Ascii("x")], []) && env.first.write.Done?
    ensures HandleAdminDelete(OnlyAnn(st).session, st, [Ascii("ann") + [NUL]], env).store.admins.table == map[]
  {
    var f := [Ascii("ann") + [NUL]];
    DeleteNames(OnlyAnn(st).session, st, f, env);
    NamesWithNul();
    hide CString;
    hide HandleAdminDelete;
    hide Ascii;
    assert HandleAdminDelete(OnlyAnn(st).session, st, f, env).store.admins.table.Keys == {};
  }

  /** Deleting the own name followed by a NUL removes the only account. */
  lemma OwnDeletionCanEmptyTheTable(lib: Library, st: Store, salt: Salt, day: Text -> Text)
    requires st.admins == AdminDb(true, map[Ascii("ann") := Ascii("x")], [])
    ensures var t := Turn(CMD_ADMIN_DELETE_REQ, [Ascii("ann") + [NUL]], Smooth(Fine(salt), Fine(salt), day));
      Safe(OnlyAnn(st)) && Next(lib, OnlyAnn(st), t).store.admins.table == map[]
  {
    hide RegisterAll;
    hide CString;
    hide HandleAdminDelete;
    hide Ascii;
    hide Next;
    hide Safe;
    var x := OnlyAnn(st);
    var f := [Ascii("ann") + [NUL]];
    var env := Smooth(Fine(salt), Fine(salt), day);
    OnlyAnnIsSafe(st);
    OwnRowIsDeleted(st, env);
    TableEntries(CMD_ADMIN_DELETE_REQ);
    PermittedRequestRuns(lib, x, Turn(CMD_ADMIN_DELETE_REQ, f, env));
  }

  lemma MisnamingSevers(lib: Library, x: State, t: Turn)
    requires t.cmd == CMD_LOGIN_REQ && LoginMisnames(lib, x, t.fields, t.env)
    ensures Severs(lib, x, t)
  {
  }

  /**
   * Logging in as a name followed by a NUL is granted and leaves an administrator's session that no account carries.
   */
  lemma LoginCanMisnameTheSession(lib: Library, st: Store, salt: Salt, day: Text -> Text)
    requires st.admins == AdminDb(true, map[Ascii("ann") := Ascii("x")], [])
    ensures var t := Turn(CMD_LOGIN_REQ, [Ascii("ann") + [NUL], Ascii("x")], Smooth(Fine(salt), Fine(salt), day));
      var x := State(FRESH_SESSION, st);
      Safe(x) && Next(lib, x, t).session == Session(ADMIN, Ascii("ann") + [NUL]) && !Safe(Next(lib, x, t))
  {
    var x := State(FRESH_SESSION, st);
    var f := [Ascii("ann") + [NUL], Ascii("x")];
    var t := Turn(CMD_LOGIN_REQ, f, Smooth(Fine(salt), Fine(salt), day));
    PlainEntry();
    hide RegisterAll;
    hide CString;
    hide HandleLogin;
    hide Ascii;
    hide LogsIn;
    hide Severs;
    hide Next;
    OnlyAnnIsSafe(st);
    NamesWithNul();
    AnnLogsIn(lib.kdf, st);
    LoginNames(lib, x.session, st, f, t.env);
    MisnamingSevers(lib, x, t);
    StepIsSafe(lib, x, t);
    TableEntries(CMD_LOGIN_REQ);
    PermittedRequestRuns(lib, x, t);
  }

  lemma AnnLogsIn(kdf: Kdf, st: Store)
    requires st.admins == AdminDb(true, map[Ascii("ann") := Ascii("x")], [])
    ensures LogsIn(kdf, st.admins.table, Ascii("ann"), Ascii("x"))
  {
    PlainEntry();
    hide IsEncoded;
  }

  lemma PlainEntry()
    ensures !IsEncoded(Ascii("x")) && Ascii("x") != []
  {
  }

  /** Renaming the own account under its name followed by a NUL renames the account and not the session. */
  lemma SelfRenameCanMissTheSession(lib: Library, st: Store, salt: Salt, day: Text -> Text)
    requires st.admins == AdminDb(true, map[Ascii("ann") := Ascii("x")], [])
    ensures var t := Turn(CMD_ADMIN_UPDATE_REQ, [Ascii("ann") + [NUL], Ascii("bob"), []],
        Smooth(Fine(salt), Fine(salt), day));
      Safe(OnlyAnn(st)) && !Safe(Next(lib, OnlyAnn(st), t))
  {
    var x := OnlyAnn(st);
    var f := [Ascii("ann") + [NUL], Ascii("bob"), []];
    var env := Smooth(Fine(salt), Fine(salt), day);
    OnlyAnnIsSafe(st);
    BobIsPlain();
    NamesWithNul();
    hide Ascii;
    hide CString;
    StepIsSafe(lib, x, Turn(CMD_ADMIN_UPDATE_REQ, f, env));
    assert f[0] != f[1] && Renames(st.admins, f, env);
    hide Safe;
    hide Next;
  }

  /** Two sessions side by side can delete each other's accounts, and with them the last. */
  lemma TwoSessionsCanEmptyTheTable(lib: Library, st: Store, salt: Salt, day: Text -> Text)
    requires st.admins == AdminDb(true, map[Ascii("ann") := Ascii("x"), Ascii("bob") := Ascii("x")], [])
    ensures var ann, bob := Session(ADMIN, Ascii("ann")), Session(ADMIN, Ascii("bob"));
      var first := Turn(CMD_ADMIN_DELETE_REQ, [Ascii("bob")], Smooth(Fine(salt), Fine(salt), day));
      var second := Turn(CMD_ADMIN_DELETE_REQ, [Ascii("ann")], Smooth(Fine(salt), Fine(salt), day));
      && Safe(State(ann, st)) && Safe(State(bob, st))
      && Next(lib, State(bob, Next(lib, State(ann, st), first).store), second).store.admins.table == map[]
  {
    hide RegisterAll;
    hide Next;
    hide HandleAdminDelete;
    var ann, bob := Session(ADMIN, Ascii("ann")), Session(ADMIN, Ascii("bob"));
    var first := Turn(CMD_ADMIN_DELETE_REQ, [Ascii("bob")], Smooth(Fine(salt), Fine(salt), day));
    var second := Turn(CMD_ADMIN_DELETE_REQ, [Ascii("ann")], Smooth(Fine(salt), Fine(salt), day));
    OnlyAnnIsPlain();
    BobIsPlain();
    hide Ascii;
    hide CString;
    TableEntries(CMD_ADMIN_DELETE_REQ);
    PermittedRequestRuns(lib, State(ann, st), first);
    DeleteNames(ann, st, first.fields, first.env);
    var st' := Next(lib, State(ann, st), first).store;
    DeletionStaysOpen(ann, st, first.fields, first.env);
    assert st'.admins.table.Keys == {Ascii("ann")};
    NoKeys(st'.admins.table);
    LastAccountGoes(lib, State(bob, st'), second);
    BothAreThere(st);
  }

  lemma BothAreThere(st: Store)
    requires st.admins == AdminDb(true, map[Ascii("ann") := Ascii("x"), Ascii("bob") := Ascii("x")], [])
    ensures Safe(State(Session(ADMIN, Ascii("ann")), st)) && Safe(State(Session(ADMIN, Ascii("bob")), st))
  {
    OnlyAnnIsPlain();
    BobIsPlain();
    hide CString;
    assert Ascii("ann") in st.admins.table;
    assert st.admins.table != map[];
    hide Ascii;
  }

  lemma DeletionStaysOpen(s: Session, st: Store, f: seq<Text>, env: Env)
    ensures HandleAdminDelete(s, st, f, env).store.admins.isOpen == st.admins.isOpen
  {
    hide CanBeSent;
    hide CString;
  }

  // ---- empty names ----

  /** A name that starts with a NUL is not empty to the handler, and empty to the database. */
  predicate StoresEmptyName(lib: Library, x: State, t: Turn) {
    && x.session.role == ADMIN
    && var f := t.fields;
       || (t.cmd == CMD_ADMIN_CREATE_REQ && |f| >= 2 && f[0] != [] && f[0][0] == NUL && f[1] != []
           && x.store.admins.isOpen && ToStore(lib.kdf, f[1], t.env.second.salt) != [] && t.env.second.write.Done?)
       || (t.cmd == CMD_ADMIN_UPDATE_REQ && Renames(x.store.admins, f, t.env) && f[1][0] == NUL)
  }

  /** Exactly these requests bring about an account with an empty name. */
  lemma EmptyNameAppears(lib: Library, x: State, t: Turn)
    requires [] !in x.store.admins.table
    ensures [] in Next(lib, x, t).store.admins.table <==> StoresEmptyName(lib, x, t)
  {
    TableEntries(t.cmd);
    CreateEntry();
    hide RegisterAll;
    if t.cmd in SERVER_TABLE && Permits(x.session.role, SERVER_TABLE[t.cmd].required) {
      EmptyNameInHandler(lib, SERVER_TABLE[t.cmd].fn, x, t.fields, t.env);
      hide Handle;
      hide Renames;
      hide ToStore;
    }
  }

  lemma CreateEntry()
    ensures CMD_ADMIN_CREATE_REQ in SERVER_TABLE
    ensures forall cmd ::
      cmd in SERVER_TABLE ==> (SERVER_TABLE[cmd].fn == FnAdminCreate <==> cmd == CMD_ADMIN_CREATE_REQ)
  {
  }

  lemma EmptyNameInHandler(lib: Library, fn: HandlerFn, x: State, f: seq<Text>, env: Env)
    requires [] !in x.store.admins.table
    ensures [] in Handle(lib, fn, x.session, x.store, f, env).store.admins.table <==>
      || (fn == FnAdminCreate && |f| >= 2 && f[0] != [] && f[0][0] == NUL && f[1] != []
          && x.store.admins.isOpen && ToStore(lib.kdf, f[1], env.second.salt) != [] && env.second.write.Done?)
      || (fn == FnAdminUpdate && Renames(x.store.admins, f, env) && f[1][0] == NUL)
  {
    hide ToStore;
    hide HandleQuery;
    hide HandleViewAll;
    hide HandleViewPage;
    hide HandleAdd;
    hide HandleUpdate;
    hide HandleDelete;
    hide HandleAdminList;
    hide HandleLogin;
    hide HandleAdminCreate;
    hide HandleAdminUpdate;
    hide HandleAdminDelete;
    var before := x.store.admins.table;
    assert [] !in before.Keys;
    var after := Handle(lib, fn, x.session, x.store, f, env).store.admins.table;
    assert [] in after <==> [] in after.Keys;
    match fn {
      case FnLogin => LoginNames(lib, x.session, x.store, f, env);
      case FnAdminCreate => CreateNames(lib, x.session, x.store, f, env);
      case FnAdminUpdate => AdminUpdateNames(lib, x, f, env);
      case FnAdminDelete => DeleteNames(x.session, x.store, f, env);
      case _ => AccountsUntouched(lib, fn, x.session, x.store, f, env); hide Handle;
    }
    hide Rename;
    hide PasswordLost;
  }

  lemma {:induction false} NoEmptyNameAppears(lib: Library, x: State, turns: seq<Turn>)
    requires [] !in x.store.admins.table
    requires forall i :: 0 <= i < |turns| ==> !StoresEmptyName(lib, After(lib, x, turns[..i]), turns[i])
    ensures [] !in After(lib, x, turns).store.admins.table
  {
    hide StoresEmptyName;
    hide Next;
    if turns != [] {
      var n := |turns| - 1;
      forall i | 0 <= i < n ensures !StoresEmptyName(lib, After(lib, x, turns[..n][..i]), turns[..n][i]) {
        assert turns[..n][..i] == turns[..i];
      }
      NoEmptyNameAppears(lib, x, turns[..n]);
      EmptyNameAppears(lib, After(lib, x, turns[..n]), turns[n]);
    }
  }

  lemma HashIsMade(kdf: Kdf, p: Text, salt: Salt)
    requires p != [] && kdf(p, salt, ITERATIONS).Some?
    ensures ToStore(kdf, p, Some(salt)) != []
  {
    assert PREFIX != [];
    hide IsEncoded;
  }

  /** Creating an account whose name is a NUL stores one with an empty name. */
  lemma EmptyNameCanBeStored(lib: Library, st: Store, salt: Salt, day: Text -> Text)
    requires st.admins == AdminDb(true, map[Ascii("ann") := Ascii("x")], [])
        && lib.kdf(Ascii("y"), salt, ITERATIONS).Some?
    ensures var t := Turn(CMD_ADMIN_CREATE_REQ, [[NUL], Ascii("y")], Smooth(Fine(salt), Fine(salt), day));
      [] in Next(lib, OnlyAnn(st), t).store.admins.table
  {
    hide RegisterAll;
    hide Next;
    hide Renames;
    var t := Turn(CMD_ADMIN_CREATE_REQ, [[NUL], Ascii("y")], Smooth(Fine(salt), Fine(salt), day));
    OnlyAnnIsSafe(st);
    BobIsPlain();
    HashIsMade(lib.kdf, Ascii("y"), salt);
    hide ToStore;
    hide Ascii;
    EmptyNameAppears(lib, OnlyAnn(st), t);
  }
}
