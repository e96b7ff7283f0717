/** Texts free of separators stay so: what clients send is all that ever enters the store. */
module CleanRuns {
  import opened Bytes
  import opened MessagePb
  import opened CourseTables
  import opened Administrators
  import opened ListCodec
  import opened Handlers
  import opened Authority
  import opened AccountSafety
  import opened RequestEffects

  ghost predicate CleanNames(table: map<Text, Text>) {
    forall u :: u in table.Keys ==> Free(u, RECORD_SEP)
  }

  /** No row, current or to be restored, holds a separator or a NUL; no account has a name with a record separator. */
  ghost predicate CleanStore(st: Store) {
    Holds(CleanTables, st.courses) && CleanNames(st.admins.table)
  }

  predicate CleanFields(f: seq<Text>) {
    forall x :: x in f ==> CleanText(x)
  }

  /** All parts of the course's rows are clean cells. */
  predicate CleanRow(c: Course) {
    CleanSlot(SlotOf(c)) && CleanInfo(InfoOf(c)) && CleanCell(c.classroom)
  }

  ghost predicate CleanStatement(s: Statement) {
    match s
    case UpsertCourse(c) => CleanRow(c)
    case UpsertSchedule(c) => CleanRow(c)
    case UpdateCourse(c) => CleanRow(c)
    case UpdateSchedule(c) => CleanRow(c)
    case _ => true
  }

  lemma CleanStatementsPreserveClean(s: Statement)
    requires CleanStatement(s)
    ensures Preserves(CleanTables, s)
  {
    hide CleanInfo;
    hide CleanSlot;
    hide CleanCell;
    hide Ascii;
    forall db, o | Holds(CleanTables, db) ensures Holds(CleanTables, Exec(db, s, o).db) {
      if o.Done? { DoneKeepsClean(db, s); }
    }
  }

  lemma DoneKeepsClean(db: Db, s: Statement)
    requires CleanStatement(s) && Holds(CleanTables, db)
    ensures Holds(CleanTables, Exec(db, s, Done).db)
  {
    hide CleanInfo;
    hide CleanSlot;
    hide CleanCell;
    match s {
      case UpsertCourse(c) =>
      case UpsertSchedule(c) =>
      case UpdateCourse(c) =>
      case UpdateSchedule(c) =>
      case DeleteCourse(key) =>
      case DeleteSchedule(slot) =>
      case _ => hide CleanTables;
    }
  }

  /** Cutting at a NUL and storing a day keep a text clean. */
  lemma CutIsClean(t: Text)
    requires CleanText(t)
    ensures CleanCell(CString(t))
  {
    assert forall b :: b in CString(t) ==> b in t;
  }

  lemma StoredIsClean(f: seq<Text>, day: Text -> Text)
    requires |f| >= 8 && CleanFields(f) && NumericAffinity(day)
    ensures CleanRow(Stored(CourseOf(f), day))
  {
    forall i | 0 <= i < 8 ensures CleanCell(CString(f[i])) {
      assert f[i] in f;
      CutIsClean(f[i]);
    }
    assert CleanCell(day(CString(f[4])));
    hide CString;
    hide CleanCell;
    hide CleanFields;
  }

  /** What every statement a request can cause preserves. */
  ghost predicate PreservedBy(p: Tables -> bool, f: seq<Text>, day: Text -> Text) {
    && (forall key :: Preserves(p, DeleteCourse(key)))
    && (|f| >= 8 ==>
          var row := Stored(CourseOf(f), day);
          && Preserves(p, UpsertCourse(row)) && Preserves(p, UpsertSchedule(row))
          && Preserves(p, UpdateCourse(row)) && Preserves(p, UpdateSchedule(row)))
  }

  lemma CourseHandlersKeep(p: Tables -> bool, lib: Library, fn: HandlerFn, s: Session, st: Store, f: seq<Text>,
      env: Env)
    requires fn in {FnAdd, FnUpdate, FnDelete} && Holds(p, st.courses) && PreservedBy(p, f, env.engine.day)
    ensures Holds(p, Handle(lib, fn, s, st, f, env).store.courses)
  {
    hide Preserves;
    hide CanBeSent;
    hide Stored;
    hide StoredKey;
    hide Transact;
    hide Single;
    hide HandleLogin;
    hide HandleQuery;
    hide HandleViewAll;
    hide HandleViewPage;
    hide HandleAdminList;
    hide HandleAdminCreate;
    hide HandleAdminUpdate;
    hide HandleAdminDelete;
    if fn == FnDelete {
      if |f| >= 2 {
        SingleKeeps(p, st.courses, DeleteCourse(StoredKey(CourseKey(f[0], f[1]))), env.engine);
      }
    } else if |f| >= 8 {
      var row := Stored(CourseOf(f), env.engine.day);
      TransactKeeps(p, st.courses, UpsertCourse(row), UpsertSchedule(row), env.engine);
      TransactKeeps(p, st.courses, UpdateCourse(row), UpdateSchedule(row), env.engine);
    }
  }

  /** The handlers that manage accounts leave courses and schedules alone. */
  lemma AccountHandlersKeepCourses(lib: Library, fn: HandlerFn, s: Session, st: Store, f: seq<Text>, env: Env)
    requires fn in {FnAdminList, FnAdminCreate, FnAdminUpdate, FnAdminDelete}
    ensures Handle(lib, fn, s, st, f, env).store.courses == st.courses
  {
    hide InsertAdmin;
    hide Rename;
    hide RemoveAdmin;
    hide ListUsernames;
    hide Exists;
    hide CanBeSent;
    hide HandleLogin;
    hide HandleQuery;
    hide HandleViewAll;
    hide HandleViewPage;
    hide HandleAdd;
    hide HandleUpdate;
    hide HandleDelete;
    hide SerializeNames;
  }

  /** Names of accounts come from the table before or are request fields, up to a NUL. */
  lemma NamesComeFromFields(lib: Library, fn: HandlerFn, s: Session, st: Store, f: seq<Text>, env: Env)
    ensures forall u :: u in Handle(lib, fn, s, st, f, env).store.admins.table.Keys ==>
      u in st.admins.table.Keys || exists x :: x in f && u == CString(x)
  {
    hide HandleLogin;
    hide HandleAdminCreate;
    hide HandleAdminUpdate;
    hide HandleAdminDelete;
    hide CString;
    hide ToStore;
    match fn {
      case FnLogin => LoginNames(lib, s, st, f, env);
      case FnAdminCreate => CreateNames(lib, s, st, f, env);
      case FnAdminUpdate => AdminUpdateNames(lib, State(s, st), f, env);
      case FnAdminDelete => DeleteNames(s, st, f, env);
      case _ => AccountsUntouched(lib, fn, s, st, f, env); hide Handle;
    }
    hide Rename;
    hide PasswordLost;
  }

  lemma NamesStayClean(lib: Library, fn: HandlerFn, s: Session, st: Store, f: seq<Text>, env: Env)
    requires CleanNames(st.admins.table) && CleanFields(f)
    ensures CleanNames(Handle(lib, fn, s, st, f, env).store.admins.table)
  {
    NamesComeFromFields(lib, fn, s, st, f, env);
    hide Handle;
    var after := Handle(lib, fn, s, st, f, env).store.admins.table;
    forall u | u in after.Keys ensures Free(u, RECORD_SEP) {
      if u !in st.admins.table.Keys {
        var x :| x in f && u == CString(x);
        CutIsClean(x);
      }
    }
  }

  lemma HandlersKeep(p: Tables -> bool, lib: Library, fn: HandlerFn, s: Session, st: Store, f: seq<Text>, env: Env)
    requires Holds(p, st.courses) && PreservedBy(p, f, env.engine.day)
    ensures Holds(p, Handle(lib, fn, s, st, f, env).store.courses)
  {
    hide Handle;
    hide PreservedBy;
    hide Reencoded;
    if OpenToAll(fn) {
      OpenHandlerStore(lib, fn, s, st, f, env);
    } else if fn in {FnAdd, FnUpdate, FnDelete} {
      CourseHandlersKeep(p, lib, fn, s, st, f, env);
    } else {
      AccountHandlersKeepCourses(lib, fn, s, st, f, env);
    }
  }

  /** What its statements preserve, a request keeps of the tables, current or to be restored. */
  lemma DispatchKeeps(p: Tables -> bool, lib: Library, s: Session, st: Store, cmd: uint32, f: seq<Text>, env: Env)
    requires Holds(p, st.courses) && PreservedBy(p, f, env.engine.day)
    ensures Holds(p, Dispatch(lib, SERVER_TABLE, s, st, cmd, f, env).store.courses)
  {
    hide RegisterAll;
    hide Handle;
    hide PreservedBy;
    if cmd in SERVER_TABLE {
      HandlersKeep(p, lib, SERVER_TABLE[cmd].fn, s, st, f, env);
    }
  }

  lemma CleanIsPreserved(f: seq<Text>, day: Text -> Text)
    requires CleanFields(f) && NumericAffinity(day)
    ensures PreservedBy(CleanTables, f, day)
  {
    hide Preserves;
    hide CleanFields;
    hide Stored;
    hide NumericAffinity;
    forall key ensures Preserves(CleanTables, DeleteCourse(key)) {
      CleanStatementsPreserveClean(DeleteCourse(key));
    }
    if |f| >= 8 {
      StoredIsClean(f, day);
      var row := Stored(CourseOf(f), day);
      hide CleanRow;
      CleanStatementsPreserveClean(UpsertCourse(row));
      CleanStatementsPreserveClean(UpsertSchedule(row));
      CleanStatementsPreserveClean(UpdateCourse(row));
      CleanStatementsPreserveClean(UpdateSchedule(row));
    }
  }

  lemma DispatchKeepsClean(lib: Library, s: Session, st: Store, cmd: uint32, f: seq<Text>, env: Env)
    requires CleanStore(st) && CleanFields(f) && NumericAffinity(env.engine.day)
    ensures CleanStore(Dispatch(lib, SERVER_TABLE, s, st, cmd, f, env).store)
  {
    CleanIsPreserved(f, env.engine.day);
    DispatchKeeps(CleanTables, lib, s, st, cmd, f, env);
    hide RegisterAll;
    hide Handle;
    hide CleanTables;
    hide CleanNames;
    hide CleanFields;
    if cmd in SERVER_TABLE {
      NamesStayClean(lib, SERVER_TABLE[cmd].fn, s, st, f, env);
    }
  }
}
