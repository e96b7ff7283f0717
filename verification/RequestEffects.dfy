/** What a request achieves, as later requests of any client can tell: the handlers against the views and the logins. */
module RequestEffects {
  import opened Bytes
  import opened Decimal
  import opened MessagePb
  import opened Commands
  import opened PasswordHash
  import opened CourseTables
  import opened CourseViews
  import opened CourseStore
  import opened Administrators
  import opened ListCodec
  import opened Handlers
  import opened Authority
  import opened AccountSafety

  /** Every text of every row is free of both separators, and of NUL, as bound texts are. */
  ghost predicate CleanTables(t: Tables) {
    && (forall k :: k in t.courses ==> CleanInfo(t.courses[k]))
    && (forall k :: k in t.schedules ==> CleanSlot(k) && CleanCell(t.schedules[k]))
  }

  predicate CleanInfo(i: CourseInfo) { CleanCell(i.title) && CleanCell(i.instructor) }

  predicate CleanSlot(k: ScheduleKey) {
    CleanCell(k.code) && CleanCell(k.section) && CleanCell(k.day) && CleanCell(k.duration) && CleanCell(k.semester)
  }

  predicate CleanText(s: Text) { Free(s, RECORD_SEP) && Free(s, FIELD_SEP) }

  predicate CleanCell(s: Text) { CleanText(s) && Free(s, NUL) }

  lemma CleanParts(c: Course)
    requires CleanSlot(SlotOf(c)) && CleanInfo(InfoOf(c)) && CleanCell(c.classroom)
    ensures Clean(c)
  {
  }

  lemma CleanRows(like: Like, t: Tables, q: Query)
    requires CleanTables(t)
    ensures forall c :: c in Rows(like, t, q) ==> Clean(c)
  {
    var rows := Rows(like, t, q);
    forall c | c in rows ensures Clean(c) {
      var i :| 0 <= i < |rows| && rows[i] == c;
      RowsAt(like, t, q, i);
      assert c == RowOf(t, SlotOf(c));
      assert SlotOf(c) in t.schedules && Parent(SlotOf(c)) in t.courses;
      hide Rows;
      hide CleanSlot;
      hide CleanInfo;
      hide CleanCell;
      hide Clean;
      CleanParts(c);
    }
  }

  /** The store is open and no transaction hangs; the normal state between requests. */
  ghost predicate Ready(st: Store) {
    Idle(st.courses) && st.admins.isOpen && ForeignKey(st.courses.tables)
  }

  /** The rows a client gets back when it parses the payload of a query response. */
  function RowsSeen(resp: Response): seq<Course> { ParseCourses(resp.payload) }

  function Send(lib: Library, s: Session, st: Store, cmd: uint32, f: seq<Text>, env: Env): Effect {
    Dispatch(lib, SERVER_TABLE, s, st, cmd, f, env)
  }

  lemma TableRows()
    ensures SERVER_TABLE[CMD_LOGIN_REQ] == Entry(STUDENT, FnLogin)
    ensures CMD_QUERY_BY_CODE_REQ in SERVER_TABLE && SERVER_TABLE[CMD_QUERY_BY_CODE_REQ] == Entry(STUDENT, FnQueryCode)
    ensures CMD_QUERY_BY_INSTRUCTOR_REQ in SERVER_TABLE
        && SERVER_TABLE[CMD_QUERY_BY_INSTRUCTOR_REQ] == Entry(STUDENT, FnQueryInstructor)
    ensures CMD_QUERY_BY_SEMESTER_REQ in SERVER_TABLE
        && SERVER_TABLE[CMD_QUERY_BY_SEMESTER_REQ] == Entry(STUDENT, FnQuerySemester)
    ensures CMD_VIEW_ALL_REQ in SERVER_TABLE && SERVER_TABLE[CMD_VIEW_ALL_REQ] == Entry(STUDENT, FnViewAll)
    ensures CMD_VIEW_ALL_PAGE_REQ in SERVER_TABLE
        && SERVER_TABLE[CMD_VIEW_ALL_PAGE_REQ] == Entry(STUDENT, FnViewAllPage)
    ensures CMD_ADD_REQ in SERVER_TABLE && SERVER_TABLE[CMD_ADD_REQ] == Entry(ADMIN, FnAdd)
    ensures CMD_UPDATE_REQ in SERVER_TABLE && SERVER_TABLE[CMD_UPDATE_REQ] == Entry(ADMIN, FnUpdate)
    ensures CMD_DELETE_REQ in SERVER_TABLE && SERVER_TABLE[CMD_DELETE_REQ] == Entry(ADMIN, FnDelete)
    ensures CMD_ADMIN_LIST_REQ in SERVER_TABLE && SERVER_TABLE[CMD_ADMIN_LIST_REQ] == Entry(ADMIN, FnAdminList)
    ensures CMD_ADMIN_CREATE_REQ in SERVER_TABLE && SERVER_TABLE[CMD_ADMIN_CREATE_REQ] == Entry(ADMIN, FnAdminCreate)
    ensures CMD_ADMIN_UPDATE_REQ in SERVER_TABLE && SERVER_TABLE[CMD_ADMIN_UPDATE_REQ] == Entry(ADMIN, FnAdminUpdate)
    ensures CMD_ADMIN_DELETE_REQ in SERVER_TABLE && SERVER_TABLE[CMD_ADMIN_DELETE_REQ] == Entry(ADMIN, FnAdminDelete)
  {
  }

  /** An administrator's requests about courses reach their handlers. */
  lemma CourseRequests(lib: Library, s: Session, st: Store, f: seq<Text>, env: Env)
    requires s.role == ADMIN
    ensures Send(lib, s, st, CMD_ADD_REQ, f, env) == HandleAdd(s, st, f, env)
    ensures Send(lib, s, st, CMD_UPDATE_REQ, f, env) == HandleUpdate(s, st, f, env)
    ensures Send(lib, s, st, CMD_DELETE_REQ, f, env) == HandleDelete(s, st, f, env)
  {
    TableRows();
    hide RegisterAll;
    hide HandleAdd;
    hide HandleUpdate;
    hide HandleDelete;
  }

  /** An administrator's requests about accounts reach their handlers. */
  lemma AccountRequests(lib: Library, s: Session, st: Store, f: seq<Text>, env: Env)
    requires s.role == ADMIN
    ensures Send(lib, s, st, CMD_ADMIN_LIST_REQ, f, env) == HandleAdminList(s, st, env)
    ensures Send(lib, s, st, CMD_ADMIN_CREATE_REQ, f, env) == HandleAdminCreate(lib, s, st, f, env)
    ensures Send(lib, s, st, CMD_ADMIN_UPDATE_REQ, f, env) == HandleAdminUpdate(lib, s, st, f, env)
    ensures Send(lib, s, st, CMD_ADMIN_DELETE_REQ, f, env) == HandleAdminDelete(s, st, f, env)
  {
    TableRows();
    hide RegisterAll;
    hide HandleAdminList;
    hide HandleAdminCreate;
    hide HandleAdminUpdate;
    hide HandleAdminDelete;
  }

  // ---- queries ----

  /** The query behind a query command, if its argument is acceptable. */
  function QueryOf(cmd: uint32, f: seq<Text>): Option<Query> {
    if cmd == CMD_VIEW_ALL_REQ then Some(All)
    else if FieldAt(f, 0) == [] then None
    else if cmd == CMD_QUERY_BY_CODE_REQ then Some(ByCode(f[0]))
    else if cmd == CMD_QUERY_BY_INSTRUCTOR_REQ then Some(ByInstructor(f[0]))
    else if cmd == CMD_QUERY_BY_SEMESTER_REQ then Some(BySemester(f[0]))
    else None
  }

  /** An answered query changes nothing and its rows survive the trip. */
  lemma AnsweredRows(s: Session, st: Store, rows: seq<Course>)
    requires st.courses.isOpen && forall c :: c in rows ==> Clean(c)
    ensures var e := AnswerRows(s, st, rows, Complete);
      e.session == s && e.store == st && e.resp.cmdType == CMD_QUERY_RESP && RowsSeen(e.resp) == rows
  {
    ParseOfSerializeCourses(rows);
    hide SerializeCourses;
    hide ParseCourses;
    hide Clean;
  }

  lemma QueryIsAnswered(lib: Library, s: Session, st: Store, cmd: uint32, f: seq<Text>, env: Env)
    requires QueryOf(cmd, f).Some?
    ensures Send(lib, s, st, cmd, f, env) ==
        AnswerRows(s, st, Rows(lib.like, st.courses.tables, QueryOf(cmd, f).value), env.cursor)
  {
    TableRows();
    hide RegisterAll;
    hide AnswerRows;
    hide Rows;
  }

  /** A query that runs to its end shows each row of the join that satisfies it once, in order, and nothing else. */
  lemma QueryShowsMatchingRows(lib: Library, s: Session, st: Store, cmd: uint32, f: seq<Text>, env: Env)
    requires QueryOf(cmd, f).Some? && st.courses.isOpen && env.cursor.Complete? && CleanTables(st.courses.tables)
    ensures var e := Send(lib, s, st, cmd, f, env);
      var q := QueryOf(cmd, f).value;
      && e.resp.cmdType == CMD_QUERY_RESP && e.session == s && e.store == st
      && RowsSeen(e.resp) == Rows(lib.like, st.courses.tables, q)
      && (forall c :: multiset(RowsSeen(e.resp))[c] == if IsRow(lib.like, st.courses.tables, q, c) then 1 else 0)
  {
    hide Send;
    hide AnswerRows;
    hide Rows;
    hide IsRow;
    hide RowsSeen;
    hide Clean;
    hide CleanTables;
    QueryIsAnswered(lib, s, st, cmd, f, env);
    EachRowOnce(lib.like, st.courses.tables, QueryOf(cmd, f).value);
    CleanRows(lib.like, st.courses.tables, QueryOf(cmd, f).value);
    AnsweredRows(s, st, Rows(lib.like, st.courses.tables, QueryOf(cmd, f).value));
  }

  /** A query by code shows the rows of the full view with that code, each once; ... */
  lemma CodeQueryShows(lib: Library, s: Session, st: Store, x: Text, env: Env)
    requires x != [] && st.courses.isOpen && env.cursor.Complete? && CleanTables(st.courses.tables)
    ensures var view := RowsSeen(Send(lib, s, st, CMD_VIEW_ALL_REQ, [], env).resp);
      var seen := RowsSeen(Send(lib, s, st, CMD_QUERY_BY_CODE_REQ, [x], env).resp);
      forall c :: multiset(seen)[c] == if c in view && c.code == CString(x) then 1 else 0
  {
    QueryShowsOfView(lib, s, st, CMD_QUERY_BY_CODE_REQ, x, env);
    forall c ensures IsRow(lib.like, st.courses.tables, ByCode(x), c) <==>
      IsRow(lib.like, st.courses.tables, All, c) && c.code == CString(x)
    {
      QueryRows(lib.like, st.courses.tables, x, c);
    }
    hide Send;
    hide IsRow;
    hide RowsSeen;
    hide CString;
  }

  /** ... a query by instructor those whose instructor is LIKE the argument between percent signs; ... */
  lemma InstructorQueryShows(lib: Library, s: Session, st: Store, x: Text, env: Env)
    requires x != [] && st.courses.isOpen && env.cursor.Complete? && CleanTables(st.courses.tables)
    ensures var view := RowsSeen(Send(lib, s, st, CMD_VIEW_ALL_REQ, [], env).resp);
      var seen := RowsSeen(Send(lib, s, st, CMD_QUERY_BY_INSTRUCTOR_REQ, [x], env).resp);
      forall c :: multiset(seen)[c] ==
        if c in view && lib.like(CString([PERCENT] + x + [PERCENT]), c.instructor) then 1 else 0
  {
    QueryShowsOfView(lib, s, st, CMD_QUERY_BY_INSTRUCTOR_REQ, x, env);
    forall c ensures IsRow(lib.like, st.courses.tables, ByInstructor(x), c) <==>
      IsRow(lib.like, st.courses.tables, All, c) && lib.like(CString([PERCENT] + x + [PERCENT]), c.instructor)
    {
      QueryRows(lib.like, st.courses.tables, x, c);
    }
    hide Send;
    hide IsRow;
    hide RowsSeen;
    hide CString;
  }

  /** ... and a query by semester those of that semester. */
  lemma SemesterQueryShows(lib: Library, s: Session, st: Store, x: Text, env: Env)
    requires x != [] && st.courses.isOpen && env.cursor.Complete? && CleanTables(st.courses.tables)
    ensures var view := RowsSeen(Send(lib, s, st, CMD_VIEW_ALL_REQ, [], env).resp);
      var seen := RowsSeen(Send(lib, s, st, CMD_QUERY_BY_SEMESTER_REQ, [x], env).resp);
      forall c :: multiset(seen)[c] == if c in view && c.semester == CString(x) then 1 else 0
  {
    QueryShowsOfView(lib, s, st, CMD_QUERY_BY_SEMESTER_REQ, x, env);
    forall c ensures IsRow(lib.like, st.courses.tables, BySemester(x), c) <==>
      IsRow(lib.like, st.courses.tables, All, c) && c.semester == CString(x)
    {
      QueryRows(lib.like, st.courses.tables, x, c);
    }
    hide Send;
    hide IsRow;
    hide RowsSeen;
    hide CString;
  }

  lemma QueryShowsOfView(lib: Library, s: Session, st: Store, cmd: uint32, x: Text, env: Env)
    requires QueryOf(cmd, [x]).Some? && st.courses.isOpen && env.cursor.Complete? && CleanTables(st.courses.tables)
    ensures var view := RowsSeen(Send(lib, s, st, CMD_VIEW_ALL_REQ, [], env).resp);
      var seen := RowsSeen(Send(lib, s, st, cmd, [x], env).resp);
      && (forall c :: c in view <==> IsRow(lib.like, st.courses.tables, All, c))
      && (forall c :: multiset(seen)[c] ==
            if IsRow(lib.like, st.courses.tables, QueryOf(cmd, [x]).value, c) then 1 else 0)
  {
    hide Send;
    hide IsRow;
    hide RowsSeen;
    hide CleanTables;
    QueryShowsMatchingRows(lib, s, st, CMD_VIEW_ALL_REQ, [], env);
    QueryShowsMatchingRows(lib, s, st, cmd, [x], env);
    var view := RowsSeen(Send(lib, s, st, CMD_VIEW_ALL_REQ, [], env).resp);
    forall c ensures c in view <==> IsRow(lib.like, st.courses.tables, All, c) {
      assert c in view <==> multiset(view)[c] > 0;
    }
  }

  /** An answer holds the rows up to where the engine stopped, and they survive the trip. */
  lemma AnsweredPrefix(s: Session, st: Store, rows: seq<Course>, cur: Cursor)
    requires forall c :: c in rows ==> Clean(c)
    ensures var e := AnswerRows(s, st, rows, cur);
      var n := if !st.courses.isOpen || cur.PrepareFails? then 0
               else if cur.BreaksAfter? && cur.n < |rows| then cur.n else |rows|;
      && e.resp.cmdType == CMD_QUERY_RESP && e.session == s && e.store.admins == st.admins
      && e.store.courses.tables == st.courses.tables && RowsSeen(e.resp) == rows[..n]
  {
    hide SerializeCourses;
    hide ParseCourses;
    hide Clean;
    var seen := Ask(st.courses, rows, cur).1;
    assert seen <= rows && forall c :: c in seen ==> c in rows;
    ParseOfSerializeCourses(seen);
  }

  /** Whatever the engine does, a query answers with the rows up to where it stopped, and says nothing of an error. */
  lemma BrokenQueryShowsPrefix(lib: Library, s: Session, st: Store, cmd: uint32, f: seq<Text>, env: Env)
    requires QueryOf(cmd, f).Some? && CleanTables(st.courses.tables)
    ensures var e := Send(lib, s, st, cmd, f, env);
      var rows := Rows(lib.like, st.courses.tables, QueryOf(cmd, f).value);
      var n := if !st.courses.isOpen || env.cursor.PrepareFails? then 0
               else if env.cursor.BreaksAfter? && env.cursor.n < |rows| then env.cursor.n else |rows|;
      && e.resp.cmdType == CMD_QUERY_RESP && e.session == s && e.store.admins == st.admins
      && e.store.courses.tables == st.courses.tables && RowsSeen(e.resp) == rows[..n]
  {
    hide Send;
    hide AnswerRows;
    hide Rows;
    hide RowsSeen;
    hide Clean;
    hide CleanTables;
    QueryIsAnswered(lib, s, st, cmd, f, env);
    CleanRows(lib.like, st.courses.tables, QueryOf(cmd, f).value);
    AnsweredPrefix(s, st, Rows(lib.like, st.courses.tables, QueryOf(cmd, f).value), env.cursor);
  }

  // ---- pages ----

  /**
   * Numbers as the client writes them are read back, and clamped: negative offsets to 0, limits outside 1..1000 to 200.
   */
  lemma PageBoundsOfNumbers(offset: int, limit: int)
    requires INT_MIN <= offset <= INT_MAX && INT_MIN <= limit <= INT_MAX
    ensures PageBounds([ToText(offset), ToText(limit)]) ==
      (if offset < 0 then 0 else offset, if 1 <= limit <= 1000 then limit else 200)
  {
    StoiOfToText(offset);
    StoiOfToText(limit);
  }

  lemma PageIsAnswered(lib: Library, s: Session, st: Store, f: seq<Text>, env: Env)
    ensures Send(lib, s, st, CMD_VIEW_ALL_PAGE_REQ, f, env) ==
      AnswerRows(s, st, Slice(Rows(lib.like, st.courses.tables, All), PageBounds(f).0, PageBounds(f).1), env.cursor)
  {
    TableRows();
    hide RegisterAll;
    hide AnswerRows;
    hide Rows;
    hide Slice;
  }

  /** A page request shows the slice of the full view between its clamped bounds. */
  lemma PageShowsSlice(lib: Library, s: Session, st: Store, f: seq<Text>, env: Env)
    requires st.courses.isOpen && env.cursor.Complete? && CleanTables(st.courses.tables)
    ensures var e := Send(lib, s, st, CMD_VIEW_ALL_PAGE_REQ, f, env);
      && e.resp.cmdType == CMD_QUERY_RESP && e.session == s && e.store == st
      && RowsSeen(e.resp) == Slice(Rows(lib.like, st.courses.tables, All), PageBounds(f).0, PageBounds(f).1)
  {
    hide Send;
    hide AnswerRows;
    hide Rows;
    hide RowsSeen;
    hide Clean;
    hide CleanTables;
    hide PageBounds;
    PageIsAnswered(lib, s, st, f, env);
    CleanRows(lib.like, st.courses.tables, All);
    AnsweredRows(s, st, Slice(Rows(lib.like, st.courses.tables, All), PageBounds(f).0, PageBounds(f).1));
  }

  /** What the client parses from one page request. */
  function PageSeen(lib: Library, s: Session, st: Store, env: Env, offset: nat, limit: int): seq<Course> {
    RowsSeen(Send(lib, s, st, CMD_VIEW_ALL_PAGE_REQ, [ToText(offset), ToText(limit)], env).resp)
  }

  /**
   * Paging agrees with the full view: for every limit from 1 to 1000, a client that asks for page after page until it
   * gets an empty one has collected exactly what a single view-all request shows.
   */
  lemma PagesAgreeWithView(lib: Library, s: Session, st: Store, env: Env, limit: nat, calls: nat)
    requires st.courses.isOpen && env.cursor.Complete? && CleanTables(st.courses.tables)
    requires 1 <= limit <= 1000
    requires calls >= |Rows(lib.like, st.courses.tables, All)|
        && |Rows(lib.like, st.courses.tables, All)| + limit <= INT_MAX
    ensures PagesFrom((offset: nat) => PageSeen(lib, s, st, env, offset, limit), 0, limit, calls) ==
      RowsSeen(Send(lib, s, st, CMD_VIEW_ALL_REQ, [], env).resp)
  {
    hide Send;
    hide RowsSeen;
    hide Rows;
    hide IsRow;
    hide CleanTables;
    hide Slice;
    hide RegisterAll;
    hide PageBounds;
    hide ToText;
    var rows := Rows(lib.like, st.courses.tables, All);
    QueryShowsMatchingRows(lib, s, st, CMD_VIEW_ALL_REQ, [], env);
    var ask := (offset: nat) => PageSeen(lib, s, st, env, offset, limit);
    forall o: nat | o <= |rows| + limit ensures ask(o) == Slice(rows, o, limit) {
      PageShowsSlice(lib, s, st, [ToText(o), ToText(limit)], env);
      PageBoundsOfNumbers(o, limit);
    }
    PagesContinue(ask, rows, 0, limit, calls);
  }

  // ---- adding, updating and deleting courses ----

  predicate HasKey(f: seq<Text>) { |f| >= 8 && f[0] != [] && f[2] != [] }

  /**
   * The new title and instructor reach every row of the course, its slot gets the new classroom, the rest is untouched.
   */
  ghost predicate RowsAfterWrite(like: Like, t: Tables, t': Tables, c: Course, d: Course) {
    IsRow(like, t', All, d) <==>
      if SlotOf(d) == SlotOf(c) then d == c
      else if KeyOf(d) == KeyOf(c) then SlotOf(d) in t.schedules && d.classroom == t.schedules[SlotOf(d)]
          && InfoOf(d) == InfoOf(c)
      else IsRow(like, t, All, d)
  }

  /**
   * Adding: an administrator's complete request is answered OK exactly when the transaction goes through, and then
   * the view holds the course as bound, the course's other slots under the new title and instructor, and all else as
   * before.
   */
  lemma AddIsVisible(lib: Library, s: Session, st: Store, f: seq<Text>, env: Env)
    requires s.role == ADMIN && HasKey(f) && Ready(st)
    ensures var e := Send(lib, s, st, CMD_ADD_REQ, f, env);
      var c := Stored(Course(f[0], f[1], f[2], f[3], f[4], f[5], f[6], f[7]), env.engine.day);
      && e.session == s && e.store.admins == st.admins
      && (e.resp == Response(CMD_ADMIN_RESP, OK) <==> AllDone(env.engine))
      && (AllDone(env.engine) ==> Ready(e.store) && forall d :: RowsAfterWrite(lib.like, st.courses.tables,
            e.store.courses.tables, c, d))
      && (!AllDone(env.engine) && !RollbackLost(env.engine) ==>
            e.store.courses.tables == st.courses.tables && Ready(e.store))
      && (!AllDone(env.engine) ==>
            e.resp == Response(CMD_SERVER_ERROR, Ascii("Failed to insert course: ") + FailureText(env.engine)))
  {
    hide RegisterAll;
    hide Send;
    hide Ascii;
    hide Stored;
    hide InsertOrReplace;
    hide Inserted;
    hide RollbackLost;
    hide CanBeSent;
    hide HandleUpdate;
    hide HandleDelete;
    var c := CourseOf(f);
    CourseRequests(lib, s, st, f, env);
    InsertEnds(st.courses, c, env.engine);
    CallKeepsForeignKey(st.courses, Insert(c), env.engine);
    InsertedView(lib.like, st.courses.tables, Stored(c, env.engine.day));
    hide RowsAfterWrite;
    hide ForeignKey;
  }

  /** The view of the tables after an insert. */
  lemma InsertedView(like: Like, t: Tables, c: Course)
    requires ForeignKey(t)
    ensures forall d :: RowsAfterWrite(like, t, Inserted(t, c), c, d)
  {
  }

  /** As after a write, but a slot that was not there still is not. */
  ghost predicate RowsAfterUpdate(like: Like, t: Tables, t': Tables, c: Course, d: Course) {
    IsRow(like, t', All, d) <==>
      if SlotOf(d) == SlotOf(c) then SlotOf(c) in t.schedules && d == c
      else if KeyOf(d) == KeyOf(c) then SlotOf(d) in t.schedules && d.classroom == t.schedules[SlotOf(d)]
          && InfoOf(d) == InfoOf(c)
      else IsRow(like, t, All, d)
  }

  /** Updating: as adding, except that a request never creates a slot or a course. */
  lemma UpdateIsVisible(lib: Library, s: Session, st: Store, f: seq<Text>, env: Env)
    requires s.role == ADMIN && HasKey(f) && Ready(st)
    ensures var e := Send(lib, s, st, CMD_UPDATE_REQ, f, env);
      var c := Stored(Course(f[0], f[1], f[2], f[3], f[4], f[5], f[6], f[7]), env.engine.day);
      && e.session == s && e.store.admins == st.admins
      && (e.resp == Response(CMD_ADMIN_RESP, OK) <==> AllDone(env.engine))
      && (AllDone(env.engine) ==> Ready(e.store) && forall d :: RowsAfterUpdate(lib.like, st.courses.tables,
            e.store.courses.tables, c, d))
      && (!AllDone(env.engine) && !RollbackLost(env.engine) ==>
            e.store.courses.tables == st.courses.tables && Ready(e.store))
      && (!AllDone(env.engine) ==>
            e.resp == Response(CMD_SERVER_ERROR, Ascii("Failed to update course: ") + FailureText(env.engine)))
  {
    hide RegisterAll;
    hide Send;
    hide Ascii;
    hide Stored;
    hide Update;
    hide Updated;
    hide RollbackLost;
    hide CanBeSent;
    hide HandleAdd;
    hide HandleDelete;
    var c := CourseOf(f);
    CourseRequests(lib, s, st, f, env);
    UpdateEnds(st.courses, c, env.engine);
    CallKeepsForeignKey(st.courses, Change(c), env.engine);
    UpdatedView(lib.like, st.courses.tables, Stored(c, env.engine.day));
    hide RowsAfterUpdate;
    hide ForeignKey;
  }

  /** The view of the tables after an update. */
  lemma UpdatedView(like: Like, t: Tables, c: Course)
    requires ForeignKey(t)
    ensures forall d :: RowsAfterUpdate(like, t, Updated(t, c), c, d)
  {
  }

  ghost predicate RowsAfterDelete(like: Like, t: Tables, t': Tables, key: CourseKey, d: Course) {
    IsRow(like, t', All, d) <==> IsRow(like, t, All, d) && KeyOf(d) != key
  }

  /** Deleting: the view loses exactly the rows of that course. */
  lemma DeleteIsVisible(lib: Library, s: Session, st: Store, f: seq<Text>, env: Env)
    requires s.role == ADMIN && |f| >= 2 && f[0] != [] && f[1] != [] && Ready(st)
    ensures var e := Send(lib, s, st, CMD_DELETE_REQ, f, env);
      && e.session == s && e.store.admins == st.admins && Ready(e.store)
      && (e.resp == Response(CMD_ADMIN_RESP, OK) <==> env.engine.first.Done?)
      && (env.engine.first.Done? ==> forall d :: RowsAfterDelete(lib.like, st.courses.tables, e.store.courses.tables,
            CourseKey(CString(f[0]), CString(f[1])), d))
      && (!env.engine.first.Done? ==> e.store.courses.tables == st.courses.tables)
      && (!env.engine.first.Done? ==>
            e.resp == Response(CMD_SERVER_ERROR, Ascii("Failed to delete course: ") + env.engine.first.msg))
  {
    hide RegisterAll;
    hide Send;
    hide Ascii;
    hide CString;
    hide Delete;
    hide Deleted;
    hide CanBeSent;
    hide HandleAdd;
    hide HandleUpdate;
    var key := CourseKey(f[0], f[1]);
    CourseRequests(lib, s, st, f, env);
    DeleteCascades(st.courses, key, env.engine);
    if env.engine.first.Done? {
      DeleteEnds(st.courses, key, env.engine);
      DeletedView(lib.like, st.courses.tables, StoredKey(key));
    }
    CallKeepsForeignKey(st.courses, Remove(key), env.engine);
    hide RowsAfterDelete;
    hide WithoutCourse;
    hide ForeignKey;
  }

  /** The view of the tables after a delete. */
  lemma DeletedView(like: Like, t: Tables, key: CourseKey)
    requires ForeignKey(t)
    ensures forall d :: RowsAfterDelete(like, t, Deleted(t, key), key, d)
  {
  }

  // ---- logging in and managing accounts ----

  /**
   * A login request is granted exactly when the table can be read and accepts the pair, the name up to a NUL, and then
   * the session is an administrator's under the name as sent; else an error is answered and the session stays.
   */
  lemma LoginIsGranted(lib: Library, s: Session, st: Store, u: Text, p: Text, env: Env)
    requires u != [] && p != []
    ensures var e := Send(lib, s, st, CMD_LOGIN_REQ, [u, p], env);
      var granted := st.admins.isOpen && env.first.fetch && LogsIn(lib.kdf, st.admins.table, CString(u), p);
      && e.resp == (if granted then Response(CMD_LOGIN_RESP, Ascii("OK"))
                    else Response(CMD_ERROR, Ascii("Invalid username or password")))
      && e.session == (if granted then Session(ADMIN, u) else s)
      && e.store.courses == st.courses
      && (forall v, q :: LogsIn(lib.kdf, st.admins.table, v, q) ==> LogsIn(lib.kdf, e.store.admins.table, v, q))
  {
    TableRows();
    TableEntries(CMD_LOGIN_REQ);
    hide RegisterAll;
    LoginSucceedsWhenAccepted(lib.kdf, st.admins, u, p, env.first);
    LoginKeepsLogins(lib.kdf, st.admins, u, p, env.first);
    hide VerifyLogin;
    hide LogsIn;
    hide CString;
    hide Ascii;
  }

  /** Creating an account whose name, up to a NUL, is free: its password, if not given encoded, logs in afterwards. */
  lemma CreatedAccountLogsIn(lib: Library, s: Session, st: Store, u: Text, p: Text, env: Env)
    requires s.role == ADMIN && u != [] && p != [] && !IsEncoded(p)
    ensures var e := Send(lib, s, st, CMD_ADMIN_CREATE_REQ, [u, p], env);
      var name := CString(u);
      && e.session == s && e.store.courses == st.courses
      && (e.resp == Response(CMD_ADMIN_RESP, OK) <==>
            && !(env.first.existsOld && name in st.admins.table)
            && st.admins.isOpen && ToStore(lib.kdf, p, env.second.salt) != [] && env.second.write.Done?)
      && (e.resp == Response(CMD_ADMIN_RESP, OK) ==>
            LogsIn(lib.kdf, e.store.admins.table, name, p)
                && OthersAlike(st.admins.table, e.store.admins.table, {name}))
      && (e.resp != Response(CMD_ADMIN_RESP, OK) ==> e.resp.cmdType in {CMD_ERROR, CMD_SERVER_ERROR})
      && (e.resp != Response(CMD_ADMIN_RESP, OK) ==> e.store.admins.table == st.admins.table)
      && (Exists(st.admins, u, env.first.existsOld) ==> e.resp == Response(CMD_ERROR, ALREADY_EXISTS))
  {
    hide RegisterAll;
    hide Send;
    hide InsertAdmin;
    hide LogsIn;
    hide IsEncoded;
    hide CString;
    hide CanBeSent;
    hide ToStore;
    AccountRequests(lib, s, st, [u, p], env);
    InsertedPasswordWorks(lib.kdf, st.admins, u, p, env.second);
    InsertKeepsNames(lib.kdf, st.admins, u, p, env.second);
  }

  /**
   * Renaming without a new password hands exactly the old name's logins to the new name; a session is told by its own
   * name as sent.
   */
  lemma RenamedAccountLogsIn(lib: Library, s: Session, st: Store, a: Text, b: Text, env: Env)
    requires s.role == ADMIN && a != [] && b != [] && a != b
    ensures var e := Send(lib, s, st, CMD_ADMIN_UPDATE_REQ, [a, b, []], env);
      var ok := env.first.fetch && RenameDone(st.admins, a, b, env.first);
      var before, after := st.admins.table, e.store.admins.table;
      && e.store.courses == st.courses
      && (e.resp == Response(CMD_ADMIN_RESP, OK) <==> ok) && (!ok ==> e.resp.cmdType == CMD_ERROR)
      && (ok ==> (CString(a) != CString(b) ==> CString(a) !in after) && OthersAlike(before, after,
            {CString(a), CString(b)}))
      && (ok ==> forall q :: LogsIn(lib.kdf, after, CString(b), q) <==> LogsIn(lib.kdf, before, CString(a), q))
      && e.session == (if ok && s.name == a then s.(name := b) else s)
      && (!ok ==> after == before)
  {
    hide RegisterAll;
    hide Rename;
    hide InsertAdmin;
    hide LogsIn;
    hide CString;
    hide Send;
    AccountRequests(lib, s, st, [a, b, []], env);
    RenameTransfersLogins(lib.kdf, st.admins, a, b, env.first);
  }

  /** Changing only the password: OK exactly when the account is found and the new password hashed and written. */
  lemma ChangedPasswordLogsIn(lib: Library, s: Session, st: Store, u: Text, p: Text, env: Env)
    requires s.role == ADMIN && u != [] && p != [] && !IsEncoded(p)
    ensures var e := Send(lib, s, st, CMD_ADMIN_UPDATE_REQ, [u, u, p], env);
      var name := CString(u);
      var found := st.admins.isOpen && env.first.fetch && name in st.admins.table;
      && e.session == s && e.store.courses == st.courses
      && (e.resp == Response(CMD_ADMIN_RESP, OK) <==>
            found && ToStore(lib.kdf, p, env.second.salt) != [] && env.second.write.Done?)
      && (!found ==> e.resp == Response(CMD_ERROR, Ascii("Old username not found")))
      && (found && e.resp != Response(CMD_ADMIN_RESP, OK) ==> e.resp.cmdType == CMD_SERVER_ERROR)
      && (e.resp == Response(CMD_ADMIN_RESP, OK) ==> LogsIn(lib.kdf, e.store.admins.table, name, p))
      && (e.resp == Response(CMD_ADMIN_RESP, OK) ==> OthersAlike(st.admins.table, e.store.admins.table, {name}))
      && (e.resp != Response(CMD_ADMIN_RESP, OK) ==> e.store.admins.table == st.admins.table)
  {
    hide CanBeSent;
    hide OthersAlike;
    hide RegisterAll;
    hide InsertAdmin;
    hide Rename;
    hide LogsIn;
    hide IsEncoded;
    hide CString;
    hide Send;
    hide ToStore;
    hide Ascii;
    AccountRequests(lib, s, st, [u, u, p], env);
    InsertedPasswordWorks(lib.kdf, st.admins, u, p, env.second);
    InsertKeepsNames(lib.kdf, st.admins, u, p, env.second);
  }

  /**
   * Renaming with a new password, which takes two writes: both done, the new name logs in with the new password; only
   * the rename done, an error is answered, the new name has the old one's logins and the session is not told; else no
   * change.
   */
  lemma RenamedAccountGetsPassword(lib: Library, s: Session, st: Store, a: Text, b: Text, p: Text, env: Env)
    requires s.role == ADMIN && a != [] && b != [] && a != b && p != [] && !IsEncoded(p)
    ensures var e := Send(lib, s, st, CMD_ADMIN_UPDATE_REQ, [a, b, p], env);
      var renamed := env.first.fetch && RenameDone(st.admins, a, b, env.first);
      var written := renamed && ToStore(lib.kdf, p, env.second.salt) != [] && env.second.write.Done?;
      var before, after := st.admins.table, e.store.admins.table;
      && e.store.courses == st.courses
      && (e.resp == Response(CMD_ADMIN_RESP, OK) <==> written)
      && (renamed && !written ==> e.resp.cmdType == CMD_SERVER_ERROR) && (!renamed ==> e.resp.cmdType == CMD_ERROR)
      && (renamed ==> (CString(a) != CString(b) ==> CString(a) !in after) && OthersAlike(before, after,
            {CString(a), CString(b)}))
      && (written ==> LogsIn(lib.kdf, after, CString(b), p))
      && (renamed && !written ==>
            forall q :: LogsIn(lib.kdf, after, CString(b), q) <==> LogsIn(lib.kdf, before, CString(a), q))
      && (!renamed ==> after == before)
      && e.session == (if written && s.name == a then s.(name := b) else s)
  {
    hide RegisterAll;
    hide Rename;
    hide InsertAdmin;
    hide LogsIn;
    hide IsEncoded;
    hide ToStore;
    hide CString;
    hide Send;
    hide CanBeSent;
    hide OthersAlike;
    hide HandleAdminCreate;
    hide HandleAdminDelete;
    hide HandleAdd;
    hide HandleUpdate;
    hide HandleDelete;
    var r := Rename(st.admins, a, b, env.first).0;
    AccountRequests(lib, s, st, [a, b, p], env);
    RenameTransfersLogins(lib.kdf, st.admins, a, b, env.first);
    RenameNames(st.admins, a, b, env.first);
    InsertedPasswordWorks(lib.kdf, r, b, p, env.second);
    InsertKeepsNames(lib.kdf, r, b, p, env.second);
    OthersTwice(st.admins.table, r.table, InsertAdmin(lib.kdf, r, b, p, env.second).0.table, CString(a), CString(b));
  }

  lemma OthersTwice(t0: map<Text, Text>, t1: map<Text, Text>, t2: map<Text, Text>, a: Text, b: Text)
    ensures OthersAlike(t0, t1, {a, b}) && OthersAlike(t1, t2, {b}) ==> OthersAlike(t0, t2, {a, b})
    ensures a != b && a !in t1 && OthersAlike(t1, t2, {b}) ==> a !in t2
  {
  }

  /** Deleting an account: any name but the session's own as sent, and the account of that name up to a NUL. */
  lemma DeletedAccountIsGone(lib: Library, s: Session, st: Store, u: Text, env: Env)
    requires s.role == ADMIN && u != []
    ensures var e := Send(lib, s, st, CMD_ADMIN_DELETE_REQ, [u], env);
      var name := CString(u);
      var ok := u != s.name && st.admins.isOpen && env.first.write.Done? && name in st.admins.table;
      && e.session == s && e.store.courses == st.courses
      && (e.resp == Response(CMD_ADMIN_RESP, OK) <==> ok)
      && (!ok ==> e.resp.cmdType == CMD_ERROR)
      && (u == s.name ==> e.resp == Response(CMD_ERROR, Ascii("Cannot delete yourself")))
      && (ok ==> name !in e.store.admins.table && OthersAlike(st.admins.table, e.store.admins.table, {name}))
      && (!ok ==> e.store.admins.table == st.admins.table)
  {
    hide RegisterAll;
    hide Send;
    hide RemoveAdmin;
    hide CString;
    hide CanBeSent;
    AccountRequests(lib, s, st, [u], env);
    RemoveTakesOne(lib.kdf, st.admins, u, env.first);
  }

  /** Listing: a client reads back each account once, in order, exactly if no name is empty or holds a separator. */
  lemma ListShowsAccounts(lib: Library, s: Session, st: Store, env: Env)
    requires s.role == ADMIN && st.admins.isOpen && env.cursor.Complete?
    ensures var e := Send(lib, s, st, CMD_ADMIN_LIST_REQ, [], env);
      && e.session == s && e.store == st && e.resp.cmdType == CMD_ADMIN_LIST_RESP
      && (ParseNames(e.resp.payload) == SortedNames(st.admins.table) <==>
            [] !in st.admins.table && forall u :: u in st.admins.table ==> Free(u, RECORD_SEP))
  {
    hide RegisterAll;
    hide Send;
    hide SortedNames;
    hide ParseNames;
    hide SerializeNames;
    hide NamesIn;
    hide CanBeSent;
    AccountRequests(lib, s, st, [], env);
    NamesAreTheAccounts(st.admins.table);
    assert ListUsernames(st.admins, env.cursor) == (st.admins, SortedNames(st.admins.table));
    ParseOfSerializeNames(SortedNames(st.admins.table));
  }

  /** Whatever the engine does, the list holds the accounts up to where it stopped, and says nothing of an error. */
  lemma BrokenListShowsPrefix(lib: Library, s: Session, st: Store, env: Env)
    requires s.role == ADMIN && [] !in st.admins.table && forall u :: u in st.admins.table ==> Free(u, RECORD_SEP)
    ensures var e := Send(lib, s, st, CMD_ADMIN_LIST_REQ, [], env);
      var names := SortedNames(st.admins.table);
      var n := if !st.admins.isOpen || env.cursor.PrepareFails? then 0
               else if env.cursor.BreaksAfter? && env.cursor.n < |names| then env.cursor.n else |names|;
      && e.session == s && e.store.courses == st.courses && e.store.admins.table == st.admins.table
      && e.resp.cmdType == CMD_ADMIN_LIST_RESP && ParseNames(e.resp.payload) == names[..n]
  {
    hide RegisterAll;
    hide Send;
    hide SortedNames;
    hide ParseNames;
    hide SerializeNames;
    hide NamesIn;
    hide CanBeSent;
    AccountRequests(lib, s, st, [], env);
    NamesAreTheAccounts(st.admins.table);
    var names, listed := SortedNames(st.admins.table), ListUsernames(st.admins, env.cursor).1;
    assert listed <= names && forall u :: u in listed ==> u in names;
    ParseOfSerializeNames(listed);
  }
}
