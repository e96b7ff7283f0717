/**
 * Rows as binding leaves them: what a request stores and what it was sent with, and exactly when the two are the same.
 */
module BoundRows {
  import opened Bytes
  import opened Decimal
  import opened MessagePb
  import opened Commands
  import opened CourseTables
  import opened CourseViews
  import opened ListCodec
  import opened Handlers
  import opened RequestEffects
  import opened CleanRuns

  predicate BoundInfo(i: CourseInfo) { Free(i.title, NUL) && Free(i.instructor, NUL) }

  predicate BoundSlot(k: ScheduleKey) {
    && Free(k.code, NUL) && Free(k.section, NUL) && Free(k.day, NUL) && Free(k.duration, NUL) && Free(k.semester, NUL)
    && KeptDay(k.day)
  }

  /** No text of any row holds a NUL, and no day is an integer that is not printed. */
  ghost predicate BoundTables(t: Tables) {
    && (forall k :: k in t.courses ==> BoundInfo(t.courses[k]))
    && (forall k :: k in t.schedules ==> BoundSlot(k) && Free(t.schedules[k], NUL))
  }

  ghost predicate BoundStatement(s: Statement) {
    match s
    case UpsertCourse(c) => BoundInfo(InfoOf(c))
    case UpsertSchedule(c) => BoundSlot(SlotOf(c)) && Free(c.classroom, NUL)
    case UpdateCourse(c) => BoundInfo(InfoOf(c))
    case UpdateSchedule(c) => BoundSlot(SlotOf(c)) && Free(c.classroom, NUL)
    case _ => true
  }

  lemma DoneKeepsBound(db: Db, s: Statement)
    requires BoundStatement(s) && Holds(BoundTables, db)
    ensures Holds(BoundTables, Exec(db, s, Done).db)
  {
    hide BoundInfo;
    hide BoundSlot;
    hide Free;
    match s {
      case UpsertCourse(c) =>
      case UpsertSchedule(c) =>
      case UpdateCourse(c) =>
      case UpdateSchedule(c) =>
      case DeleteCourse(key) =>
      case DeleteSchedule(slot) =>
      case _ => hide BoundTables;
    }
  }

  lemma BoundStatementsPreserveBound(s: Statement)
    requires BoundStatement(s)
    ensures Preserves(BoundTables, s)
  {
    hide BoundTables;
    hide BoundStatement;
    hide Ascii;
    forall db, o | Holds(BoundTables, db) ensures Holds(BoundTables, Exec(db, s, o).db) {
      if o.Done? { DoneKeepsBound(db, s); }
    }
  }

  lemma StoredIsBound(c: Course, day: Text -> Text)
    requires NumericAffinity(day)
    ensures var row := Stored(c, day);
      BoundInfo(InfoOf(row)) && BoundSlot(SlotOf(row)) && Free(row.classroom, NUL)
  {
    DayIsKept(day, CString(c.day));
    hide CString;
    hide KeptDay;
    hide NumericAffinity;
  }

  lemma BoundIsPreserved(f: seq<Text>, day: Text -> Text)
    requires NumericAffinity(day)
    ensures PreservedBy(BoundTables, f, day)
  {
    hide Preserves;
    hide NumericAffinity;
    hide Stored;
    forall key ensures Preserves(BoundTables, DeleteCourse(key)) {
      BoundStatementsPreserveBound(DeleteCourse(key));
    }
    if |f| >= 8 {
      StoredIsBound(CourseOf(f), day);
      var row := Stored(CourseOf(f), day);
      hide BoundInfo;
      hide BoundSlot;
      BoundStatementsPreserveBound(UpsertCourse(row));
      BoundStatementsPreserveBound(UpsertSchedule(row));
      BoundStatementsPreserveBound(UpdateCourse(row));
      BoundStatementsPreserveBound(UpdateSchedule(row));
    }
  }

  /** Whatever is requested, rows stay as binding leaves them. */
  lemma DispatchKeepsBoundRows(lib: Library, s: Session, st: Store, cmd: uint32, f: seq<Text>, env: Env)
    requires Holds(BoundTables, st.courses) && NumericAffinity(env.engine.day)
    ensures Holds(BoundTables, Dispatch(lib, SERVER_TABLE, s, st, cmd, f, env).store.courses)
  {
    BoundIsPreserved(f, env.engine.day);
    DispatchKeeps(BoundTables, lib, s, st, cmd, f, env);
    hide RegisterAll;
    hide Dispatch;
    hide PreservedBy;
  }

  lemma BoundRow(like: Like, t: Tables, q: Query, c: Course)
    requires BoundTables(t) && IsRow(like, t, q, c)
    ensures NulFree(c) && KeptDay(c.day)
  {
    assert SlotOf(c) in t.schedules && KeyOf(c) in t.courses;
    hide KeptDay;
  }

  /**
   * Adding a course shows the course as bound; and it shows the course as sent exactly if no text of it holds a NUL and
   * its day, if an integer literal, is the printed one. Of a day that is a real or a longer integer only one half is
   * known.
   */
  lemma AddShowsCourseAsSent(lib: Library, s: Session, st: Store, c: Course, env: Env)
    requires s.role == ADMIN && c.code != [] && c.section != [] && Ready(st) && BoundTables(st.courses.tables)
    requires AllDone(env.engine) && NumericAffinity(env.engine.day)
    ensures var e := Send(lib, s, st, CMD_ADD_REQ, FieldsOf(c), env);
      var t := e.store.courses.tables;
      && e.resp == Response(CMD_ADMIN_RESP, OK)
      && IsRow(lib.like, t, All, Stored(c, env.engine.day))
      && (IsRow(lib.like, t, All, c) ==> NulFree(c) && KeptDay(c.day))
      && (!LooksNumeric(c.day) || Whole(c.day) ==> (IsRow(lib.like, t, All, c) <==> NulFree(c) && KeptDay(c.day)))
  {
    hide Send;
    hide NumericAffinity;
    hide LooksNumeric;
    hide Whole;
    hide KeptDay;
    hide NulFree;
    hide IsRow;
    hide BoundTables;
    var f := FieldsOf(c);
    var e := Send(lib, s, st, CMD_ADD_REQ, f, env);
    AddIsVisible(lib, s, st, f, env);
    StoredAsGiven(c, env.engine.day);
    AddKeepsBound(lib, s, st, f, env);
    hide Stored;
    var row := Stored(c, env.engine.day);
    assert RowsAfterWrite(lib.like, st.courses.tables, e.store.courses.tables, row, row);
    if IsRow(lib.like, e.store.courses.tables, All, c) { BoundRow(lib.like, e.store.courses.tables, All, c); }
    hide Ready;
  }

  lemma AddKeepsBound(lib: Library, s: Session, st: Store, f: seq<Text>, env: Env)
    requires Ready(st) && BoundTables(st.courses.tables) && NumericAffinity(env.engine.day)
    ensures BoundTables(Send(lib, s, st, CMD_ADD_REQ, f, env).store.courses.tables)
  {
    hide BoundTables;
    hide NumericAffinity;
    hide RegisterAll;
    hide Dispatch;
    DispatchKeepsBoundRows(lib, s, st, CMD_ADD_REQ, f, env);
  }

  lemma EightIsPrinted(day: Text -> Text)
    requires NumericAffinity(day)
    ensures Whole([48, 56]) && !Printed([48, 56]) && day([48, 56]) == [56] && CString([48, 56]) == [48, 56]
  {
    var d: Text := [48, 56];
    assert SkipSpace(d) == d && AfterSign(d) == d;
    LeadingDigitsOfDigits(d);
    assert AfterDigits(d) == [] && OnlySpace([]);
    assert d[..1] == [48] && d[..1][..0] == [];
    assert Value(d[..1][..0]) == 0 && Value(d[..1]) == 0 && Value(d) == 8;
    assert Free(d, NUL);
  }

  /** A course sent with a NUL in its code and 08 for its day is shown under another code on day 8. */
  lemma CourseCanBeStoredOtherwise(lib: Library, s: Session, st: Store, env: Env)
    requires s.role == ADMIN && Ready(st) && BoundTables(st.courses.tables)
    requires AllDone(env.engine) && NumericAffinity(env.engine.day)
    ensures var c := Course([67, 83, NUL, 88], [], [49], [], [48, 56], [], [], []);
      var t := Send(lib, s, st, CMD_ADD_REQ, FieldsOf(c), env).store.courses.tables;
      !IsRow(lib.like, t, All, c) && IsRow(lib.like, t, All, Course([67, 83], [], [49], [], [56], [], [], []))
  {
    hide Send;
    hide IsRow;
    hide BoundTables;
    var c := Course([67, 83, NUL, 88], [], [49], [], [48, 56], [], [], []);
    EightIsPrinted(env.engine.day);
    assert CString([67, 83, NUL, 88]) == [67, 83] by {
      assert [67, 83, NUL, 88] == [67, 83] + [NUL] + [88];
      CStringEndsAtNul([67, 83], [88]);
    }
    assert CString([49]) == [49];
    hide NumericAffinity;
    hide Whole;
    hide Printed;
    hide CString;
    AddShowsCourseAsSent(lib, s, st, c, env);
  }
}
