/** CourseRepository: one SQLite connection, changed statement by statement. */
module CourseStore {
  import opened Bytes
  import opened CourseTables
  import opened CourseViews

  /** How stepping through a result set ends: to the end, never started, or broken off after some rows. */
  datatype Cursor = Complete | PrepareFails(msg: Text) | BreaksAfter(n: nat, msg: Text)

  /** What prepare_and_collect has pushed when it returns; callers ignore its result. */
  function Collected<T>(rows: seq<T>, cur: Cursor): seq<T> {
    match cur
    case Complete => rows
    case PrepareFails(_) => []
    case BreaksAfter(n, _) => if n < |rows| then rows[..n] else rows
  }

  /** A query on a connection: the rows handed out, and the connection afterwards. */
  function Ask(db: Db, rows: seq<Course>, cur: Cursor): (Db, seq<Course>) {
    if !db.isOpen then (db.(lastError := NOT_OPEN), [])
    else (if cur.Complete? then db else db.(lastError := cur.msg), Collected(rows, cur))
  }

  class CourseRepository {
    const like: Like
    var isOpen: bool
    var tables: Tables
    var saved: Option<Tables>
    var lastError: Text

    function State(): Db reads this { Db(isOpen, tables, saved, lastError) }

    /** A fresh connection, opened or not, onto tables that already exist. */
    constructor (like: Like, isOpen: bool, tables: Tables)
      ensures this.like == like && State() == Db(isOpen, tables, None, [])
    {
      this.like, this.isOpen, this.tables, this.saved, this.lastError := like, isOpen, tables, None, [];
    }

    method Close()
      modifies `isOpen
      ensures State() == old(State()).(isOpen := false)
    {
      isOpen := false;
    }

    /** sqlite3_exec, or prepare, bind, step and finalize. */
    method Execute(s: Statement, o: Outcome) returns (ok: bool, msg: Text)
      modifies this
      ensures var a := Exec(old(State()), s, o); State() == a.db && ok == a.ok && msg == a.msg
    {
      var a := Exec(State(), s, o);
      tables, saved := a.db.tables, a.db.saved;
      return a.ok, a.msg;
    }

    method InsertOrReplace(course: Course, e: Engine) returns (ok: bool)
      modifies this
      ensures (State(), ok) == CourseTables.InsertOrReplace(old(State()), course, e)
    {
      if !isOpen { lastError := NOT_OPEN; return false; }
      var msg, ignored, text;
      ok, msg := Execute(Begin, e.begin);
      if !ok { lastError := msg; return false; }
      ok, msg := Execute(UpsertCourse(Stored(course, e.day)), e.first);
      if !ok { lastError := msg; ignored, text := Execute(Rollback, e.rollback); return false; }
      ok, msg := Execute(UpsertSchedule(Stored(course, e.day)), e.second);
      if !ok { lastError := msg; ignored, text := Execute(Rollback, e.rollback); return false; }
      ok, msg := Execute(Commit, e.commit);
      if !ok { lastError := msg; ignored, text := Execute(Rollback, e.rollback); return false; }
      return true;
    }

    method Update(course: Course, e: Engine) returns (ok: bool)
      modifies this
      ensures (State(), ok) == CourseTables.Update(old(State()), course, e)
    {
      if !isOpen { lastError := NOT_OPEN; return false; }
      var msg, ignored, text;
      ok, msg := Execute(Begin, e.begin);
      if !ok { lastError := msg; return false; }
      ok, msg := Execute(UpdateCourse(Stored(course, e.day)), e.first);
      if !ok { lastError := msg; ignored, text := Execute(Rollback, e.rollback); return false; }
      ok, msg := Execute(UpdateSchedule(Stored(course, e.day)), e.second);
      if !ok { lastError := msg; ignored, text := Execute(Rollback, e.rollback); return false; }
      ok, msg := Execute(Commit, e.commit);
      if !ok { lastError := msg; ignored, text := Execute(Rollback, e.rollback); return false; }
      return true;
    }

    method DeleteCourse(code: Text, section: Text, e: Engine) returns (ok: bool)
      modifies this
      ensures (State(), ok) == Delete(old(State()), CourseKey(code, section), e)
    {
      if !isOpen { lastError := NOT_OPEN; return false; }
      var msg;
      ok, msg := Execute(Statement.DeleteCourse(CourseKey(CString(code), CString(section))), e.first);
      if !ok { lastError := msg; }
    }

    method DeleteSchedule(code: Text, section: Text, day: Text, duration: Text, semester: Text,
        e: Engine) returns (ok: bool)
      modifies this
      ensures (State(), ok) == DeleteSlot(old(State()), ScheduleKey(code, section, day, duration, semester), e)
    {
      if !isOpen { lastError := NOT_OPEN; return false; }
      var msg;
      ok, msg := Execute(Statement.DeleteSchedule(StoredSlot(ScheduleKey(code, section, day, duration, semester),
          e.day)), e.first);
      if !ok { lastError := msg; }
    }

    /** Pushes row after row until the engine reports the end or an error. */
    method PrepareAndCollect(rows: seq<Course>, cur: Cursor) returns (out: seq<Course>)
      modifies `lastError
      ensures (State(), out) == Ask(old(State()), rows, cur)
    {
      out := [];
      if !isOpen { lastError := NOT_OPEN; return; }
      if cur.PrepareFails? { lastError := cur.msg; return; }
      var i := 0;
      while i < |rows| && !(cur.BreaksAfter? && i == cur.n)
        invariant 0 <= i <= |rows| && out == rows[..i]
        invariant cur.BreaksAfter? ==> i <= cur.n
      {
        out := out + [rows[i]];
        i := i + 1;
      }
      assert rows[..|rows|] == rows;
      if cur.BreaksAfter? { lastError := cur.msg; }
    }

    method SearchByCourseCode(code: Text, cur: Cursor) returns (out: seq<Course>)
      modifies `lastError
      ensures (State(), out) == Ask(old(State()), Rows(like, old(tables), ByCode(code)), cur)
    {
      out := PrepareAndCollect(Rows(like, tables, ByCode(code)), cur);
    }

    method SearchByInstructor(instructor: Text, cur: Cursor) returns (out: seq<Course>)
      modifies `lastError
      ensures (State(), out) == Ask(old(State()), Rows(like, old(tables), ByInstructor(instructor)), cur)
    {
      out := PrepareAndCollect(Rows(like, tables, ByInstructor(instructor)), cur);
    }

    method ViewCoursesBySemester(semester: Text, cur: Cursor) returns (out: seq<Course>)
      modifies `lastError
      ensures (State(), out) == Ask(old(State()), Rows(like, old(tables), BySemester(semester)), cur)
    {
      out := PrepareAndCollect(Rows(like, tables, BySemester(semester)), cur);
    }

    method ViewAllCourses(cur: Cursor) returns (out: seq<Course>)
      modifies `lastError
      ensures (State(), out) == Ask(old(State()), Rows(like, old(tables), All), cur)
    {
      out := PrepareAndCollect(Rows(like, tables, All), cur);
    }

    method ViewAllCoursesPaged(offset: int, limit: int, cur: Cursor) returns (out: seq<Course>)
      modifies `lastError
      ensures limit <= 0 ==> out == [] && State() == old(State())
      ensures limit > 0 ==> (State(), out) == Ask(old(State()), Page(like, old(tables), offset, limit), cur)
    {
      if limit <= 0 { return []; }
      var from := if offset < 0 then 0 else offset;
      out := PrepareAndCollect(Slice(Rows(like, tables, All), from, limit), cur);
    }

    /** The number of rows of the join; 0 on any failure. */
    method CountCourses(cur: Cursor) returns (count: nat)
      modifies `lastError
      ensures old(isOpen) && cur.Complete? ==> count == |Joined(old(tables))| && State() == old(State())
      ensures !old(isOpen) || !cur.Complete? ==> count == 0
    {
      if !isOpen { lastError := NOT_OPEN; return 0; }
      if cur.PrepareFails? { lastError := cur.msg; return 0; }
      if cur.BreaksAfter? { return 0; }
      return CountJoined(tables);
    }
  }
}
