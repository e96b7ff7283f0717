/**
 * The courses and schedules tables with their keys and foreign key, the SQL statements that change them,
 * and the repository operations built from those statements.
 */
module CourseTables {
  import opened Bytes
  import opened Decimal

  datatype Course = Course(code: Text, title: Text, section: Text, instructor: Text,
                           day: Text, duration: Text, semester: Text, classroom: Text)

  datatype CourseKey = CourseKey(code: Text, section: Text)
  datatype CourseInfo = CourseInfo(title: Text, instructor: Text)
  datatype ScheduleKey = ScheduleKey(code: Text, section: Text, day: Text, duration: Text, semester: Text)

  /** courses: key (code, section). schedules: key (code, section, day, duration, semester), value classroom. */
  datatype Tables = Tables(courses: map<CourseKey, CourseInfo>, schedules: map<ScheduleKey, Text>)

  function KeyOf(c: Course): CourseKey { CourseKey(c.code, c.section) }
  function InfoOf(c: Course): CourseInfo { CourseInfo(c.title, c.instructor) }
  function SlotOf(c: Course): ScheduleKey { ScheduleKey(c.code, c.section, c.day, c.duration, c.semester) }
  function Parent(k: ScheduleKey): CourseKey { CourseKey(k.code, k.section) }

  /** FOREIGN KEY (course_code, section) REFERENCES courses(code, section). */
  ghost predicate ForeignKey(t: Tables) {
    forall k :: k in t.schedules ==> Parent(k) in t.courses
  }

  // ---- statements ----

  datatype Statement =
    | Begin | Commit | Rollback
    | UpsertCourse(c: Course)
    | UpsertSchedule(c: Course)
    | UpdateCourse(c: Course)
    | UpdateSchedule(c: Course)
    | DeleteCourse(key: CourseKey)
    | DeleteSchedule(slot: ScheduleKey)

  /**
   * How the engine lets a statement end: it is done; it cannot be prepared; its step fails and changes nothing;
   * or its step fails and the engine rolls an open transaction back on its own.
   */
  datatype Outcome = Done | PrepareFailed(msg: Text) | StepFailed(msg: Text) | StepFailedRolledBack(msg: Text)

  /** A connection: what it reads, and, while a transaction is open, what ROLLBACK would restore. */
  datatype Db = Db(isOpen: bool, tables: Tables, saved: Option<Tables>, lastError: Text)

  /** The engine's answer to one statement. */
  datatype Answer = Answer(db: Db, ok: bool, msg: Text)

  const NOT_OPEN := Ascii("Database is not open.")

  function Undo(db: Db): Db {
    if db.saved.Some? then db.(tables := db.saved.value, saved := None) else db
  }

  function Exec(db: Db, s: Statement, o: Outcome): Answer {
    match o
    case PrepareFailed(msg) => Answer(db, false, msg)
    case StepFailed(msg) => Answer(db, false, msg)
    case StepFailedRolledBack(msg) => Answer(Undo(db), false, msg)
    case Done =>
      var t := db.tables;
      match s
      case Begin =>
        if db.saved.Some? then Answer(db, false, Ascii("cannot start a transaction within a transaction"))
        else Answer(db.(saved := Some(t)), true, [])
      case Commit =>
        if db.saved.None? then Answer(db, false, Ascii("cannot commit - no transaction is active"))
        else Answer(db.(saved := None), true, [])
      case Rollback =>
        if db.saved.None? then Answer(db, false, Ascii("cannot rollback - no transaction is active"))
        else Answer(Undo(db), true, [])
      case UpsertCourse(c) =>
        Answer(db.(tables := t.(courses := t.courses[KeyOf(c) := InfoOf(c)])), true, [])
      case UpsertSchedule(c) =>
        if KeyOf(c) !in t.courses then Answer(db, false, Ascii("FOREIGN KEY constraint failed"))
        else Answer(db.(tables := t.(schedules := t.schedules[SlotOf(c) := c.classroom])), true, [])
      case UpdateCourse(c) =>
        Answer(if KeyOf(c) in t.courses then db.(tables := t.(courses := t.courses[KeyOf(c) := InfoOf(c)])) else db,
            true, [])
      case UpdateSchedule(c) =>
        Answer(if SlotOf(c) in t.schedules then db.(tables := t.(schedules := t.schedules[SlotOf(c) := c.classroom]))
            else db, true, [])
      case DeleteCourse(key) =>
        // ON DELETE CASCADE
        Answer(db.(tables := Tables(t.courses - {key}, map k | k in t.schedules && Parent(k) != key :: t.schedules[k])),
            true, [])
      case DeleteSchedule(slot) =>
        Answer(db.(tables := t.(schedules := t.schedules - {slot})), true, [])
  }

  /** What holds of both the current and the saved tables of a connection. */
  ghost predicate Intact(db: Db) {
    ForeignKey(db.tables) && (db.saved.Some? ==> ForeignKey(db.saved.value))
  }

  lemma StatementKeepsForeignKey(db: Db, s: Statement, o: Outcome)
    requires Intact(db)
    ensures Intact(Exec(db, s, o).db) && Exec(db, s, o).db.isOpen == db.isOpen
  {
    if o.Done? {
      DoneKeepsForeignKey(db, s);
      hide Exec;
    }
    hide ForeignKey;
  }

  lemma DoneKeepsForeignKey(db: Db, s: Statement)
    requires Intact(db)
    ensures Intact(Exec(db, s, Done).db) && Exec(db, s, Done).db.isOpen == db.isOpen
  {
    var t, t' := db.tables, Exec(db, s, Done).db.tables;
    match s {
      case UpsertCourse(c) =>
      case UpsertSchedule(c) =>
      case UpdateCourse(c) =>
      case UpdateSchedule(c) =>
      case DeleteCourse(key) =>
      case DeleteSchedule(slot) =>
      case _ => hide ForeignKey;
    }
  }

  /**
   * Threads share one connection, so statements of different calls may interleave in any order;
   * whatever the order and whichever fail, no schedule row ever loses its course row.
   */
  function ExecAll(db: Db, run: seq<(Statement, Outcome)>): Db {
    if run == [] then db
    else Exec(ExecAll(db, run[..|run| - 1]), run[|run| - 1].0, run[|run| - 1].1).db
  }

  lemma {:induction false} InterleavedStatementsKeepForeignKey(db: Db, run: seq<(Statement, Outcome)>)
    requires Intact(db)
    ensures Intact(ExecAll(db, run))
  {
    if run != [] {
      InterleavedStatementsKeepForeignKey(db, run[..|run| - 1]);
      StatementKeepsForeignKey(ExecAll(db, run[..|run| - 1]), run[|run| - 1].0, run[|run| - 1].1);
    }
  }

  // ---- repository operations ----

  /** The engine's choices for the statements of one call, and what the day column makes of a text. */
  datatype Engine = Engine(begin: Outcome, first: Outcome, second: Outcome, commit: Outcome, rollback: Outcome,
      day: Text -> Text)

  /**
   * The day column has numeric affinity, and this is how it reads back: an integer literal that fits 64 bits as that
   * number printed; any text that is no number as it was; of other numbers, reals and longer integers, only that they
   * are printed or kept.
   */
  ghost predicate NumericAffinity(day: Text -> Text) {
    forall d ::
      if Whole(d) then day(d) == ToText(IntegerIn(d).value)
      else day(d) == d || (LooksNumeric(d) && KeptDay(day(d)) && forall b :: b in day(d) ==> b > 31)
  }

  /** A day the column keeps as it is, if it is no real: an integer only as printed. */
  predicate KeptDay(d: Text) { Whole(d) ==> Printed(d) }

  /** The law can be met. */
  lemma AffinityIsConsistent()
    ensures NumericAffinity(d => if Whole(d) then ToText(IntegerIn(d).value) else d)
  {
  }

  lemma DayIsKept(day: Text -> Text, d: Text)
    requires NumericAffinity(day)
    ensures KeptDay(day(d)) && forall b :: b in day(d) ==> b in d || b > 31
    ensures !LooksNumeric(d) || Whole(d) ==> (day(d) == d <==> KeptDay(d))
  {
    if Whole(d) {
      PrintedReadsBack(d);
      PrintedForm(IntegerIn(d).value);
      WholeLooksNumeric(d);
    } else if IntegerIn(d).Some? {
      WholeLooksNumeric(d);
    }
    hide IntegerIn;
    hide Printed;
    hide ToText;
    hide LooksNumeric;
  }

  /** The row that binding a course stores: each text up to its first NUL, the day as its column keeps it. */
  function Stored(c: Course, day: Text -> Text): Course {
    Course(CString(c.code), CString(c.title), CString(c.section), CString(c.instructor),
           day(CString(c.day)), CString(c.duration), CString(c.semester), CString(c.classroom))
  }

  function StoredKey(key: CourseKey): CourseKey { CourseKey(CString(key.code), CString(key.section)) }

  function StoredSlot(k: ScheduleKey, day: Text -> Text): ScheduleKey {
    ScheduleKey(CString(k.code), CString(k.section), day(CString(k.day)), CString(k.duration), CString(k.semester))
  }

  predicate NulFree(c: Course) {
    && Free(c.code, NUL) && Free(c.title, NUL) && Free(c.section, NUL) && Free(c.instructor, NUL)
    && Free(c.day, NUL) && Free(c.duration, NUL) && Free(c.semester, NUL) && Free(c.classroom, NUL)
  }

  /**
   * A course is stored as given exactly when no text holds a NUL and the day, if it is an integer literal, is the
   * printed one; of days that are reals or longer integers, only the first half is known.
   */
  lemma StoredAsGiven(c: Course, day: Text -> Text)
    requires NumericAffinity(day)
    ensures Stored(c, day) == c ==> NulFree(c) && KeptDay(c.day)
    ensures !LooksNumeric(c.day) || Whole(c.day) ==> (Stored(c, day) == c <==> NulFree(c) && KeptDay(c.day))
  {
    var d := CString(c.day);
    DayIsKept(day, d);
    assert Free(day(d), NUL);
    hide KeptDay;
    hide Whole;
    hide LooksNumeric;
  }

  /** Records the error and rolls back, ignoring how ROLLBACK itself ends. */
  function GiveUp(a: Answer, e: Engine): (Db, bool) {
    (Exec(a.db.(lastError := a.msg), Rollback, e.rollback).db, false)
  }

  function Finish(db: Db, e: Engine): (Db, bool) {
    var a := Exec(db, Commit, e.commit);
    if a.ok then (a.db, true) else GiveUp(a, e)
  }

  function SecondHalf(db: Db, s2: Statement, e: Engine): (Db, bool) {
    var a := Exec(db, s2, e.second);
    if a.ok then Finish(a.db, e) else GiveUp(a, e)
  }

  function FirstHalf(db: Db, s1: Statement, s2: Statement, e: Engine): (Db, bool) {
    var a := Exec(db, s1, e.first);
    if a.ok then SecondHalf(a.db, s2, e) else GiveUp(a, e)
  }

  /** BEGIN, two statements, COMMIT: the shape insert_or_replace and update share. */
  function Transact(db: Db, s1: Statement, s2: Statement, e: Engine): (Db, bool) {
    if !db.isOpen then (db.(lastError := NOT_OPEN), false) else
      var a := Exec(db, Begin, e.begin);
      if a.ok then FirstHalf(a.db, s1, s2, e) else (a.db.(lastError := a.msg), false)
  }

  function InsertOrReplace(db: Db, c: Course, e: Engine): (Db, bool) {
    Transact(db, UpsertCourse(Stored(c, e.day)), UpsertSchedule(Stored(c, e.day)), e)
  }

  function Update(db: Db, c: Course, e: Engine): (Db, bool) {
    Transact(db, UpdateCourse(Stored(c, e.day)), UpdateSchedule(Stored(c, e.day)), e)
  }

  /** A single statement outside any transaction of its own. */
  function Single(db: Db, s: Statement, e: Engine): (Db, bool) {
    if !db.isOpen then (db.(lastError := NOT_OPEN), false) else
    var r := Exec(db, s, e.first);
    if r.ok then (r.db, true) else (r.db.(lastError := r.msg), false)
  }

  function Delete(db: Db, key: CourseKey, e: Engine): (Db, bool) {
    Single(db, DeleteCourse(StoredKey(key)), e)
  }

  function DeleteSlot(db: Db, slot: ScheduleKey, e: Engine): (Db, bool) {
    Single(db, DeleteSchedule(StoredSlot(slot, e.day)), e)
  }

  // ---- atomicity ----

  predicate Fails(o: Outcome) { !o.Done? }

  /** The statement fails and leaves the transaction to ROLLBACK. */
  predicate FailsOpen(o: Outcome) { o.PrepareFailed? || o.StepFailed? }

  /** Something after BEGIN fails, the engine does not roll back on its own, and neither does ROLLBACK. */
  predicate RollbackLost(e: Engine) {
    && e.begin.Done?
    && FailsOpen(e.rollback)
    && (FailsOpen(e.first) || (e.first.Done? && (FailsOpen(e.second) || (e.second.Done? && FailsOpen(e.commit)))))
  }

  predicate AllDone(e: Engine) {
    e.begin.Done? && e.first.Done? && e.second.Done? && e.commit.Done?
  }

  ghost predicate Idle(db: Db) { db.isOpen && db.saved.None? }

  /** Everything but the two rows of c. */
  ghost predicate OnlyRowsOf(c: Course, t: Tables, t': Tables) {
    && (forall k :: k != KeyOf(c) ==> (k in t'.courses <==> k in t.courses))
    && (forall k :: k != KeyOf(c) && k in t.courses ==> t'.courses[k] == t.courses[k])
    && (forall k :: k != SlotOf(c) ==> (k in t'.schedules <==> k in t.schedules))
    && (forall k :: k != SlotOf(c) && k in t.schedules ==> t'.schedules[k] == t.schedules[k])
  }

  ghost predicate HasRowsOf(c: Course, t: Tables) {
    && KeyOf(c) in t.courses && t.courses[KeyOf(c)] == InfoOf(c)
    && SlotOf(c) in t.schedules && t.schedules[SlotOf(c)] == c.classroom
  }

  /** The rows of c that were there hold its values, and those that were not still are not. */
  ghost predicate UpdatedRowsOf(c: Course, t: Tables, t': Tables) {
    && (KeyOf(c) in t.courses <==> KeyOf(c) in t'.courses)
    && (KeyOf(c) in t.courses ==> t'.courses[KeyOf(c)] == InfoOf(c))
    && (SlotOf(c) in t.schedules <==> SlotOf(c) in t'.schedules)
    && (SlotOf(c) in t.schedules ==> t'.schedules[SlotOf(c)] == c.classroom)
  }

  /** Exactly the rows under key are gone. */
  ghost predicate WithoutCourse(key: CourseKey, t: Tables, t': Tables) {
    && (forall k :: k in t'.courses <==> k in t.courses && k != key)
    && (forall k :: k in t'.courses ==> t'.courses[k] == t.courses[k])
    && (forall k :: k in t'.schedules <==> k in t.schedules && Parent(k) != key)
    && (forall k :: k in t'.schedules ==> t'.schedules[k] == t.schedules[k])
  }

  /** How a transaction on t that began ends: done, undone, or (rollback lost) still open on t. */
  ghost predicate Ends(r: (Db, bool), ok: bool, lost: bool, t: Tables) {
    && r.1 == ok
    && (!ok ==> if lost then r.0.saved == Some(t) else r.0.saved.None? && r.0.tables == t)
  }

  lemma GivingUp(a: Answer, e: Engine, t: Tables)
    requires a.db.saved == Some(t) || (a.db.saved.None? && a.db.tables == t)
    ensures Ends(GiveUp(a, e), false, a.db.saved.Some? && FailsOpen(e.rollback), t)
  {
  }

  lemma FinishEnds(db: Db, e: Engine, t: Tables)
    requires db.saved == Some(t)
    ensures var r := Finish(db, e);
      && Ends(r, e.commit.Done?, FailsOpen(e.commit) && FailsOpen(e.rollback), t)
      && (r.1 ==> r.0 == db.(saved := None))
  {
    if Fails(e.commit) {
      GivingUp(Exec(db, Commit, e.commit), e, t);
    }
  }

  lemma SecondHalfEnds(db: Db, s2: Statement, e: Engine, t: Tables)
    requires db.saved == Some(t) && var a := Exec(db, s2, Done); a.ok && a.db.saved == Some(t)
    ensures var r := SecondHalf(db, s2, e);
      && Ends(r, e.second.Done? && e.commit.Done?,
              (FailsOpen(e.second) || (e.second.Done? && FailsOpen(e.commit))) && FailsOpen(e.rollback), t)
      && (r.1 ==> r.0 == Exec(db, s2, Done).db.(saved := None))
  {
    if e.second.Done? {
      FinishEnds(Exec(db, s2, Done).db, e, t);
    } else {
      GivingUp(Exec(db, s2, e.second), e, t);
    }
  }

  lemma FirstHalfEnds(db: Db, s1: Statement, s2: Statement, e: Engine, t: Tables)
    requires db.saved == Some(t) && Exec(db, s1, Done).ok && Exec(db, s1, Done).db.saved == Some(t)
    requires var a := Exec(Exec(db, s1, Done).db, s2, Done); a.ok && a.db.saved == Some(t)
    ensures var r := FirstHalf(db, s1, s2, e);
      && Ends(r, e.first.Done? && e.second.Done? && e.commit.Done?,
              FailsOpen(e.rollback)
              && (FailsOpen(e.first) || (e.first.Done?
                    && (FailsOpen(e.second) || (e.second.Done? && FailsOpen(e.commit))))), t)
      && (r.1 ==> r.0 == Exec(Exec(db, s1, Done).db, s2, Done).db.(saved := None))
  {
    if Fails(e.first) {
      GivingUp(Exec(db, s1, e.first), e, t);
    } else {
      hide Exec;
      SecondHalfEnds(Exec(db, s1, Done).db, s2, e, t);
    }
  }

  lemma Beginning(db: Db, o: Outcome)
    requires Idle(db)
    ensures var a := Exec(db, Begin, o);
      a.ok == o.Done? && a.db == if o.Done? then db.(saved := Some(db.tables)) else db
  {
  }

  /**
   * The transaction itself: true exactly when all four statements end well; false leaves the tables as they were with
   * no transaction open, except exactly when the rollback is lost.
   */
  lemma TransactIsAtomic(db: Db, s1: Statement, s2: Statement, e: Engine)
    requires Idle(db)
    requires var t1 := Exec(db.(saved := Some(db.tables)), s1, Done);
      t1.ok && t1.db.saved == Some(db.tables) &&
      var t2 := Exec(t1.db, s2, Done); t2.ok && t2.db.saved == Some(db.tables)
    ensures var r := Transact(db, s1, s2, e);
      && Ends(r, AllDone(e), RollbackLost(e), db.tables)
      && (r.1 ==> r.0 == Exec(Exec(db.(saved := Some(db.tables)), s1, Done).db, s2, Done).db.(saved := None))
  {
    hide Exec;
    Beginning(db, e.begin);
    if e.begin.Done? {
      FirstHalfEnds(db.(saved := Some(db.tables)), s1, s2, e, db.tables);
    }
  }

  /** The tables with the course row of c, and with its schedule row. */
  function WithCourse(t: Tables, c: Course): Tables { t.(courses := t.courses[KeyOf(c) := InfoOf(c)]) }
  function WithSlot(t: Tables, c: Course): Tables { t.(schedules := t.schedules[SlotOf(c) := c.classroom]) }

  /** The tables after an insert, an update and a delete that succeed. */
  function Inserted(t: Tables, c: Course): Tables { WithSlot(WithCourse(t, c), c) }

  function Updated(t: Tables, c: Course): Tables {
    var t1 := if KeyOf(c) in t.courses then WithCourse(t, c) else t;
    if SlotOf(c) in t1.schedules then WithSlot(t1, c) else t1
  }

  function Deleted(t: Tables, key: CourseKey): Tables {
    Tables(t.courses - {key}, map k | k in t.schedules && Parent(k) != key :: t.schedules[k])
  }

  lemma InsertedRows(t: Tables, c: Course)
    ensures HasRowsOf(c, Inserted(t, c)) && OnlyRowsOf(c, t, Inserted(t, c))
  {
  }

  lemma UpdatedRows(t: Tables, c: Course)
    ensures UpdatedRowsOf(c, t, Updated(t, c)) && OnlyRowsOf(c, t, Updated(t, c))
  {
  }

  lemma InsertStatements(db: Db, c: Course)
    requires Idle(db)
    ensures var t1 := Exec(db.(saved := Some(db.tables)), UpsertCourse(c), Done);
      var t2 := Exec(t1.db, UpsertSchedule(c), Done);
      t1.ok && t1.db.saved == Some(db.tables) && t2.ok
          && t2.db == db.(saved := Some(db.tables), tables := Inserted(db.tables, c))
  {
  }

  lemma UpdateStatements(db: Db, c: Course)
    requires Idle(db)
    ensures var t1 := Exec(db.(saved := Some(db.tables)), UpdateCourse(c), Done);
      var t2 := Exec(t1.db, UpdateSchedule(c), Done);
      t1.ok && t1.db.saved == Some(db.tables) && t2.ok
          && t2.db == db.(saved := Some(db.tables), tables := Updated(db.tables, c))
  {
  }

  /** How insert_or_replace ends, and on which tables. */
  lemma InsertEnds(db: Db, c: Course, e: Engine)
    requires Idle(db)
    ensures var r := InsertOrReplace(db, c, e);
      && Ends(r, AllDone(e), RollbackLost(e), db.tables)
      && (r.1 ==> r.0 == db.(tables := Inserted(db.tables, Stored(c, e.day))))
      && (!r.1 ==> r.0.lastError == FailureText(e))
  {
    hide Exec;
    hide Transact;
    hide Stored;
    hide Inserted;
    InsertStatements(db, Stored(c, e.day));
    TransactIsAtomic(db, UpsertCourse(Stored(c, e.day)), UpsertSchedule(Stored(c, e.day)), e);
    FailureIsNamed(db, UpsertCourse(Stored(c, e.day)), UpsertSchedule(Stored(c, e.day)), e);
  }

  lemma UpdateEnds(db: Db, c: Course, e: Engine)
    requires Idle(db)
    ensures var r := Update(db, c, e);
      && Ends(r, AllDone(e), RollbackLost(e), db.tables)
      && (r.1 ==> r.0 == db.(tables := Updated(db.tables, Stored(c, e.day))))
      && (!r.1 ==> r.0.lastError == FailureText(e))
  {
    hide Exec;
    hide Transact;
    hide Stored;
    hide Updated;
    UpdateStatements(db, Stored(c, e.day));
    TransactIsAtomic(db, UpdateCourse(Stored(c, e.day)), UpdateSchedule(Stored(c, e.day)), e);
    FailureIsNamed(db, UpdateCourse(Stored(c, e.day)), UpdateSchedule(Stored(c, e.day)), e);
  }

  lemma DeleteEnds(db: Db, key: CourseKey, e: Engine)
    requires Idle(db) && e.first.Done?
    ensures Delete(db, key, e) == (db.(tables := Deleted(db.tables, StoredKey(key))), true)
  {
    hide StoredKey;
  }

  /**
   * insert_or_replace: true exactly when all four statements end well, and then both rows are as bound and nothing else
   * moved; false leaves the tables as they were with no transaction open, except exactly when the rollback is lost.
   */
  lemma InsertIsAtomic(db: Db, c: Course, e: Engine)
    requires Idle(db)
    ensures var r := InsertOrReplace(db, c, e);
      && (r.1 <==> AllDone(e))
      && (r.1 ==> HasRowsOf(Stored(c, e.day), r.0.tables) && OnlyRowsOf(Stored(c, e.day), db.tables,
            r.0.tables) && r.0.saved.None?)
      && (!r.1 ==> (r.0.tables == db.tables && r.0.saved.None? <==> !RollbackLost(e)))
      && (r.0.saved.Some? <==> RollbackLost(e))
      && (RollbackLost(e) ==> r.0.saved == Some(db.tables))
      && (!r.1 ==> r.0.lastError == FailureText(e))
  {
    hide InsertOrReplace;
    hide Stored;
    hide Inserted;
    hide HasRowsOf;
    hide OnlyRowsOf;
    InsertEnds(db, c, e);
    InsertedRows(db.tables, Stored(c, e.day));
    hide RollbackLost;
  }

  /** update: as insert_or_replace, but only rows that already exist take the new values. */
  lemma UpdateIsAtomic(db: Db, c: Course, e: Engine)
    requires Idle(db)
    ensures var r := Update(db, c, e);
      && (r.1 <==> AllDone(e))
      && (r.1 ==> r.0.saved.None? && OnlyRowsOf(Stored(c, e.day), db.tables, r.0.tables))
      && (r.1 ==> UpdatedRowsOf(Stored(c, e.day), db.tables, r.0.tables))
      && (!r.1 ==> (r.0.tables == db.tables && r.0.saved.None? <==> !RollbackLost(e)))
      && (r.0.saved.Some? <==> RollbackLost(e))
      && (!r.1 ==> r.0.lastError == FailureText(e))
  {
    hide Update;
    hide Stored;
    hide Updated;
    hide UpdatedRowsOf;
    hide OnlyRowsOf;
    UpdateEnds(db, c, e);
    UpdatedRows(db.tables, Stored(c, e.day));
    hide RollbackLost;
  }

  /** What the engine says of the first statement of a transaction that fails. */
  function FailureText(e: Engine): Text
    requires !AllDone(e)
  {
    if !e.begin.Done? then e.begin.msg
    else if !e.first.Done? then e.first.msg
    else if !e.second.Done? then e.second.msg
    else e.commit.msg
  }

  /** A failed call leaves the engine's text as the last error, whatever ROLLBACK says; another one leaves it alone. */
  lemma FailureIsNamed(db: Db, s1: Statement, s2: Statement, e: Engine)
    requires Idle(db)
    requires var t1 := Exec(db.(saved := Some(db.tables)), s1, Done);
      t1.ok && Exec(t1.db, s2, Done).ok && Exec(t1.db, s2, Done).db.saved.Some?
    ensures var r := Transact(db, s1, s2, e);
      r.0.lastError == if AllDone(e) then db.lastError else FailureText(e)
  {
    var t0 := db.(saved := Some(db.tables));
    ErrorStays(db, Begin, e.begin);
    ErrorStays(t0, s1, e.first);
    ErrorStays(Exec(t0, s1, Done).db, s2, e.second);
    ErrorStays(Exec(Exec(t0, s1, Done).db, s2, Done).db, Commit, e.commit);
    Beginning(db, e.begin);
    FailedText(db, Begin, e.begin);
    FailedText(t0, s1, e.first);
    FailedText(Exec(t0, s1, Done).db, s2, e.second);
    FailedText(Exec(Exec(t0, s1, Done).db, s2, Done).db, Commit, e.commit);
    Committing(Exec(Exec(t0, s1, Done).db, s2, Done).db);
    GivingUpNames(Exec(t0, s1, e.first), e);
    GivingUpNames(Exec(Exec(t0, s1, Done).db, s2, e.second), e);
    GivingUpNames(Exec(Exec(Exec(t0, s1, Done).db, s2, Done).db, Commit, e.commit), e);
    hide Exec;
    hide GiveUp;
  }

  lemma ErrorStays(db: Db, s: Statement, o: Outcome)
    ensures Exec(db, s, o).db.lastError == db.lastError
  {
  }

  lemma FailedText(db: Db, s: Statement, o: Outcome)
    ensures !o.Done? ==> !Exec(db, s, o).ok && Exec(db, s, o).msg == o.msg
  {
  }

  lemma Committing(db: Db)
    requires db.saved.Some?
    ensures Exec(db, Commit, Done).ok
  {
  }

  lemma GivingUpNames(a: Answer, e: Engine)
    ensures GiveUp(a, e).0.lastError == a.msg && !GiveUp(a, e).1
  {
    ErrorStays(a.db.(lastError := a.msg), Rollback, e.rollback);
    hide Exec;
  }

  /** delete_schedule: true exactly when the statement ends well, and then that row is gone and nothing else moved. */
  lemma SlotIsDeleted(db: Db, slot: ScheduleKey, e: Engine)
    requires Idle(db)
    ensures var r := DeleteSlot(db, slot, e);
      var k := ScheduleKey(CString(slot.code), CString(slot.section), e.day(CString(slot.day)), CString(slot.duration),
          CString(slot.semester));
      && (r.1 <==> e.first.Done?)
      && (!r.1 ==> r.0.tables == db.tables && r.0.lastError == e.first.msg)
      && (r.1 ==> r.0.tables.courses == db.tables.courses && r.0.tables.schedules == db.tables.schedules - {k})
      && r.0.saved.None?
  {
    hide CString;
  }

  /** A connection that is not open does nothing and says so. */
  lemma ClosedDoesNothing(db: Db, call: Call, e: Engine)
    requires !db.isOpen
    ensures Perform(db, call, e) == (db.(lastError := Ascii("Database is not open.")), false)
  {
  }

  /** delete_course: true exactly when the statement ends well, and then the course and all its schedules are gone. */
  lemma DeleteCascades(db: Db, key: CourseKey, e: Engine)
    requires Idle(db)
    ensures var r := Delete(db, key, e);
      && (r.1 <==> e.first.Done?)
      && (!r.1 ==> r.0.tables == db.tables && r.0.lastError == e.first.msg)
      && (r.1 ==> WithoutCourse(CourseKey(CString(key.code), CString(key.section)), db.tables, r.0.tables))
      && r.0.saved.None?
  {
    hide CString;
  }

  // ---- whole runs ----

  datatype Call = Insert(c: Course) | Change(c: Course) | Remove(key: CourseKey) | RemoveSlot(slot: ScheduleKey)

  function Perform(db: Db, call: Call, e: Engine): (Db, bool) {
    match call
    case Insert(c) => InsertOrReplace(db, c, e)
    case Change(c) => Update(db, c, e)
    case Remove(key) => Delete(db, key, e)
    case RemoveSlot(slot) => DeleteSlot(db, slot, e)
  }

  function PerformAll(db: Db, calls: seq<(Call, Engine)>): Db {
    if calls == [] then db
    else Perform(PerformAll(db, calls[..|calls| - 1]), calls[|calls| - 1].0, calls[|calls| - 1].1).0
  }

  /** A property of tables holds of a connection when it holds of what it reads and of what it would restore. */
  ghost predicate Holds(p: Tables -> bool, db: Db) {
    p(db.tables) && (db.saved.Some? ==> p(db.saved.value))
  }

  ghost predicate Preserves(p: Tables -> bool, s: Statement) {
    forall db, o :: Holds(p, db) ==> Holds(p, Exec(db, s, o).db)
  }

  lemma GivingUpKeeps(p: Tables -> bool, a: Answer, e: Engine)
    requires Holds(p, a.db)
    ensures Holds(p, GiveUp(a, e).0) && GiveUp(a, e).0.isOpen == a.db.isOpen
  {
  }

  lemma FinishKeeps(p: Tables -> bool, db: Db, e: Engine)
    requires Holds(p, db)
    ensures Holds(p, Finish(db, e).0) && Finish(db, e).0.isOpen == db.isOpen
  {
    GivingUpKeeps(p, Exec(db, Commit, e.commit), e);
  }

  lemma ConnectionStaysOpen(db: Db, s: Statement, o: Outcome)
    ensures Exec(db, s, o).db.isOpen == db.isOpen
  {
  }

  lemma HalvesKeep(p: Tables -> bool, db: Db, s1: Statement, s2: Statement, e: Engine)
    requires Holds(p, db) && Preserves(p, s1) && Preserves(p, s2)
    ensures Holds(p, FirstHalf(db, s1, s2, e).0) && FirstHalf(db, s1, s2, e).0.isOpen == db.isOpen
  {
    var a1 := Exec(db, s1, e.first);
    var a2 := Exec(a1.db, s2, e.second);
    ConnectionStaysOpen(db, s1, e.first);
    ConnectionStaysOpen(a1.db, s2, e.second);
    hide Exec;
    assert Holds(p, a1.db) && Holds(p, a2.db);
    GivingUpKeeps(p, a1, e);
    GivingUpKeeps(p, a2, e);
    FinishKeeps(p, a2.db, e);
    hide Finish;
    hide GiveUp;
  }

  lemma TransactKeeps(p: Tables -> bool, db: Db, s1: Statement, s2: Statement, e: Engine)
    requires Holds(p, db) && Preserves(p, s1) && Preserves(p, s2)
    ensures Holds(p, Transact(db, s1, s2, e).0) && Transact(db, s1, s2, e).0.isOpen == db.isOpen
  {
    var b := Exec(db, Begin, e.begin);
    HalvesKeep(p, b.db, s1, s2, e);
    hide FirstHalf;
  }

  lemma SingleKeeps(p: Tables -> bool, db: Db, s: Statement, e: Engine)
    requires Holds(p, db) && Preserves(p, s)
    ensures Holds(p, Single(db, s, e).0) && Single(db, s, e).0.isOpen == db.isOpen
  {
    ConnectionStaysOpen(db, s, e.first);
    assert Holds(p, Exec(db, s, e.first).db);
    hide Exec;
  }

  lemma EveryStatementPreservesForeignKey(s: Statement)
    ensures Preserves(ForeignKey, s)
  {
    forall db, o | Holds(ForeignKey, db) ensures Holds(ForeignKey, Exec(db, s, o).db) {
      StatementKeepsForeignKey(db, s, o);
    }
  }

  lemma CallKeepsForeignKey(db: Db, call: Call, e: Engine)
    requires Intact(db)
    ensures Intact(Perform(db, call, e).0) && Perform(db, call, e).0.isOpen == db.isOpen
  {
    assert Holds(ForeignKey, db);
    match call {
      case Insert(c) =>
        var row := Stored(c, e.day);
        EveryStatementPreservesForeignKey(UpsertCourse(row));
        EveryStatementPreservesForeignKey(UpsertSchedule(row));
        TransactKeeps(ForeignKey, db, UpsertCourse(row), UpsertSchedule(row), e);
      case Change(c) =>
        var row := Stored(c, e.day);
        EveryStatementPreservesForeignKey(UpdateCourse(row));
        EveryStatementPreservesForeignKey(UpdateSchedule(row));
        TransactKeeps(ForeignKey, db, UpdateCourse(row), UpdateSchedule(row), e);
      case Remove(key) =>
        EveryStatementPreservesForeignKey(DeleteCourse(StoredKey(key)));
        SingleKeeps(ForeignKey, db, DeleteCourse(StoredKey(key)), e);
      case RemoveSlot(slot) =>
        EveryStatementPreservesForeignKey(DeleteSchedule(StoredSlot(slot, e.day)));
        SingleKeeps(ForeignKey, db, DeleteSchedule(StoredSlot(slot, e.day)), e);
    }
    hide Stored;
    hide Transact;
    hide Single;
    hide Preserves;
  }

  predicate IsTransaction(call: Call) { call.Insert? || call.Change? }

  lemma CallKeepsIdle(db: Db, call: Call, e: Engine)
    requires Idle(db) && (IsTransaction(call) ==> !RollbackLost(e))
    ensures Idle(Perform(db, call, e).0)
  {
    hide RollbackLost;
    hide InsertOrReplace;
    hide Update;
    hide Stored;
    hide StoredKey;
    hide StoredSlot;
    hide Inserted;
    hide Updated;
    match call {
      case Insert(c) => InsertEnds(db, c, e);
      case Change(c) => UpdateEnds(db, c, e);
      case Remove(key) =>
      case RemoveSlot(slot) =>
    }
    hide InsertOrReplace;
    CallStaysOpen(db, call, e);
  }

  lemma CallStaysOpen(db: Db, call: Call, e: Engine)
    ensures Perform(db, call, e).0.isOpen == db.isOpen
  {
    hide Stored;
    hide StoredKey;
    hide StoredSlot;
    hide Transact;
    match call {
      case Insert(c) => TransactKeeps(AnyTables, db, UpsertCourse(Stored(c, e.day)), UpsertSchedule(Stored(c, e.day)),
          e);
      case Change(c) => TransactKeeps(AnyTables, db, UpdateCourse(Stored(c, e.day)), UpdateSchedule(Stored(c, e.day)),
          e);
      case Remove(key) => ConnectionStaysOpen(db, DeleteCourse(StoredKey(key)), e.first);
      case RemoveSlot(slot) => ConnectionStaysOpen(db, DeleteSchedule(StoredSlot(slot, e.day)), e.first);
    }
    hide Exec;
  }

  ghost predicate AnyTables(t: Tables) { true }

  /**
   * Over every run of repository calls, with the engine free to fail any statement: schedule rows keep their course
   * rows; and unless some call lost its rollback, no transaction stays open.
   */
  lemma {:induction false} EveryRunIsSound(db: Db, calls: seq<(Call, Engine)>)
    requires Intact(db) && Idle(db)
    ensures Intact(PerformAll(db, calls))
    ensures (forall i :: 0 <= i < |calls| && IsTransaction(calls[i].0) ==> !RollbackLost(calls[i].1)) ==>
        Idle(PerformAll(db, calls))
  {
    hide Perform;
    hide Intact;
    hide RollbackLost;
    if calls != [] {
      var n := |calls| - 1;
      EveryRunIsSound(db, calls[..n]);
      var before := PerformAll(db, calls[..n]);
      CallKeepsForeignKey(before, calls[n].0, calls[n].1);
      if Idle(before) && (IsTransaction(calls[n].0) ==> !RollbackLost(calls[n].1)) {
        CallKeepsIdle(before, calls[n].0, calls[n].1);
      }
    }
  }

  /** A lost rollback is possible: the half-written course row stays visible, inside a transaction still open. */
  lemma RollbackCanBeLost(db: Db, c: Course, day: Text -> Text, msg: Text)
    requires Idle(db) && KeyOf(Stored(c, day)) !in db.tables.courses
    ensures var e := Engine(Done, Done, StepFailed(msg), Done, StepFailed(msg), day);
      var r := InsertOrReplace(db, c, e);
      !r.1 && r.0.saved.Some? && KeyOf(Stored(c, day)) in r.0.tables.courses
  {
    hide Stored;
  }

  // ---- after a rollback was lost ----

  /**
   * The engine ends the transaction that was left open, by rolling it back on its own at the first statement of a call.
   */
  predicate RollsBack(call: Call, e: Engine) {
    if IsTransaction(call) then e.begin.StepFailedRolledBack? else e.first.StepFailedRolledBack?
  }

  /**
   * A call while the transaction of an earlier one is still open: inserts and updates return false and change
   * nothing, since BEGIN is refused and no ROLLBACK follows; deletes may be reported done, but the saved tables stay
   * to be restored, and are restored when the engine rolls back.
   */
  lemma CallAfterLoss(db: Db, call: Call, e: Engine, t: Tables)
    requires db.isOpen && db.saved == Some(t)
    ensures var r := Perform(db, call, e);
      && r.0.isOpen
      && (IsTransaction(call) ==> !r.1)
      && (RollsBack(call, e) ==> !r.1 && r.0.saved.None? && r.0.tables == t)
      && (!RollsBack(call, e) ==> r.0.saved == Some(t))
      && (!RollsBack(call, e) && IsTransaction(call) ==> r.0.tables == db.tables)
  {
    hide Stored;
    hide StoredKey;
    hide StoredSlot;
    hide FirstHalf;
  }

  /**
   * Until the engine rolls back, every insert and update of a run fails and the tables to be restored are those from
   * before the call that lost its rollback; when it does, all that was reported done in between is gone.
   */
  lemma {:induction false} RunAfterLoss(db: Db, calls: seq<(Call, Engine)>, t: Tables)
    requires db.isOpen && db.saved == Some(t)
    requires forall i :: 0 <= i < |calls| ==> !RollsBack(calls[i].0, calls[i].1)
    ensures var r := PerformAll(db, calls); r.isOpen && r.saved == Some(t)
    ensures forall i ::
      0 <= i < |calls| && IsTransaction(calls[i].0) ==> !Perform(PerformAll(db, calls[..i]), calls[i].0, calls[i].1).1
    ensures forall call, e ::
      RollsBack(call, e) ==> var r := Perform(PerformAll(db, calls), call, e); Idle(r.0) && r.0.tables == t
  {
    hide Perform;
    if calls != [] {
      var n := |calls| - 1;
      var before := PerformAll(db, calls[..n]);
      RunAfterLoss(db, calls[..n], t);
      CallAfterLoss(before, calls[n].0, calls[n].1, t);
      forall i | 0 <= i < n && IsTransaction(calls[i].0)
          ensures !Perform(PerformAll(db, calls[..i]), calls[i].0, calls[i].1).1 {
        assert calls[..n][..i] == calls[..i] && calls[..n][i] == calls[i];
      }
    }
    forall call, e | RollsBack(call, e)
      ensures Idle(Perform(PerformAll(db, calls), call, e).0) && Perform(PerformAll(db, calls), call, e).0.tables == t
    {
      CallAfterLoss(PerformAll(db, calls), call, e, t);
    }
  }

  // ---- the algebra of writes ----

  /** Writing the same course again changes nothing. */
  lemma InsertIsIdempotent(db: Db, c: Course, e: Engine)
    requires Idle(db) && AllDone(e)
    ensures var once := InsertOrReplace(db, c, e).0; InsertOrReplace(once, c, e).0 == once
  {
    hide InsertOrReplace;
    hide Stored;
    hide RollbackLost;
    var once := InsertOrReplace(db, c, e).0;
    InsertEnds(db, c, e);
    InsertEnds(once, c, e);
    InsertedTwice(db.tables, Stored(c, e.day));
    hide Inserted;
  }

  lemma InsertedTwice(t: Tables, c: Course)
    ensures Inserted(Inserted(t, c), c) == Inserted(t, c)
  {
  }

  /** update never adds or removes a row, and equals insert_or_replace exactly when both rows already exist. */
  lemma UpdateVersusInsert(db: Db, c: Course, e: Engine)
    requires Idle(db) && AllDone(e)
    ensures var u := Update(db, c, e).0.tables;
      var i := InsertOrReplace(db, c, e).0.tables;
      && u.courses.Keys == db.tables.courses.Keys && u.schedules.Keys == db.tables.schedules.Keys
      && (u == i <==> KeyOf(Stored(c, e.day)) in db.tables.courses && SlotOf(Stored(c, e.day)) in db.tables.schedules)
  {
    hide InsertOrReplace;
    hide Update;
    hide Stored;
    hide RollbackLost;
    InsertEnds(db, c, e);
    UpdateEnds(db, c, e);
    UpdatedVersusInserted(db.tables, Stored(c, e.day));
    hide Inserted;
    hide Updated;
  }

  lemma UpdatedVersusInserted(t: Tables, c: Course)
    ensures Updated(t, c).courses.Keys == t.courses.Keys && Updated(t, c).schedules.Keys == t.schedules.Keys
    ensures Updated(t, c) == Inserted(t, c) <==> KeyOf(c) in t.courses && SlotOf(c) in t.schedules
  {
    assert KeyOf(c) in Inserted(t, c).courses && SlotOf(c) in Inserted(t, c).schedules;
  }

  /** Adding a course and deleting it again restores the exact state when, and only when, the course was new. */
  lemma InsertThenDelete(db: Db, c: Course, e: Engine)
    requires Idle(db) && ForeignKey(db.tables) && AllDone(e)
    ensures var added := InsertOrReplace(db, c, e).0;
      Delete(added, KeyOf(c), e).0 == db <==> KeyOf(Stored(c, e.day)) !in db.tables.courses
  {
    var row := Stored(c, e.day);
    assert StoredKey(KeyOf(c)) == KeyOf(row);
    hide InsertOrReplace;
    hide Delete;
    hide Stored;
    hide StoredKey;
    hide RollbackLost;
    var added := InsertOrReplace(db, c, e).0;
    InsertEnds(db, c, e);
    DeleteEnds(added, KeyOf(c), e);
    InsertedThenDeleted(db.tables, row);
    hide Inserted;
    hide Deleted;
    hide ForeignKey;
  }

  lemma InsertedThenDeleted(t: Tables, c: Course)
    requires ForeignKey(t)
    ensures Deleted(Inserted(t, c), KeyOf(c)) == t <==> KeyOf(c) !in t.courses
  {
    var gone := Deleted(Inserted(t, c), KeyOf(c));
    assert KeyOf(c) !in gone.courses;
    if KeyOf(c) !in t.courses {
      assert gone.courses == t.courses;
      assert gone.schedules == t.schedules;
    }
  }
}
