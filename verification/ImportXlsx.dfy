/**
 * scripts/import_xlsx.py: the upsert fold over the rows of timetable files. What the regular expressions and Python's
 * conversions make of a cell is left to functions; everything decided about their results is here.
 */
module ImportXlsx {
  import opened Bytes
  import opened Decimal
  import opened CourseTables

  const COL_CODE := 0
  const COL_TITLE_SECTION := 1
  const COL_TEACHERS := 7
  const COL_SCHEDULE := 8
  const COL_HOURS := 9
  const COL_CLASSROOM := 10

  /** A cell is None or has its str(). */
  datatype Cell = Nothing | Value(text: Text)

  type Row = seq<Cell>

  datatype File = File(name: Text, rows: seq<Row>)

  /**
   * semester: the search in a file name, already formatted; strip and lower: the methods of str; clip: the first 8
   * characters; titled: the two groups of the title expression; number: int(float(..)), None where it raises;
   * times: the day and the time span of each schedule match; day: what the day column makes of a text.
   */
  datatype Reader = Reader(semester: Text -> Option<Text>, strip: Text -> Text, lower: Text -> Text, clip: Text -> Text,
                           titled: Text -> Option<(Text, Text)>, number: Text -> Option<int>,
                               times: Text -> seq<(Text, Text)>, day: Text -> Text)

  // ---- one row ----

  function ToStr(x: Reader, cell: Cell): Text {
    if cell.Nothing? then [] else x.strip(cell.text)
  }

  function ToInt(x: Reader, cell: Cell): int {
    if cell.Nothing? || cell.text == [] then 0
    else match x.number(cell.text) case Some(n) => n case None => 0
  }

  function ParseTitleSection(x: Reader, cell: Cell): (Text, Text) {
    if cell.Nothing? then ([], [])
    else match x.titled(x.strip(cell.text)) case Some(p) => (x.strip(p.0),
        x.strip(p.1)) case None => (x.strip(cell.text), [])
  }

  function ParseSchedules(x: Reader, cell: Cell, hours: int): seq<(Text, Text)> {
    if cell.Nothing? then []
    else if x.times(cell.text) != [] then x.times(cell.text)
    else if x.strip(cell.text) != [] then [(x.clip(x.strip(cell.text)), ToText(hours))]
    else []
  }

  datatype Entry = Entry(key: CourseKey, info: CourseInfo, classroom: Text, times: seq<(Text, Text)>)

  /** What a row says, or None if the importer skips it. */
  function EntryOf(x: Reader, row: Row): (r: Option<Entry>)
    ensures r.Some? ==> |row| > COL_CLASSROOM && r.value.times != []
    ensures r.Some? ==> r.value.key.code != [] && r.value.key.section != []
  {
    if |row| <= COL_CLASSROOM then None else
      var code := ToStr(x, row[COL_CODE]);
      var named := ParseTitleSection(x, row[COL_TITLE_SECTION]);
      var times := ParseSchedules(x, row[COL_SCHEDULE], ToInt(x, row[COL_HOURS]));
      if code == [] || x.lower(code) in {Ascii("course code"), Ascii("none")} || named.1 == [] || times == [] then None
      else Some(Entry(CourseKey(code, named.1), CourseInfo(named.0, ToStr(x, row[COL_TEACHERS])),
          ToStr(x, row[COL_CLASSROOM]), times))
  }

  // ---- what is written ----

  datatype Write = AddCourse(key: CourseKey, info: CourseInfo) | PutSlot(slot: ScheduleKey, classroom: Text)

  function SlotAt(x: Reader, semester: Text, e: Entry, i: nat): Write
    requires i < |e.times|
  {
    PutSlot(ScheduleKey(e.key.code, e.key.section, x.day(e.times[i].0), e.times[i].1, semester), e.classroom)
  }

  function EntryWrites(x: Reader, semester: Text, e: Entry): seq<Write> {
    [AddCourse(e.key, e.info)] + seq(|e.times|, i requires 0 <= i < |e.times| => SlotAt(x, semester, e, i))
  }

  function RowWrites(x: Reader, semester: Text, row: Row): seq<Write> {
    match EntryOf(x, row) case None => [] case Some(e) => EntryWrites(x, semester, e)
  }

  function RowsWrites(x: Reader, semester: Text, rows: seq<Row>): seq<Write> {
    if rows == [] then [] else RowsWrites(x, semester, rows[..|rows| - 1]) + RowWrites(x, semester, rows[|rows| - 1])
  }

  /** The semester a file is imported under; a file without one is left alone. */
  function SemesterOf(x: Reader, f: File): (r: Option<Text>)
    ensures r.Some? ==> r.value != []
  {
    if x.semester(f.name) == Some([]) then None else x.semester(f.name)
  }

  function FileWrites(x: Reader, f: File): seq<Write> {
    match SemesterOf(x, f) case None => [] case Some(semester) => RowsWrites(x, semester, f.rows)
  }

  function FilesWrites(x: Reader, files: seq<File>): seq<Write> {
    if files == [] then [] else FilesWrites(x, files[..|files| - 1]) + FileWrites(x, files[|files| - 1])
  }

  // ---- what writing does ----

  /** INSERT OR IGNORE INTO courses, INSERT OR REPLACE INTO schedules; the latter is refused without its course. */
  function Execute(t: Tables, w: Write): Tables {
    match w
    case AddCourse(key, info) => if key in t.courses then t else t.(courses := t.courses[key := info])
    case PutSlot(slot, classroom) => if Parent(slot) in t.courses then t.(schedules := t.schedules[slot := classroom])
        else t
  }

  function Run(t: Tables, ws: seq<Write>): Tables {
    if ws == [] then t else Execute(Run(t, ws[..|ws| - 1]), ws[|ws| - 1])
  }

  lemma {:induction false} RunAppend(t: Tables, a: seq<Write>, b: seq<Write>)
    ensures Run(t, a + b) == Run(Run(t, a), b)
  {
    if b == [] {
      assert a + b == a;
    } else {
      var n := |b| - 1;
      assert (a + b)[..|a + b| - 1] == a + b[..n];
      RunAppend(t, a, b[..n]);
    }
  }

  function Adds(ws: seq<Write>): nat {
    if ws == [] then 0 else Adds(ws[..|ws| - 1]) + (if ws[|ws| - 1].AddCourse? then 1 else 0)
  }

  lemma {:induction false} AddsAppend(a: seq<Write>, b: seq<Write>)
    ensures Adds(a + b) == Adds(a) + Adds(b)
  {
    if b == [] {
      assert a + b == a;
    } else {
      assert (a + b)[..|a + b| - 1] == a + b[..|b| - 1];
      AddsAppend(a, b[..|b| - 1]);
    }
  }

  lemma {:induction false} SlotsOnly(ws: seq<Write>)
    requires forall w :: w in ws ==> w.PutSlot?
    ensures Adds(ws) == 0
  {
    if ws != [] {
      assert ws[|ws| - 1] in ws;
      SlotsOnly(ws[..|ws| - 1]);
    }
  }

  // ---- the database and the importer ----

  class Database {
    var tables: Tables

    constructor (t: Tables)
      ensures tables == t
    {
      tables := t;
    }

    /** The row count of the cursor afterwards. */
    method InsertOrIgnoreCourse(key: CourseKey, info: CourseInfo) returns (rowcount: int)
      modifies this
      ensures tables == Execute(old(tables), AddCourse(key, info))
      ensures rowcount == |tables.courses| - |old(tables).courses|
    {
      if key in tables.courses { return 0; }
      tables := tables.(courses := tables.courses[key := info]);
      return 1;
    }

    method InsertOrReplaceSchedule(slot: ScheduleKey, classroom: Text) returns (ok: bool)
      modifies this
      ensures tables == Execute(old(tables), PutSlot(slot, classroom)) && ok == (Parent(slot) in old(tables).courses)
    {
      ok := Parent(slot) in tables.courses;
      if ok { tables := tables.(schedules := tables.schedules[slot := classroom]); }
    }
  }

  lemma FirstWrite(t: Tables, key: CourseKey, info: CourseInfo)
    ensures Run(t, [AddCourse(key, info)]) == Execute(t, AddCourse(key, info))
        && key in Execute(t, AddCourse(key, info)).courses
  {
    assert [AddCourse(key, info)][..0] == [];
  }

  lemma PutKeepsCourses(t: Tables, slot: ScheduleKey, classroom: Text)
    ensures Execute(t, PutSlot(slot, classroom)).courses == t.courses
  {
  }

  lemma RunSnoc(t: Tables, ws: seq<Write>, n: nat)
    requires n < |ws|
    ensures Run(t, ws[..n + 1]) == Execute(Run(t, ws[..n]), ws[n])
  {
    assert ws[..n + 1][..n] == ws[..n];
  }

  /** The statements of one row that is not skipped; none of them is refused. */
  method ImportEntry(x: Reader, db: Database, semester: Text, e: Entry) returns (added: int, slots: int)
    modifies db
    ensures db.tables == Run(old(db.tables), EntryWrites(x, semester, e))
    ensures added == |db.tables.courses| - |old(db.tables).courses| && slots == |EntryWrites(x, semester, e)| - 1
  {
    hide Execute;
    ghost var ws := EntryWrites(x, semester, e);
    ghost var start := db.tables;
    FirstWrite(start, e.key, e.info);
    added := db.InsertOrIgnoreCourse(e.key, e.info);
    slots := 0;
    assert ws[..1] == [AddCourse(e.key, e.info)];
    hide Run;
    while slots < |e.times|
      invariant 0 <= slots <= |e.times|
      invariant db.tables == Run(old(db.tables), ws[..slots + 1])
      invariant e.key in db.tables.courses && added == |db.tables.courses| - |old(db.tables).courses|
    {
      var slot := ScheduleKey(e.key.code, e.key.section, x.day(e.times[slots].0), e.times[slots].1, semester);
      PutKeepsCourses(db.tables, slot, e.classroom);
      var ok := db.InsertOrReplaceSchedule(slot, e.classroom);
      assert ok;
      RunSnoc(start, ws, slots + 1);
      slots := slots + 1;
    }
    assert ws[..|e.times| + 1] == ws;
  }

  lemma EntryCounts(x: Reader, semester: Text, e: Entry)
    ensures Adds(EntryWrites(x, semester, e)) == 1
  {
    var puts := EntryWrites(x, semester, e)[1..];
    assert EntryWrites(x, semester, e) == [AddCourse(e.key, e.info)] + puts;
    SlotsOnly(puts);
    AddsAppend([AddCourse(e.key, e.info)], puts);
  }

  /**
   * One file: every row is either skipped or written; the courses counted are those the table gained, the schedules
   * counted are the schedule rows written.
   */
  method ImportFile(x: Reader, db: Database, f: File) returns (courses: int, slots: int, skipped: int)
    modifies db
    ensures db.tables == Run(old(db.tables), FileWrites(x, f))
    ensures courses == |db.tables.courses| - |old(db.tables).courses|
    ensures slots == |FileWrites(x, f)| - Adds(FileWrites(x, f))
    ensures skipped + Adds(FileWrites(x, f)) == if SemesterOf(x, f).Some? then |f.rows| else 0
  {
    courses, slots, skipped := 0, 0, 0;
    var semester := x.semester(f.name);
    if semester.None? || semester.value == [] { return; }
    assert RowsWrites(x, semester.value, f.rows[..0]) == [];
    assert Run(db.tables, []) == db.tables;
    assert Adds([]) == 0;
    hide Run;
    hide Adds;
    for i := 0 to |f.rows|
      invariant db.tables == Run(old(db.tables), RowsWrites(x, semester.value, f.rows[..i]))
      invariant courses == |db.tables.courses| - |old(db.tables).courses|
      invariant slots == |RowsWrites(x, semester.value, f.rows[..i])| - Adds(RowsWrites(x, semester.value, f.rows[..i]))
      invariant skipped + Adds(RowsWrites(x, semester.value, f.rows[..i])) == i
    {
      var row := f.rows[i];
      ghost var done := RowsWrites(x, semester.value, f.rows[..i]);
      assert f.rows[..i + 1][..i] == f.rows[..i];
      assert RowsWrites(x, semester.value, f.rows[..i + 1]) == done + RowWrites(x, semester.value, row);
      if EntryOf(x, row).None? {
        assert done + [] == done;
      }
      if |row| == 0 || |row| <= COL_CLASSROOM { skipped := skipped + 1; continue; }
      var code := ToStr(x, row[COL_CODE]);
      if code == [] || x.lower(code) in {Ascii("course code"), Ascii("none")} { skipped := skipped + 1; continue; }
      var named := ParseTitleSection(x, row[COL_TITLE_SECTION]);
      if named.1 == [] { skipped := skipped + 1; continue; }
      var instructor := ToStr(x, row[COL_TEACHERS]);
      var classroom := ToStr(x, row[COL_CLASSROOM]);
      var hours := ToInt(x, row[COL_HOURS]);
      var times := ParseSchedules(x, row[COL_SCHEDULE], hours);
      if times == [] { skipped := skipped + 1; continue; }
      var e := Entry(CourseKey(code, named.1), CourseInfo(named.0, instructor), classroom, times);
      var added, put := ImportEntry(x, db, semester.value, e);
      courses := courses + added;
      slots := slots + put;
      RunAppend(old(db.tables), done, EntryWrites(x, semester.value, e));
      AddsAppend(done, EntryWrites(x, semester.value, e));
      EntryCounts(x, semester.value, e);
    }
    assert f.rows[..|f.rows|] == f.rows;
  }

  /** How many rows the files have that are imported at all. */
  function RowsToImport(x: Reader, files: seq<File>): nat {
    if files == [] then 0 else
      var last := files[|files| - 1];
      RowsToImport(x, files[..|files| - 1]) + (if SemesterOf(x, last).Some? then |last.rows| else 0)
  }

  /** The loop over the files and its totals. */
  method ImportFiles(x: Reader, db: Database, files: seq<File>) returns (courses: int, slots: int, skipped: int)
    modifies db
    ensures db.tables == Run(old(db.tables), FilesWrites(x, files))
    ensures courses == |db.tables.courses| - |old(db.tables).courses|
    ensures slots == |FilesWrites(x, files)| - Adds(FilesWrites(x, files))
    ensures skipped + Adds(FilesWrites(x, files)) == RowsToImport(x, files)
  {
    courses, slots, skipped := 0, 0, 0;
    for i := 0 to |files|
      invariant db.tables == Run(old(db.tables), FilesWrites(x, files[..i]))
      invariant courses == |db.tables.courses| - |old(db.tables).courses|
      invariant slots == |FilesWrites(x, files[..i])| - Adds(FilesWrites(x, files[..i]))
      invariant skipped + Adds(FilesWrites(x, files[..i])) == RowsToImport(x, files[..i])
    {
      assert files[..i + 1][..i] == files[..i];
      RunAppend(old(db.tables), FilesWrites(x, files[..i]), FileWrites(x, files[i]));
      AddsAppend(FilesWrites(x, files[..i]), FileWrites(x, files[i]));
      var c, s, k := ImportFile(x, db, files[i]);
      courses, slots, skipped := courses + c, slots + s, skipped + k;
    }
    assert files[..|files|] == files;
  }

  // ---- no schedule row without its course ----

  /** Every schedule row is written after its course. */
  ghost predicate CoursesFirst(ws: seq<Write>) {
    forall i :: 0 <= i < |ws| && ws[i].PutSlot? ==>
        exists j :: 0 <= j < i && ws[j].AddCourse? && ws[j].key == Parent(ws[i].slot)
  }

  lemma CoursesFirstAppend(a: seq<Write>, b: seq<Write>)
    requires CoursesFirst(a) && CoursesFirst(b)
    ensures CoursesFirst(a + b)
  {
    var ws := a + b;
    forall i | 0 <= i < |ws| && ws[i].PutSlot?
      ensures exists j :: 0 <= j < i && ws[j].AddCourse? && ws[j].key == Parent(ws[i].slot)
    {
      if i < |a| {
        var j :| 0 <= j < i && a[j].AddCourse? && a[j].key == Parent(a[i].slot);
        assert ws[j] == a[j];
      } else {
        assert b[i - |a|] == ws[i];
        var j :| 0 <= j < i - |a| && b[j].AddCourse? && b[j].key == Parent(b[i - |a|].slot);
        assert ws[|a| + j] == b[j];
      }
    }
  }

  lemma {:induction false} RowsWriteCoursesFirst(x: Reader, semester: Text, rows: seq<Row>)
    ensures CoursesFirst(RowsWrites(x, semester, rows))
  {
    if rows != [] {
      var n := |rows| - 1;
      RowsWriteCoursesFirst(x, semester, rows[..n]);
      var b := RowWrites(x, semester, rows[n]);
      assert CoursesFirst(b) by {
        if b != [] { assert b[0].AddCourse?; }
        hide EntryOf;
      }
      CoursesFirstAppend(RowsWrites(x, semester, rows[..n]), b);
      hide RowWrites;
      hide CoursesFirst;
    }
  }

  lemma {:induction false} FilesWriteCoursesFirst(x: Reader, files: seq<File>)
    ensures CoursesFirst(FilesWrites(x, files))
  {
    if files != [] {
      var n := |files| - 1;
      FilesWriteCoursesFirst(x, files[..n]);
      if SemesterOf(x, files[n]).Some? { RowsWriteCoursesFirst(x, SemesterOf(x, files[n]).value, files[n].rows); }
      CoursesFirstAppend(FilesWrites(x, files[..n]), FileWrites(x, files[n]));
    }
  }

  lemma {:induction false} ForeignKeyAfterWrites(t: Tables, ws: seq<Write>)
    requires ForeignKey(t)
    ensures ForeignKey(Run(t, ws))
  {
    if ws != [] { ForeignKeyAfterWrites(t, ws[..|ws| - 1]); }
  }

  /**
   * After any number of the statements of an import the foreign key holds, and the next one is not refused: its course
   * is there.
   */
  lemma ImportKeepsForeignKey(x: Reader, files: seq<File>, t: Tables, n: nat)
    requires ForeignKey(t) && n < |FilesWrites(x, files)|
    ensures var ws := FilesWrites(x, files);
      ForeignKey(Run(t, ws[..n])) && (ws[n].PutSlot? ==> Parent(ws[n].slot) in Run(t, ws[..n]).courses)
  {
    var ws := FilesWrites(x, files);
    ForeignKeyAfterWrites(t, ws[..n]);
    FilesWriteCoursesFirst(x, files);
    if ws[n].PutSlot? { NextIsAccepted(t, ws, n); }
  }

  lemma {:induction false} AddedCourseIsThere(t: Tables, ws: seq<Write>, j: nat)
    requires j < |ws| && ws[j].AddCourse?
    ensures ws[j].key in Run(t, ws).courses
  {
    if j < |ws| - 1 { AddedCourseIsThere(t, ws[..|ws| - 1], j); }
  }

  // ---- first write wins for courses, last write wins for schedules ----

  function KeepFirst(m: map<CourseKey, CourseInfo>, w: Write): map<CourseKey, CourseInfo> {
    if w.AddCourse? && w.key !in m then m[w.key := w.info] else m
  }

  function Firsts(ws: seq<Write>): map<CourseKey, CourseInfo> {
    if ws == [] then map[] else KeepFirst(Firsts(ws[..|ws| - 1]), ws[|ws| - 1])
  }

  function KeepLast(m: map<ScheduleKey, Text>, w: Write): map<ScheduleKey, Text> {
    if w.PutSlot? then m[w.slot := w.classroom] else m
  }

  function Lasts(ws: seq<Write>): map<ScheduleKey, Text> {
    if ws == [] then map[] else KeepLast(Lasts(ws[..|ws| - 1]), ws[|ws| - 1])
  }

  /** The i-th write is the first to mention its course. */
  predicate FirstAdd(ws: seq<Write>, i: nat) {
    i < |ws| && ws[i].AddCourse? && forall j :: 0 <= j < i && ws[j].AddCourse? ==> ws[j].key != ws[i].key
  }

  /** The i-th write is the last to mention its schedule row. */
  predicate LastPut(ws: seq<Write>, i: nat) {
    i < |ws| && ws[i].PutSlot? && forall j :: i < j < |ws| && ws[j].PutSlot? ==> ws[j].slot != ws[i].slot
  }

  predicate MentionsCourse(ws: seq<Write>, k: CourseKey) {
    exists j :: 0 <= j < |ws| && ws[j].AddCourse? && ws[j].key == k
  }

  predicate MentionsSlot(ws: seq<Write>, k: ScheduleKey) {
    exists j :: 0 <= j < |ws| && ws[j].PutSlot? && ws[j].slot == k
  }

  lemma {:induction false} FirstWins(ws: seq<Write>, i: nat)
    requires FirstAdd(ws, i)
    ensures ws[i].key in Firsts(ws) && Firsts(ws)[ws[i].key] == ws[i].info
  {
    var n := |ws| - 1;
    if i < n {
      FirstWins(ws[..n], i);
    } else {
      FirstsAreAdded(ws[..n]);
    }
  }

  lemma {:induction false} FirstsAreAdded(ws: seq<Write>)
    ensures forall k :: k in Firsts(ws) ==> MentionsCourse(ws, k)
  {
    if ws != [] {
      var n := |ws| - 1;
      FirstsAreAdded(ws[..n]);
      forall k | k in Firsts(ws) ensures MentionsCourse(ws, k) {
        if k in Firsts(ws[..n]) {
          var j :| 0 <= j < n && ws[..n][j].AddCourse? && ws[..n][j].key == k;
          assert ws[j].key == k;
        }
      }
    }
  }

  lemma {:induction false} LastWins(ws: seq<Write>, i: nat)
    requires LastPut(ws, i)
    ensures ws[i].slot in Lasts(ws) && Lasts(ws)[ws[i].slot] == ws[i].classroom
  {
    if i < |ws| - 1 { LastWins(ws[..|ws| - 1], i); }
  }

  lemma {:induction false} LastsArePut(ws: seq<Write>)
    ensures forall k :: k in Lasts(ws) ==> MentionsSlot(ws, k)
  {
    if ws != [] {
      var n := |ws| - 1;
      LastsArePut(ws[..n]);
      forall k | k in Lasts(ws) ensures MentionsSlot(ws, k) {
        if k in Lasts(ws[..n]) {
          var j :| 0 <= j < n && ws[..n][j].PutSlot? && ws[..n][j].slot == k;
          assert ws[j].slot == k;
        }
      }
    }
  }

  lemma CoursesFirstPrefix(ws: seq<Write>, n: nat)
    requires CoursesFirst(ws) && n <= |ws|
    ensures CoursesFirst(ws[..n])
  {
    forall i | 0 <= i < n && ws[..n][i].PutSlot?
      ensures exists j :: 0 <= j < i && ws[..n][j].AddCourse? && ws[..n][j].key == Parent(ws[..n][i].slot)
    {
      var j :| 0 <= j < i && ws[j].AddCourse? && ws[j].key == Parent(ws[i].slot);
      assert ws[..n][j] == ws[j];
    }
  }

  lemma NextIsAccepted(t: Tables, ws: seq<Write>, n: nat)
    requires CoursesFirst(ws) && n < |ws| && ws[n].PutSlot?
    ensures Parent(ws[n].slot) in Run(t, ws[..n]).courses
  {
    var j :| 0 <= j < n && ws[j].AddCourse? && ws[j].key == Parent(ws[n].slot);
    assert ws[..n][j] == ws[j];
    AddedCourseIsThere(t, ws[..n], j);
  }

  /** The tables the writes make of t: its courses win over new ones, new schedule rows over its own. */
  function Merged(t: Tables, m: map<CourseKey, CourseInfo>, l: map<ScheduleKey, Text>): Tables {
    Tables(m + t.courses, t.schedules + l)
  }

  lemma MergeStep(t: Tables, m: map<CourseKey, CourseInfo>, l: map<ScheduleKey, Text>, w: Write)
    requires w.PutSlot? ==> Parent(w.slot) in Merged(t, m, l).courses
    ensures Execute(Merged(t, m, l), w) == Merged(t, KeepFirst(m, w), KeepLast(l, w))
  {
    var after := Execute(Merged(t, m, l), w);
    if w.AddCourse? {
      assert after.courses == KeepFirst(m, w) + t.courses && after.schedules == t.schedules + l;
    } else {
      assert after.courses == m + t.courses && after.schedules == t.schedules + KeepLast(l, w);
    }
  }

  lemma {:induction false} RunMerges(t: Tables, ws: seq<Write>)
    requires CoursesFirst(ws)
    ensures Run(t, ws) == Merged(t, Firsts(ws), Lasts(ws))
  {
    if ws == [] {
      assert map[] + t.courses == t.courses && t.schedules + map[] == t.schedules;
    } else {
      var n := |ws| - 1;
      CoursesFirstPrefix(ws, n);
      RunMerges(t, ws[..n]);
      if ws[n].PutSlot? { NextIsAccepted(t, ws, n); }
      MergeStep(t, Firsts(ws[..n]), Lasts(ws[..n]), ws[n]);
      hide CoursesFirst;
      hide Execute;
      hide Merged;
      hide KeepFirst;
      hide KeepLast;
    }
  }

  /** Importing the same files again changes nothing and counts no new course, whatever was in the tables before. */
  lemma ImportTwiceIsOnce(x: Reader, files: seq<File>, t: Tables)
    ensures var once := Run(t, FilesWrites(x, files)); Run(once, FilesWrites(x, files)) == once
  {
    var ws := FilesWrites(x, files);
    var once := Run(t, ws);
    FilesWriteCoursesFirst(x, files);
    RunMerges(t, ws);
    RunMerges(once, ws);
    assert Firsts(ws) + (Firsts(ws) + t.courses) == Firsts(ws) + t.courses;
    assert (t.schedules + Lasts(ws)) + Lasts(ws) == t.schedules + Lasts(ws);
  }

  /** A course already there keeps its row, a new one has the row of its first mention, and there are no others. */
  lemma CoursesAfterImport(x: Reader, files: seq<File>, t: Tables)
    ensures var ws := FilesWrites(x, files);
      var after := Run(t, ws).courses;
      && (forall k :: k in t.courses ==> k in after && after[k] == t.courses[k])
      && (forall i: nat :: FirstAdd(ws, i) && ws[i].key !in t.courses ==>
            ws[i].key in after && after[ws[i].key] == ws[i].info)
      && (forall k :: k in after && k !in t.courses ==> MentionsCourse(ws, k))
  {
    var ws := FilesWrites(x, files);
    FilesWriteCoursesFirst(x, files);
    RunMerges(t, ws);
    FirstsAreAdded(ws);
    hide FilesWrites;
    hide Run;
    hide CoursesFirst;
    hide FirstAdd;
    hide MentionsCourse;
    forall i: nat | FirstAdd(ws, i) ensures i < |ws| && ws[i].AddCourse? && ws[i].key in Firsts(ws)
        && Firsts(ws)[ws[i].key] == ws[i].info {
      FirstAddMeans(ws, i);
      FirstWins(ws, i);
    }
  }

  lemma FirstAddMeans(ws: seq<Write>, i: nat)
    ensures FirstAdd(ws, i) ==> i < |ws| && ws[i].AddCourse?
  {
  }

  lemma LastPutMeans(ws: seq<Write>, i: nat)
    ensures LastPut(ws, i) ==> i < |ws| && ws[i].PutSlot?
  {
  }

  /**
   * A schedule row has the classroom of its last mention, those not mentioned are untouched, and there are no others.
   */
  lemma SchedulesAfterImport(x: Reader, files: seq<File>, t: Tables)
    ensures var ws := FilesWrites(x, files);
      var after := Run(t, ws).schedules;
      && (forall i: nat :: LastPut(ws, i) ==> ws[i].slot in after && after[ws[i].slot] == ws[i].classroom)
      && (forall k :: k in t.schedules && !MentionsSlot(ws, k) ==> k in after && after[k] == t.schedules[k])
      && (forall k :: k in after && k !in t.schedules ==> MentionsSlot(ws, k))
  {
    var ws := FilesWrites(x, files);
    FilesWriteCoursesFirst(x, files);
    RunMerges(t, ws);
    LastsArePut(ws);
    hide FilesWrites;
    hide Run;
    hide CoursesFirst;
    hide LastPut;
    hide MentionsSlot;
    forall i: nat | LastPut(ws, i) ensures i < |ws| && ws[i].PutSlot? && ws[i].slot in Lasts(ws)
        && Lasts(ws)[ws[i].slot] == ws[i].classroom {
      LastPutMeans(ws, i);
      LastWins(ws, i);
    }
  }
}
