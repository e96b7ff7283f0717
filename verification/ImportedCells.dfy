/**
 * What scripts/import_xlsx.py makes of spreadsheets, told from their cells: which rows are imported, and what each puts
 * into which column of which table.
 */
module ImportedCells {
  import opened Bytes
  import opened Decimal
  import opened CourseTables
  import opened ImportXlsx

  // ---- one row of a sheet ----

  /** str(cell).strip(), and nothing for an empty cell. */
  function Stripped(x: Reader, cell: Cell): Text { if cell.Value? then x.strip(cell.text) else [] }

  /** More than ten cells; a code that is no header word; a title cell with a section; a time. */
  predicate Complete(x: Reader, row: Row) {
    && |row| > 10
    && Stripped(x, row[0]) != []
    && x.lower(Stripped(x, row[0])) != Ascii("course code") && x.lower(Stripped(x, row[0])) != Ascii("none")
    && row[1].Value? && x.titled(x.strip(row[1].text)).Some?
    && x.strip(x.titled(x.strip(row[1].text)).value.1) != []
    && row[8].Value? && (x.times(row[8].text) != [] || x.strip(row[8].text) != [])
  }

  function Code(x: Reader, row: Row): Text
    requires Complete(x, row)
  {
    Stripped(x, row[0])
  }

  function Title(x: Reader, row: Row): Text
    requires Complete(x, row)
  {
    x.strip(x.titled(x.strip(row[1].text)).value.0)
  }

  function Section(x: Reader, row: Row): Text
    requires Complete(x, row)
  {
    x.strip(x.titled(x.strip(row[1].text)).value.1)
  }

  /** The number in the tenth cell; 0 if there is none. */
  function Hours(x: Reader, row: Row): int
    requires Complete(x, row)
  {
    if row[9].Value? && row[9].text != [] && x.number(row[9].text).Some? then x.number(row[9].text).value else 0
  }

  /** The matches in the ninth cell, day and span; without any, the first characters of its text and the hours. */
  function Times(x: Reader, row: Row): (r: seq<(Text, Text)>)
    requires Complete(x, row)
    ensures r != []
  {
    var text := row[8].text;
    if x.times(text) != [] then x.times(text) else [(x.clip(x.strip(text)), ToText(Hours(x, row)))]
  }

  /** The row gives the course with that key. */
  predicate Names(x: Reader, row: Row, k: CourseKey) {
    Complete(x, row) && k.code == Code(x, row) && k.section == Section(x, row)
  }

  /** The row, under a semester, gives the schedule row with that key. */
  predicate Puts(x: Reader, semester: Text, row: Row, k: ScheduleKey) {
    && Complete(x, row) && k.code == Code(x, row) && k.section == Section(x, row) && k.semester == semester
    && exists i :: 0 <= i < |Times(x, row)| && k.day == x.day(Times(x, row)[i].0) && k.duration == Times(x, row)[i].1
  }

  lemma EntryIsComplete(x: Reader, row: Row)
    ensures EntryOf(x, row).Some? <==> Complete(x, row)
    ensures Complete(x, row) ==>
      var e := EntryOf(x, row).value;
      && e.key == CourseKey(Code(x, row), Section(x, row))
      && e.info == CourseInfo(Title(x, row), Stripped(x, row[7]))
      && e.classroom == Stripped(x, row[10]) && e.times == Times(x, row)
  {
    hide Ascii;
    hide ToText;
  }

  /** A row is imported exactly if it is complete. */
  lemma CompleteIsImported(x: Reader, semester: Text, row: Row)
    ensures RowWrites(x, semester, row) != [] <==> Complete(x, row)
    ensures Adds(RowWrites(x, semester, row)) == if Complete(x, row) then 1 else 0
    ensures |RowWrites(x, semester, row)| == if Complete(x, row) then 1 + |Times(x, row)| else 0
  {
    EntryIsComplete(x, row);
    if Complete(x, row) { EntryCounts(x, semester, EntryOf(x, row).value); }
    hide EntryOf;
    hide Complete;
    hide Times;
  }

  /** What it puts into the tables: its course, and a schedule row for each of its times. */
  lemma WritesOfRow(x: Reader, semester: Text, row: Row)
    requires Complete(x, row)
    ensures var ws := RowWrites(x, semester, row);
      && |ws| == 1 + |Times(x, row)|
      && ws[0] == AddCourse(CourseKey(Code(x, row), Section(x, row)),
                            CourseInfo(Title(x, row), Stripped(x, row[7])))
      && forall i :: 0 <= i < |Times(x, row)| ==>
           ws[i + 1] == PutSlot(ScheduleKey(Code(x, row), Section(x, row), x.day(Times(x, row)[i].0),
                                            Times(x, row)[i].1, semester), Stripped(x, row[10]))
  {
    EntryIsComplete(x, row);
    hide EntryOf;
    hide Complete;
    hide Times;
    hide Code;
    hide Title;
    hide Section;
    hide Stripped;
  }

  // ---- first and last, over appended writes ----

  lemma {:induction false} FirstsAppend(a: seq<Write>, b: seq<Write>)
    ensures Firsts(a + b) == Firsts(b) + Firsts(a)
  {
    if b == [] {
      assert a + b == a;
    } else {
      var n := |b| - 1;
      assert (a + b)[..|a + b| - 1] == a + b[..n];
      FirstsAppend(a, b[..n]);
    }
  }

  lemma {:induction false} LastsAppend(a: seq<Write>, b: seq<Write>)
    ensures Lasts(a + b) == Lasts(a) + Lasts(b)
  {
    if b == [] {
      assert a + b == a;
    } else {
      var n := |b| - 1;
      assert (a + b)[..|a + b| - 1] == a + b[..n];
      LastsAppend(a, b[..n]);
    }
  }

  lemma {:induction false} FirstsOfOneCourse(ws: seq<Write>)
    requires ws != [] && ws[0].AddCourse? && forall i :: 0 < i < |ws| ==> ws[i].PutSlot?
    ensures Firsts(ws) == map[ws[0].key := ws[0].info]
  {
    if |ws| == 1 {
      assert Firsts(ws[..0]) == map[];
    } else {
      FirstsOfOneCourse(ws[..|ws| - 1]);
    }
  }

  lemma {:induction false} LastsOfOneRoom(ws: seq<Write>, classroom: Text)
    requires forall i :: 0 <= i < |ws| && ws[i].PutSlot? ==> ws[i].classroom == classroom
    ensures forall k :: k in Lasts(ws) <==> MentionsSlot(ws, k)
    ensures forall k :: k in Lasts(ws) ==> Lasts(ws)[k] == classroom
  {
    if ws != [] {
      var n := |ws| - 1;
      LastsOfOneRoom(ws[..n], classroom);
      forall k ensures MentionsSlot(ws, k) <==> MentionsSlot(ws[..n], k) || (ws[n].PutSlot? && ws[n].slot == k) {
        MentionsMore(ws, k);
      }
      hide MentionsSlot;
    }
  }

  lemma MentionsMore(ws: seq<Write>, k: ScheduleKey)
    requires ws != []
    ensures var n := |ws| - 1;
      MentionsSlot(ws, k) <==> MentionsSlot(ws[..n], k) || (ws[n].PutSlot? && ws[n].slot == k)
  {
    var n := |ws| - 1;
    if MentionsSlot(ws[..n], k) {
      var j :| 0 <= j < n && ws[..n][j].PutSlot? && ws[..n][j].slot == k;
      assert ws[j] == ws[..n][j];
    }
    if MentionsSlot(ws, k) && !(ws[n].PutSlot? && ws[n].slot == k) {
      var j :| 0 <= j < |ws| && ws[j].PutSlot? && ws[j].slot == k;
      assert ws[..n][j] == ws[j];
    }
  }

  lemma FirstsOfRow(x: Reader, semester: Text, row: Row, k: CourseKey)
    ensures var m := Firsts(RowWrites(x, semester, row));
      && (k in m <==> Names(x, row, k))
      && (k in m ==> m[k] == CourseInfo(Title(x, row), Stripped(x, row[7])))
  {
    CompleteIsImported(x, semester, row);
    if Complete(x, row) {
      WritesOfRow(x, semester, row);
      FirstsOfOneCourse(RowWrites(x, semester, row));
    }
    hide RowWrites;
    hide Complete;
    hide Times;
    hide Code;
    hide Title;
    hide Section;
  }

  lemma CompleteIsLong(x: Reader, row: Row)
    requires Complete(x, row)
    ensures |row| > 10
  {
  }

  lemma LastsOfRow(x: Reader, semester: Text, row: Row, k: ScheduleKey)
    ensures var m := Lasts(RowWrites(x, semester, row));
      && (k in m <==> Puts(x, semester, row, k))
      && (k in m ==> m[k] == Stripped(x, row[10]))
  {
    hide Complete;
    hide Times;
    hide Code;
    hide Section;
    hide RowWrites;
    hide Lasts;
    CompleteIsImported(x, semester, row);
    var ws := RowWrites(x, semester, row);
    if Complete(x, row) {
      WritesOfRow(x, semester, row);
      CompleteIsLong(x, row);
      forall i | 0 <= i < |ws| && ws[i].PutSlot? ensures i > 0 && ws[i].classroom == Stripped(x, row[10]) {
        if i > 0 {
          var time := Times(x, row)[i - 1];
          assert ws[i] == ws[(i - 1) + 1];
        }
      }
      LastsOfOneRoom(ws, Stripped(x, row[10]));
      MentionedIsPut(x, semester, row, k);
    } else {
      LastsOfOneRoom(ws, []);
    }
  }

  lemma MentionedIsPut(x: Reader, semester: Text, row: Row, k: ScheduleKey)
    requires Complete(x, row)
    ensures MentionsSlot(RowWrites(x, semester, row), k) <==> Puts(x, semester, row, k)
  {
    hide Complete;
    hide Times;
    hide Code;
    hide Title;
    hide Section;
    hide Stripped;
    hide RowWrites;
    WritesOfRow(x, semester, row);
    var ws := RowWrites(x, semester, row);
    if MentionsSlot(ws, k) {
      var j :| 0 <= j < |ws| && ws[j].PutSlot? && ws[j].slot == k;
      assert j > 0 && ws[j] == ws[(j - 1) + 1];
      assert k.day == x.day(Times(x, row)[j - 1].0) && k.duration == Times(x, row)[j - 1].1;
    }
    if Puts(x, semester, row, k) {
      var i :| 0 <= i < |Times(x, row)| && k.day == x.day(Times(x, row)[i].0) && k.duration == Times(x, row)[i].1;
      assert ws[i + 1].PutSlot? && ws[i + 1].slot == k;
    }
  }

  // ---- all rows of all sheets ----

  function Under(semester: Text, rows: seq<Row>): seq<(Text, Row)> {
    seq(|rows|, i requires 0 <= i < |rows| => (semester, rows[i]))
  }

  /** The rows of a file whose name gives a semester, with it; of another file none. */
  function SheetRowsOf(x: Reader, f: File): seq<(Text, Row)> {
    if x.semester(f.name).None? || x.semester(f.name).value == [] then [] else Under(x.semester(f.name).value, f.rows)
  }

  function SheetRows(x: Reader, files: seq<File>): seq<(Text, Row)> {
    if files == [] then [] else SheetRows(x, files[..|files| - 1]) + SheetRowsOf(x, files[|files| - 1])
  }

  function WritesOf(x: Reader, rows: seq<(Text, Row)>): seq<Write> {
    if rows == [] then []
    else WritesOf(x, rows[..|rows| - 1]) + RowWrites(x, rows[|rows| - 1].0, rows[|rows| - 1].1)
  }

  lemma {:induction false} WritesAppend(x: Reader, a: seq<(Text, Row)>, b: seq<(Text, Row)>)
    ensures WritesOf(x, a + b) == WritesOf(x, a) + WritesOf(x, b)
  {
    hide RowWrites;
    if b == [] {
      assert a + b == a;
    } else {
      var n := |b| - 1;
      assert (a + b)[..|a + b| - 1] == a + b[..n];
      WritesAppend(x, a, b[..n]);
    }
  }

  lemma {:induction false} RowsOfOneFile(x: Reader, semester: Text, rows: seq<Row>)
    ensures WritesOf(x, Under(semester, rows)) == RowsWrites(x, semester, rows)
  {
    hide RowWrites;
    if rows != [] {
      var n := |rows| - 1;
      assert Under(semester, rows)[..n] == Under(semester, rows[..n]);
      RowsOfOneFile(x, semester, rows[..n]);
    }
  }

  lemma FileIsItsRows(x: Reader, f: File)
    ensures FileWrites(x, f) == WritesOf(x, SheetRowsOf(x, f))
  {
    hide RowsWrites;
    hide RowWrites;
    if SemesterOf(x, f).Some? { RowsOfOneFile(x, SemesterOf(x, f).value, f.rows); }
  }

  lemma {:induction false} FilesAreTheirRows(x: Reader, files: seq<File>)
    ensures FilesWrites(x, files) == WritesOf(x, SheetRows(x, files))
  {
    hide FileWrites;
    hide SheetRowsOf;
    hide WritesOf;
    if files != [] {
      var n := |files| - 1;
      FilesAreTheirRows(x, files[..n]);
      FileIsItsRows(x, files[n]);
      WritesAppend(x, SheetRows(x, files[..n]), SheetRowsOf(x, files[n]));
    } else {
      NoRowsNoWrites(x);
    }
  }

  lemma NoRowsNoWrites(x: Reader)
    ensures WritesOf(x, []) == []
  {
  }

  /** The p-th row is the first to give that course, or the last to give that schedule row. */
  predicate FirstToName(x: Reader, rows: seq<(Text, Row)>, p: nat, k: CourseKey) {
    p < |rows| && Names(x, rows[p].1, k) && forall q :: 0 <= q < p ==> !Names(x, rows[q].1, k)
  }

  predicate LastToPut(x: Reader, rows: seq<(Text, Row)>, p: nat, k: ScheduleKey) {
    && p < |rows| && Puts(x, rows[p].0, rows[p].1, k)
    && forall q :: p < q < |rows| ==> !Puts(x, rows[q].0, rows[q].1, k)
  }

  lemma {:induction false} FirstsOfRows(x: Reader, rows: seq<(Text, Row)>, k: CourseKey)
    ensures var m := Firsts(WritesOf(x, rows));
      && (forall p: nat :: FirstToName(x, rows, p, k) ==>
            k in m && m[k] == CourseInfo(Title(x, rows[p].1), Stripped(x, rows[p].1[7])))
      && ((forall p :: 0 <= p < |rows| ==> !Names(x, rows[p].1, k)) ==> k !in m)
  {
    hide RowWrites;
    hide Complete;
    hide Title;
    hide Code;
    hide Section;
    hide Stripped;
    if rows != [] {
      var n := |rows| - 1;
      FirstsOfRows(x, rows[..n], k);
      FirstsAppend(WritesOf(x, rows[..n]), RowWrites(x, rows[n].0, rows[n].1));
      FirstsOfRow(x, rows[n].0, rows[n].1, k);
      hide Firsts;
      forall p: nat | FirstToName(x, rows, p, k) && p < n ensures FirstToName(x, rows[..n], p, k) {
      }
    }
  }

  lemma {:induction false} LastsOfRows(x: Reader, rows: seq<(Text, Row)>, k: ScheduleKey)
    ensures var m := Lasts(WritesOf(x, rows));
      && (forall p: nat :: LastToPut(x, rows, p, k) ==> k in m && m[k] == Stripped(x, rows[p].1[10]))
      && ((forall p :: 0 <= p < |rows| ==> !Puts(x, rows[p].0, rows[p].1, k)) ==> k !in m)
  {
    hide RowWrites;
    hide Complete;
    hide Stripped;
    hide Puts;
    if rows != [] {
      var n := |rows| - 1;
      LastsOfRows(x, rows[..n], k);
      LastsAppend(WritesOf(x, rows[..n]), RowWrites(x, rows[n].0, rows[n].1));
      LastsOfRow(x, rows[n].0, rows[n].1, k);
      hide Lasts;
      forall p: nat | LastToPut(x, rows, p, k) && p < n ensures LastToPut(x, rows[..n], p, k) {
      }
    }
  }

  /**
   * A course already there is kept; a new one has title and instructor from the cells of the first row that gives it;
   * and there are no others.
   */
  lemma CoursesComeFromCells(x: Reader, files: seq<File>, t: Tables, k: CourseKey)
    ensures var rows, after := SheetRows(x, files), Run(t, FilesWrites(x, files)).courses;
      && (k in t.courses ==> k in after && after[k] == t.courses[k])
      && (forall p: nat :: FirstToName(x, rows, p, k) && k !in t.courses ==>
            k in after && after[k] == CourseInfo(Title(x, rows[p].1), Stripped(x, rows[p].1[7])))
      && (k !in t.courses && (forall p :: 0 <= p < |rows| ==> !Names(x, rows[p].1, k)) ==> k !in after)
  {
    FilesWriteCoursesFirst(x, files);
    RunMerges(t, FilesWrites(x, files));
    FilesAreTheirRows(x, files);
    FirstsOfRows(x, SheetRows(x, files), k);
    hide FilesWrites;
    hide SheetRows;
    hide WritesOf;
    hide Run;
    hide Firsts;
    hide Lasts;
    hide CoursesFirst;
    hide FirstToName;
    hide Names;
    hide Title;
    hide Stripped;
  }

  /**
   * A schedule row has the classroom of the last sheet row that gives it, with that row's code, section, day and span
   * and the semester of its file; one that no sheet row gives is as before.
   */
  lemma SchedulesComeFromCells(x: Reader, files: seq<File>, t: Tables, k: ScheduleKey)
    ensures var rows, after := SheetRows(x, files), Run(t, FilesWrites(x, files)).schedules;
      && (forall p: nat :: LastToPut(x, rows, p, k) ==> k in after && after[k] == Stripped(x, rows[p].1[10]))
      && ((forall p :: 0 <= p < |rows| ==> !Puts(x, rows[p].0, rows[p].1, k)) ==>
            (k in after <==> k in t.schedules) && (k in after ==> after[k] == t.schedules[k]))
  {
    FilesWriteCoursesFirst(x, files);
    RunMerges(t, FilesWrites(x, files));
    FilesAreTheirRows(x, files);
    LastsOfRows(x, SheetRows(x, files), k);
    hide FilesWrites;
    hide SheetRows;
    hide WritesOf;
    hide Run;
    hide Firsts;
    hide Lasts;
    hide CoursesFirst;
    hide LastToPut;
    hide Puts;
    hide Stripped;
  }

  // ---- the counts ----

  function CompleteRows(x: Reader, rows: seq<(Text, Row)>): nat {
    if rows == [] then 0
    else CompleteRows(x, rows[..|rows| - 1]) + (if Complete(x, rows[|rows| - 1].1) then 1 else 0)
  }

  function TimesOfRows(x: Reader, rows: seq<(Text, Row)>): nat {
    if rows == [] then 0
    else
      var last := rows[|rows| - 1].1;
      TimesOfRows(x, rows[..|rows| - 1]) + (if Complete(x, last) then |Times(x, last)| else 0)
  }

  lemma {:induction false} RowsAreCounted(x: Reader, rows: seq<(Text, Row)>)
    ensures Adds(WritesOf(x, rows)) == CompleteRows(x, rows)
    ensures |WritesOf(x, rows)| == CompleteRows(x, rows) + TimesOfRows(x, rows)
  {
    hide RowWrites;
    hide Complete;
    hide Times;
    if rows != [] {
      var n := |rows| - 1;
      RowsAreCounted(x, rows[..n]);
      AddsAppend(WritesOf(x, rows[..n]), RowWrites(x, rows[n].0, rows[n].1));
      CompleteIsImported(x, rows[n].0, rows[n].1);
    }
  }

  lemma {:induction false} RowsToCount(x: Reader, files: seq<File>)
    ensures RowsToImport(x, files) == |SheetRows(x, files)|
  {
    if files != [] { RowsToCount(x, files[..|files| - 1]); }
  }

  /** What the importer counts: rows imported, schedule rows written, and all rows of files that have a semester. */
  lemma CountsComeFromCells(x: Reader, files: seq<File>)
    ensures Adds(FilesWrites(x, files)) == CompleteRows(x, SheetRows(x, files))
    ensures |FilesWrites(x, files)| - Adds(FilesWrites(x, files)) == TimesOfRows(x, SheetRows(x, files))
    ensures RowsToImport(x, files) == |SheetRows(x, files)|
  {
    FilesAreTheirRows(x, files);
    RowsAreCounted(x, SheetRows(x, files));
    RowsToCount(x, files);
  }
}
