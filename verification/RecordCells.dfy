/**
 * What scripts/import_courses.py makes of a sheet, told from its cells: each field of each record, from the columns
 * with the names the header gives them.
 */
module RecordCells {
  import opened Bytes
  import opened Decimal
  import opened ImportCourses

  /** The cell of a row in the column with that heading, the first if there are several; empty without one. */
  function CellText<Cell>(x: Reader<Cell>, header: seq<Text>, row: seq<Cell>, heading: Text): Text {
    var at := IndexOf(header, heading);
    if at.Some? && at.value < |row| then x.str(row[at.value]) else []
  }

  function TitleIn<Cell>(x: Reader<Cell>, header: seq<Text>, row: seq<Cell>): Text {
    x.titled(CellText(x, header, row, Ascii("Course Title & Session"))).0
  }

  /** The section in the title cell; 0000 if there is none. */
  function SectionIn<Cell>(x: Reader<Cell>, header: seq<Text>, row: seq<Cell>): Text {
    var section := x.titled(CellText(x, header, row, Ascii("Course Title & Session"))).1;
    if section == [] then Ascii("0000") else section
  }

  function MinutesIn<Cell>(x: Reader<Cell>, header: seq<Text>, row: seq<Cell>): int {
    var hours := CellText(x, header, row, Ascii("Hours"));
    if hours == [] then 0 else x.minutes(hours)
  }

  predicate HasCode<Cell>(x: Reader<Cell>, header: seq<Text>, row: seq<Cell>) {
    CellText(x, header, row, Ascii("Course Code")) != []
  }

  function CodedRows<Cell>(x: Reader<Cell>, header: seq<Text>, body: seq<seq<Cell>>): seq<seq<Cell>> {
    if body == [] then [] else
      var front, last := CodedRows(x, header, body[..|body| - 1]), body[|body| - 1];
      if HasCode(x, header, last) then front + [last] else front
  }

  predicate IsOf<Cell>(x: Reader<Cell>, header: seq<Text>, row: seq<Cell>, k: Key) {
    CellText(x, header, row, Ascii("Course Code")) == k.code && SectionIn(x, header, row) == k.section
  }

  /** The rows with that code and section, in order. */
  function RowsOf<Cell>(x: Reader<Cell>, header: seq<Text>, rows: seq<seq<Cell>>, k: Key): seq<seq<Cell>> {
    if rows == [] then [] else
      var front, last := RowsOf(x, header, rows[..|rows| - 1], k), rows[|rows| - 1];
      if IsOf(x, header, last, k) then front + [last] else front
  }

  function TextsIn<Cell>(x: Reader<Cell>, header: seq<Text>, rows: seq<seq<Cell>>, heading: Text): seq<Text> {
    seq(|rows|, i requires 0 <= i < |rows| => CellText(x, header, rows[i], heading))
  }

  function TotalMinutes<Cell>(x: Reader<Cell>, header: seq<Text>, rows: seq<seq<Cell>>): int {
    if rows == [] then 0
    else TotalMinutes(x, header, rows[..|rows| - 1]) + MinutesIn(x, header, rows[|rows| - 1])
  }

  // ---- items are rows ----

  /** What an item holds of its row. */
  predicate Says<Cell>(x: Reader<Cell>, header: seq<Text>, row: seq<Cell>, item: Item) {
    && item.code == CellText(x, header, row, Ascii("Course Code"))
    && item.section == SectionIn(x, header, row)
    && item.title == TitleIn(x, header, row)
    && item.teachers == CellText(x, header, row, Ascii("Teachers"))
    && item.schedule == CellText(x, header, row, Ascii("Class Schedule"))
    && item.minutes == MinutesIn(x, header, row)
    && item.classroom == CellText(x, header, row, Ascii("Classroom"))
  }

  predicate AllSay<Cell>(x: Reader<Cell>, header: seq<Text>, rows: seq<seq<Cell>>, items: seq<Item>) {
    |rows| == |items| && forall i :: 0 <= i < |rows| ==> Says(x, header, rows[i], items[i])
  }

  lemma RowIsRead<Cell>(x: Reader<Cell>, header: seq<Text>, row: seq<Cell>)
    requires ColumnsOf(header).Some?
    ensures var r := ReadRow(x, ColumnsOf(header).value, row);
      && (r.Read? ==> HasCode(x, header, row) && Says(x, header, row, r.item))
      && (r.Skipped? ==> !HasCode(x, header, row))
  {
    hide Ascii;
    hide IndexOf;
  }

  predicate Lacks<Cell>(header: seq<Text>, row: seq<Cell>, heading: Text) {
    IndexOf(header, heading).Some? && IndexOf(header, heading).value >= |row|
  }

  /** The row ends before a column that is asked for: the code, and, if there is a code, any that the header has. */
  predicate TooShort<Cell>(x: Reader<Cell>, header: seq<Text>, row: seq<Cell>) {
    || Lacks(header, row, Ascii("Course Code"))
    || (HasCode(x, header, row)
        && (Lacks(header, row, Ascii("Course Title & Session")) || Lacks(header, row, Ascii("Class Schedule"))
            || Lacks(header, row, Ascii("Teachers")) || Lacks(header, row, Ascii("Hours"))
            || Lacks(header, row, Ascii("Classroom"))))
  }

  lemma ShortRowIsBroken<Cell>(x: Reader<Cell>, header: seq<Text>, row: seq<Cell>)
    requires ColumnsOf(header).Some?
    ensures ReadRow(x, ColumnsOf(header).value, row).Broken? <==> TooShort(x, header, row)
  {
    hide Ascii;
    hide IndexOf;
  }

  /** Reading fails exactly if some row is too short. */
  lemma {:induction false} ReadingFailsIfShort<Cell>(x: Reader<Cell>, header: seq<Text>, body: seq<seq<Cell>>)
    requires ColumnsOf(header).Some?
    ensures Items(x, ColumnsOf(header).value, body).None? <==>
      exists i :: 0 <= i < |body| && TooShort(x, header, body[i])
  {
    hide ReadRow;
    hide ColumnsOf;
    hide TooShort;
    if body != [] {
      var n := |body| - 1;
      ReadingFailsIfShort(x, header, body[..n]);
      ShortRowIsBroken(x, header, body[n]);
      assert forall i :: 0 <= i < n ==> body[..n][i] == body[i];
    }
  }

  lemma {:induction false} ItemsAreRows<Cell>(x: Reader<Cell>, header: seq<Text>, body: seq<seq<Cell>>)
    requires ColumnsOf(header).Some? && Items(x, ColumnsOf(header).value, body).Some?
    ensures AllSay(x, header, CodedRows(x, header, body), Items(x, ColumnsOf(header).value, body).value)
  {
    hide ReadRow;
    hide ColumnsOf;
    hide HasCode;
    hide Says;
    if body != [] {
      var n := |body| - 1;
      ItemsAreRows(x, header, body[..n]);
      RowIsRead(x, header, body[n]);
    }
  }

  lemma {:induction false} MembersAreRows<Cell>(x: Reader<Cell>, header: seq<Text>, rows: seq<seq<Cell>>,
      items: seq<Item>, k: Key)
    requires AllSay(x, header, rows, items)
    ensures AllSay(x, header, RowsOf(x, header, rows, k), Members(items, k))
  {
    hide CellText;
    hide SectionIn;
    hide TitleIn;
    hide MinutesIn;
    hide Ascii;
    if rows != [] {
      var n := |rows| - 1;
      MembersAreRows(x, header, rows[..n], items[..n], k);
      assert Says(x, header, rows[n], items[n]);
      assert IsOf(x, header, rows[n], k) <==> ItemKey(items[n]) == k;
      hide Says;
      hide IsOf;
    }
  }

  lemma {:induction false} MinutesAreRows<Cell>(x: Reader<Cell>, header: seq<Text>, rows: seq<seq<Cell>>,
      items: seq<Item>)
    requires AllSay(x, header, rows, items)
    ensures TotalMinutes(x, header, rows) == Minutes(items)
  {
    hide CellText;
    hide SectionIn;
    hide TitleIn;
    hide MinutesIn;
    hide Ascii;
    if rows != [] {
      var n := |rows| - 1;
      MinutesAreRows(x, header, rows[..n], items[..n]);
      assert Says(x, header, rows[n], items[n]);
    }
  }

  lemma TextsAreRows<Cell>(x: Reader<Cell>, header: seq<Text>, rows: seq<seq<Cell>>, items: seq<Item>)
    requires AllSay(x, header, rows, items)
    ensures Schedules(items) == TextsIn(x, header, rows, Ascii("Class Schedule"))
    ensures Classrooms(items) == TextsIn(x, header, rows, Ascii("Classroom"))
    ensures Teachers(items) == TextsIn(x, header, rows, Ascii("Teachers"))
  {
    hide CellText;
    hide SectionIn;
    hide TitleIn;
    hide MinutesIn;
    hide Ascii;
  }

  // ---- records are rows ----

  /** What a record of some rows with one code and section is. */
  predicate Summarizes<Cell>(x: Reader<Cell>, header: seq<Text>, rows: seq<seq<Cell>>, r: Record) {
    && rows != [] && r.title == TitleIn(x, header, rows[0])
    && r.instructor == FirstOf(NonEmpty(TextsIn(x, header, rows, Ascii("Teachers"))))
    && r.day == Joined(Distinct(NonEmpty(TextsIn(x, header, rows, Ascii("Class Schedule")))))
    && r.duration == ToText(TotalMinutes(x, header, rows))
    && r.classroom == Joined(Distinct(NonEmpty(TextsIn(x, header, rows, Ascii("Classroom")))))
  }

  lemma RecordOfRows<Cell>(x: Reader<Cell>, header: seq<Text>, rows: seq<seq<Cell>>, ms: seq<Item>)
    requires ms != [] && AllSay(x, header, rows, ms)
    ensures Summarizes(x, header, rows, RecordOf(GroupOf(ms)))
    ensures RecordOf(GroupOf(ms)).code == ms[0].code && RecordOf(GroupOf(ms)).section == ms[0].section
  {
    TextsAreRows(x, header, rows, ms);
    MinutesAreRows(x, header, rows, ms);
    assert Says(x, header, rows[0], ms[0]);
    hide TextsIn;
    hide TotalMinutes;
    hide TitleIn;
    hide SectionIn;
    hide CellText;
    hide Joined;
    hide Distinct;
    hide NonEmpty;
    hide Schedules;
    hide Classrooms;
    hide Teachers;
    hide Minutes;
    hide FirstOf;
    hide Ascii;
    hide ToText;
  }

  /**
   * Each record has the code and section of its rows, the title of the first, the first teachers that are not empty,
   * the different schedules and classrooms that are not empty, and the minutes of all.
   */
  lemma RecordsComeFromCells<Cell>(x: Reader<Cell>, header: seq<Text>, body: seq<seq<Cell>>, i: nat)
    requires ColumnsOf(header).Some? && Items(x, ColumnsOf(header).value, body).Some?
    requires i < |Groups(Items(x, ColumnsOf(header).value, body).value)|
    ensures var r := RecordOf(Groups(Items(x, ColumnsOf(header).value, body).value)[i]);
      Summarizes(x, header, RowsOf(x, header, CodedRows(x, header, body), Key(r.code, r.section)), r)
  {
    var xs := Items(x, ColumnsOf(header).value, body).value;
    var k := Distinct(Keys(xs))[i];
    ItemsAreRows(x, header, body);
    MembersAreRows(x, header, CodedRows(x, header, body), xs, k);
    DistinctKeysHaveMembers(xs);
    assert k in Distinct(Keys(xs));
    var ms := Members(xs, k);
    assert Groups(xs)[i] == GroupOf(ms) && ms[0] in ms && ItemKey(ms[0]) == k;
    RecordOfRows(x, header, RowsOf(x, header, CodedRows(x, header, body), k), ms);
    hide Groups;
    hide GroupOf;
    hide RecordOf;
    hide Summarizes;
    hide Members;
    hide Distinct;
    hide Keys;
    hide AllSay;
  }

  /** The first of some texts that is not empty. */
  lemma {:induction false} FirstNonEmpty(s: seq<Text>, p: nat)
    requires p <= |s| && (forall i :: 0 <= i < p ==> s[i] == []) && (p < |s| ==> s[p] != [])
    ensures FirstOf(NonEmpty(s)) == if p < |s| then s[p] else []
  {
    if s != [] {
      var n := |s| - 1;
      FirstNonEmpty(s[..n], if p < n then p else n);
      if p >= n { NothingNonEmpty(s[..n]); }
    }
  }

  lemma {:induction false} NothingNonEmpty(s: seq<Text>)
    requires forall i :: 0 <= i < |s| ==> s[i] == []
    ensures NonEmpty(s) == []
  {
    if s != [] { NothingNonEmpty(s[..|s| - 1]); }
  }

  /** The parts with a semicolon and a blank between them. */
  lemma PartsAreJoined(parts: seq<Text>, last: Text)
    ensures Joined([]) == [] && Joined([last]) == last
    ensures parts != [] ==> Joined(parts + [last]) == Joined(parts) + Ascii("; ") + last
  {
    if parts != [] { assert (parts + [last])[..|parts|] == parts; }
    hide Ascii;
  }
}
