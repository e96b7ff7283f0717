/**
 * Lists as text: the server's serializers with 0x1F between fields and 0x1E between records, the client's parsers,
 * and the bridge's tab-separated line.
 */
module ListCodec {
  import opened Bytes
  import opened Decimal
  import opened Separators
  import opened CourseTables

  function FieldsOf(c: Course): seq<Text> {
    [c.code, c.title, c.section, c.instructor, c.day, c.duration, c.semester, c.classroom]
  }

  function CourseOf(f: seq<Text>): Course
    requires |f| >= 8
  {
    Course(f[0], f[1], f[2], f[3], f[4], f[5], f[6], f[7])
  }

  predicate FieldsFree(c: Course, sep: byte) { AllFree(FieldsOf(c), sep) }

  predicate Clean(c: Course) { FieldsFree(c, RECORD_SEP) && FieldsFree(c, FIELD_SEP) }

  // ---- writing ----

  /** Each element preceded by sep, after what is already there. */
  function Appended(start: Text, parts: seq<Text>, sep: byte): Text {
    if parts == [] then start else Appended(start, parts[..|parts| - 1], sep) + [sep] + parts[|parts| - 1]
  }

  lemma {:induction false} AppendedIsJoin(start: Text, parts: seq<Text>, sep: byte)
    ensures Appended(start, parts, sep) == Join([start] + parts, sep)
  {
    if parts != [] {
      var front, last := parts[..|parts| - 1], parts[|parts| - 1];
      AppendedIsJoin(start, front, sep);
      JoinSnoc([start] + front, last, sep);
      assert [start] + parts == ([start] + front) + [last];
    }
  }

  function Record(c: Course): Text { Join(FieldsOf(c), FIELD_SEP) }

  function Records(cs: seq<Course>): (r: seq<Text>)
    ensures |r| == |cs|
  {
    seq(|cs|, i requires 0 <= i < |cs| => Record(cs[i]))
  }

  function SerializeCourses(cs: seq<Course>): (s: Text)
    ensures s != []
  {
    AppendedIsJoin(ToText(|cs|), Records(cs), RECORD_SEP);
    JoinNotEmpty([ToText(|cs|)] + Records(cs), RECORD_SEP);
    Appended(ToText(|cs|), Records(cs), RECORD_SEP)
  }

  lemma JoinNotEmpty(parts: seq<Text>, sep: byte)
    requires parts != [] && parts[0] != []
    ensures Join(parts, sep) != []
  {
  }

  lemma EightFields(c: Course)
    ensures Record(c) ==
      c.code + [FIELD_SEP] + c.title + [FIELD_SEP] + c.section + [FIELD_SEP] + c.instructor + [FIELD_SEP]
      + c.day + [FIELD_SEP] + c.duration + [FIELD_SEP] + c.semester + [FIELD_SEP] + c.classroom
  {
    var f := FieldsOf(c);
    assert Join(f[7..], FIELD_SEP) == c.classroom;
    JoinTail(f, 6); JoinTail(f, 5); JoinTail(f, 4); JoinTail(f, 3); JoinTail(f, 2); JoinTail(f, 1); JoinTail(f, 0);
    assert f[0..] == f;
  }

  lemma JoinTail(f: seq<Text>, i: nat)
    requires i + 1 < |f|
    ensures Join(f[i..], FIELD_SEP) == f[i] + [FIELD_SEP] + Join(f[i + 1..], FIELD_SEP)
  {
    assert f[i..][1..] == f[i + 1..];
  }

  method WriteCourses(courses: seq<Course>) returns (os: Text)
    ensures os == SerializeCourses(courses)
  {
    os := ToText(|courses|);
    for i := 0 to |courses|
      invariant os == Appended(ToText(|courses|), Records(courses)[..i], RECORD_SEP)
    {
      var c := courses[i];
      EightFields(c);
      assert Records(courses)[..i + 1][..i] == Records(courses)[..i];
      os := os + [RECORD_SEP]
        + (c.code + [FIELD_SEP] + c.title + [FIELD_SEP] + c.section + [FIELD_SEP] + c.instructor + [FIELD_SEP]
           + c.day + [FIELD_SEP] + c.duration + [FIELD_SEP] + c.semester + [FIELD_SEP] + c.classroom);
    }
    assert Records(courses)[..|courses|] == Records(courses);
  }

  /** <count><RS><name1><RS><name2>... */
  function SerializeNames(names: seq<Text>): (s: Text)
    ensures s != []
  {
    AppendedIsJoin(ToText(|names|), names, RECORD_SEP);
    JoinNotEmpty([ToText(|names|)] + names, RECORD_SEP);
    Appended(ToText(|names|), names, RECORD_SEP)
  }

  // ---- reading ----

  /** The records that have at least eight fields. */
  function CoursesIn(records: seq<Text>): seq<Course> {
    if records == [] then [] else
      var front := CoursesIn(records[..|records| - 1]);
      var f := Split(records[|records| - 1], FIELD_SEP);
      if |f| < 8 then front else front + [CourseOf(f)]
  }

  function ParseCourses(payload: Text): seq<Course> {
    if payload == [] then [] else CoursesIn(Split(payload, RECORD_SEP)[1..])
  }

  method ReadCourses(payload: Text) returns (result: seq<Course>)
    ensures result == ParseCourses(payload)
  {
    result := [];
    if payload == [] { return; }
    var records := SplitText(payload, RECORD_SEP);
    for i := 1 to |records|
      invariant result == CoursesIn(records[1..i])
    {
      var f := SplitText(records[i], FIELD_SEP);
      assert records[1..i + 1][..i - 1] == records[1..i];
      assert records[1..i + 1][i - 1] == records[i];
      if |f| >= 8 { result := result + [CourseOf(f)]; }
    }
    assert records[1..|records|] == records[1..];
  }

  /** The non-empty records. */
  function NamesIn(records: seq<Text>): seq<Text> {
    if records == [] then [] else
      NamesIn(records[..|records| - 1]) + if records[|records| - 1] != [] then [records[|records| - 1]] else []
  }

  function ParseNames(payload: Text): seq<Text> {
    NamesIn(Split(payload, RECORD_SEP)[1..])
  }

  method ReadNames(payload: Text) returns (admins: seq<Text>)
    ensures admins == ParseNames(payload)
  {
    admins := [];
    var records := SplitText(payload, RECORD_SEP);
    for i := 1 to |records|
      invariant admins == NamesIn(records[1..i])
    {
      assert records[1..i + 1][..i - 1] == records[1..i];
      assert records[1..i + 1][i - 1] == records[i];
      if records[i] != [] { admins := admins + [records[i]]; }
    }
    assert records[1..|records|] == records[1..];
  }

  // ---- reading undoes writing ----

  lemma {:induction false} JoinFree(parts: seq<Text>, sep: byte, other: byte)
    requires parts != [] && AllFree(parts, other) && other != sep
    ensures Free(Join(parts, sep), other)
  {
    assert parts[0] in parts;
    if |parts| > 1 { JoinFree(parts[1..], sep, other); }
  }

  lemma {:induction false} JoinFreeOnlyIf(parts: seq<Text>, sep: byte, other: byte)
    requires parts != [] && Free(Join(parts, sep), other)
    ensures AllFree(parts, other)
  {
    assert parts == [parts[0]] + parts[1..];
    if |parts| > 1 { JoinFreeOnlyIf(parts[1..], sep, other); }
  }

  lemma {:induction false} CoursesInRecords(cs: seq<Course>)
    requires forall c :: c in cs ==> Clean(c)
    ensures CoursesIn(Records(cs)) == cs
  {
    if cs != [] {
      var front, last := cs[..|cs| - 1], cs[|cs| - 1];
      CoursesInRecords(front);
      assert Records(cs)[..|cs| - 1] == Records(front);
      assert last in cs;
      SplitOfJoin(FieldsOf(last), FIELD_SEP);
      assert cs == front + [last];
    }
  }

  lemma CountIsFree(n: nat, sep: byte)
    requires sep < 45
    ensures Free(ToText(n), sep)
  {
  }

  lemma CourseInRecord(record: Text)
    requires Free(record, RECORD_SEP) && |Split(record, FIELD_SEP)| >= 8
    ensures Clean(CourseOf(Split(record, FIELD_SEP)))
  {
    var f := Split(record, FIELD_SEP);
    JoinOfSplit(record, FIELD_SEP);
    JoinFreeOnlyIf(f, FIELD_SEP, RECORD_SEP);
    hide Split;
    hide Join;
    forall x | x in FieldsOf(CourseOf(f)) ensures x in f {
      var i :| 0 <= i < 8 && FieldsOf(CourseOf(f))[i] == x;
      assert f[i] == x;
    }
  }

  /** What is parsed never holds a separator. */
  lemma {:induction false} ParsedCoursesAreClean(records: seq<Text>)
    requires AllFree(records, RECORD_SEP)
    ensures forall c :: c in CoursesIn(records) ==> Clean(c)
  {
    hide Clean;
    hide Split;
    if records != [] {
      var last := records[|records| - 1];
      assert last in records;
      ParsedCoursesAreClean(records[..|records| - 1]);
      if |Split(last, FIELD_SEP)| >= 8 { CourseInRecord(last); }
    }
  }

  lemma CleanListIsParsed(cs: seq<Course>)
    requires forall c :: c in cs ==> Clean(c)
    ensures ParseCourses(SerializeCourses(cs)) == cs
  {
    var parts := [ToText(|cs|)] + Records(cs);
    forall p | p in parts ensures Free(p, RECORD_SEP) {
      CountIsFree(|cs|, RECORD_SEP);
      if p in Records(cs) {
        var i :| 0 <= i < |cs| && p == Record(cs[i]);
        assert Clean(cs[i]);
        JoinFree(FieldsOf(cs[i]), FIELD_SEP, RECORD_SEP);
      }
    }
    AppendedIsJoin(ToText(|cs|), Records(cs), RECORD_SEP);
    SplitOfJoin(parts, RECORD_SEP);
    assert parts[1..] == Records(cs);
    CoursesInRecords(cs);
  }

  lemma CoursesInOne(record: Text)
    ensures var f := Split(record, FIELD_SEP);
      CoursesIn([record]) == if |f| < 8 then [] else [Course(f[0], f[1], f[2], f[3], f[4], f[5], f[6], f[7])]
  {
    hide Split;
    assert [record][..0] == [];
  }

  lemma SecondPiece(count: Text, record: Text)
    requires Free(count, RECORD_SEP) && Free(record, RECORD_SEP)
    ensures Split(count + [RECORD_SEP] + record, RECORD_SEP) == [count, record]
  {
    assert Join([count, record], RECORD_SEP) == count + [RECORD_SEP] + record;
    SplitOfJoin([count, record], RECORD_SEP);
    hide Split;
  }

  /** Of any one record the first eight fields make a course, whatever follows them; with fewer there is none. */
  lemma OneRecordIsRead(f: seq<Text>, count: Text)
    requires f != [] && AllFree(f, RECORD_SEP) && AllFree(f, FIELD_SEP) && Free(count, RECORD_SEP)
    ensures ParseCourses(count + [RECORD_SEP] + Join(f, FIELD_SEP)) ==
      if |f| < 8 then [] else [Course(f[0], f[1], f[2], f[3], f[4], f[5], f[6], f[7])]
  {
    hide Split;
    hide Join;
    hide CoursesIn;
    hide Free;
    JoinFree(f, FIELD_SEP, RECORD_SEP);
    SecondPiece(count, Join(f, FIELD_SEP));
    SplitOfJoin(f, FIELD_SEP);
    CoursesInOne(Join(f, FIELD_SEP));
  }

  /** A list survives exactly when no field of it holds a separator. */
  lemma ParseOfSerializeCourses(cs: seq<Course>)
    ensures ParseCourses(SerializeCourses(cs)) == cs <==> forall c :: c in cs ==> Clean(c)
  {
    hide Clean;
    hide Split;
    if forall c :: c in cs ==> Clean(c) { CleanListIsParsed(cs); }
    var payload := SerializeCourses(cs);
    JoinOfSplit(payload, RECORD_SEP);
    ParsedCoursesAreClean(Split(payload, RECORD_SEP)[1..]);
    hide SerializeCourses;
  }

  lemma {:induction false} NamesInAll(names: seq<Text>)
    ensures NamesIn(names) == names <==> [] !in names
    ensures |NamesIn(names)| <= |names|
  {
    if names != [] {
      var front, last := names[..|names| - 1], names[|names| - 1];
      NamesInAll(front);
      assert names == front + [last];
      if last != [] && NamesIn(names) == names {
        assert NamesIn(names)[..|names| - 1] == NamesIn(front);
      }
    }
  }

  /** The first record of a payload is the number of those that follow. */
  lemma PayloadsStartWithTheirCount(cs: seq<Course>, names: seq<Text>)
    ensures Split(SerializeCourses(cs), RECORD_SEP)[0] == ToText(|cs|)
    ensures Split(SerializeNames(names), RECORD_SEP)[0] == ToText(|names|)
  {
    AppendedIsJoin(ToText(|cs|), Records(cs), RECORD_SEP);
    AppendedIsJoin(ToText(|names|), names, RECORD_SEP);
    CountIsFree(|cs|, RECORD_SEP);
    CountIsFree(|names|, RECORD_SEP);
    FirstPieceIsFirst(ToText(|cs|), Records(cs), RECORD_SEP);
    FirstPieceIsFirst(ToText(|names|), names, RECORD_SEP);
    hide Split;
    hide Join;
    hide ToText;
    hide Appended;
  }

  lemma FirstPieceIsFirst(count: Text, parts: seq<Text>, sep: byte)
    requires Free(count, sep)
    ensures Split(Join([count] + parts, sep), sep)[0] == count
  {
    SplitFree(count, sep);
    if parts != [] {
      assert ([count] + parts)[1..] == parts;
      SplitAt(count, Join(parts, sep), sep);
    }
    hide Split;
  }

  lemma {:induction false} NamesAreRecords(records: seq<Text>)
    ensures [] !in NamesIn(records) && forall x :: x in NamesIn(records) ==> x in records
  {
    if records != [] { NamesAreRecords(records[..|records| - 1]); }
  }

  /**
   * Decoding drops empty names and, if no name holds the separator, nothing else; the list survives exactly when none
   * is empty or holds it.
   */
  lemma ParseOfSerializeNames(names: seq<Text>)
    ensures AllFree(names, RECORD_SEP) ==> ParseNames(SerializeNames(names)) == NamesIn(names)
    ensures ParseNames(SerializeNames(names)) == names <==> AllFree(names, RECORD_SEP) && [] !in names
  {
    hide Split;
    NamesInAll(names);
    if AllFree(names, RECORD_SEP) {
      var parts := [ToText(|names|)] + names;
      CountIsFree(|names|, RECORD_SEP);
      AppendedIsJoin(ToText(|names|), names, RECORD_SEP);
      SplitOfJoin(parts, RECORD_SEP);
      assert parts[1..] == names;
    }
    var payload := SerializeNames(names);
    hide SerializeNames;
    JoinOfSplit(payload, RECORD_SEP);
    NamesAreRecords(Split(payload, RECORD_SEP)[1..]);
  }

  // ---- the bridge's tab-separated line ----

  function WithoutCr(s: Text): (r: Text)
    ensures CR !in s ==> r == s
  {
    if s == [] then [] else
      var front := WithoutCr(s[..|s| - 1]);
      assert s == s[..|s| - 1] + [s[|s| - 1]];
      if s[|s| - 1] == CR then front else front + [s[|s| - 1]]
  }

  method TsvSplit(s: Text) returns (out: seq<Text>)
    ensures out == Split(WithoutCr(s), TAB)
  {
    out := [];
    var cur: Text := [];
    for i := 0 to |s|
      invariant out + [cur] == Split(WithoutCr(s[..i]), TAB)
    {
      var c := s[i];
      OctetIsSplit(s, i, out, cur);
      if c != CR {
        if c == TAB { out := out + [cur]; cur := []; }
        else { cur := cur + [c]; }
      }
    }
    assert s[..|s|] == s;
    out := out + [cur];
  }

  /** One octet of a line: a carriage return is skipped, a tab ends the piece, anything else goes to it. */
  lemma OctetIsSplit(s: Text, i: nat, out: seq<Text>, cur: Text)
    requires i < |s| && out + [cur] == Split(WithoutCr(s[..i]), TAB)
    ensures Split(WithoutCr(s[..i + 1]), TAB) ==
      if s[i] == CR then out + [cur] else if s[i] == TAB then out + [cur] + [[]] else out + [cur + [s[i]]]
  {
    hide Split;
    assert s[..i + 1][..i] == s[..i];
    assert WithoutCr(s[..i + 1]) == if s[i] == CR then WithoutCr(s[..i]) else WithoutCr(s[..i]) + [s[i]];
    hide WithoutCr;
    if s[i] != CR {
      SplitSnoc(WithoutCr(s[..i]), s[i], TAB);
      assert (out + [cur])[..|out|] == out;
    }
  }

  function AllFields(cs: seq<Course>): (r: seq<Text>)
    ensures |r| == 8 * |cs|
  {
    if cs == [] then [] else AllFields(cs[..|cs| - 1]) + FieldsOf(cs[|cs| - 1])
  }

  method JoinCoursesTsv(cs: seq<Course>) returns (os: Text)
    ensures os == Join([ToText(|cs|)] + AllFields(cs), TAB)
  {
    os := ToText(|cs|);
    assert [os] + AllFields(cs[..0]) == [os];
    for i := 0 to |cs|
      invariant os == Join([ToText(|cs|)] + AllFields(cs[..i]), TAB)
    {
      var c := cs[i];
      ghost var done := [ToText(|cs|)] + AllFields(cs[..i]);
      AppendEight(done, c);
      assert cs[..i + 1][..i] == cs[..i];
      assert done + FieldsOf(c) == [ToText(|cs|)] + AllFields(cs[..i + 1]);
      os := os + [TAB] + c.code + [TAB] + c.title + [TAB] + c.section + [TAB] + c.instructor
        + [TAB] + c.day + [TAB] + c.duration + [TAB] + c.semester + [TAB] + c.classroom;
    }
    assert cs[..|cs|] == cs;
  }

  lemma AppendFour(done: seq<Text>, a: Text, b: Text, c: Text, d: Text)
    requires done != []
    ensures Join(done + [a, b, c, d], TAB) == Join(done, TAB) + [TAB] + a + [TAB] + b + [TAB] + c + [TAB] + d
  {
    JoinSnoc(done, a, TAB);
    JoinSnoc(done + [a], b, TAB);
    JoinSnoc(done + [a] + [b], c, TAB);
    JoinSnoc(done + [a] + [b] + [c], d, TAB);
    assert done + [a, b, c, d] == done + [a] + [b] + [c] + [d];
  }

  lemma AppendEight(done: seq<Text>, c: Course)
    requires done != []
    ensures Join(done + FieldsOf(c), TAB) ==
        Join(done, TAB) + [TAB] + c.code + [TAB] + c.title + [TAB] + c.section + [TAB] + c.instructor
        + [TAB] + c.day + [TAB] + c.duration + [TAB] + c.semester + [TAB] + c.classroom
  {
    var half := [c.code, c.title, c.section, c.instructor];
    AppendFour(done, c.code, c.title, c.section, c.instructor);
    AppendFour(done + half, c.day, c.duration, c.semester, c.classroom);
    assert done + FieldsOf(c) == (done + half) + [c.day, c.duration, c.semester, c.classroom];
  }

  lemma {:induction false} FieldsOfEach(cs: seq<Course>, i: nat)
    requires i < |cs|
    ensures AllFields(cs)[8 * i..8 * i + 8] == FieldsOf(cs[i])
  {
    var n := |cs| - 1;
    if i < n {
      FieldsOfEach(cs[..n], i);
      assert AllFields(cs)[8 * i..8 * i + 8] == AllFields(cs[..n])[8 * i..8 * i + 8];
    }
  }

  lemma {:induction false} AllFieldsFree(cs: seq<Course>, sep: byte)
    requires forall c :: c in cs ==> FieldsFree(c, sep)
    ensures AllFree(AllFields(cs), sep)
  {
    if cs != [] { AllFieldsFree(cs[..|cs| - 1], sep); assert FieldsFree(cs[|cs| - 1], sep); }
  }

  /** A DATA line splits into the count and eight fields a course, from which the list can be rebuilt. */
  lemma TsvRebuildsTheList(cs: seq<Course>)
    requires forall c :: c in cs ==> FieldsFree(c, TAB) && FieldsFree(c, CR)
    ensures var parts := Split(WithoutCr(Join([ToText(|cs|)] + AllFields(cs), TAB)), TAB);
      && |parts| == 1 + 8 * |cs| && parts[0] == ToText(|cs|)
      && forall i :: 0 <= i < |cs| ==> CourseOf(parts[1 + 8 * i..9 + 8 * i]) == cs[i]
  {
    var all := [ToText(|cs|)] + AllFields(cs);
    CountIsFree(|cs|, TAB);
    CountIsFree(|cs|, CR);
    AllFieldsFree(cs, TAB);
    AllFieldsFree(cs, CR);
    JoinFree(all, TAB, CR);
    SplitOfJoin(all, TAB);
    forall i | 0 <= i < |cs| ensures CourseOf(all[1 + 8 * i..9 + 8 * i]) == cs[i] {
      FieldsOfEach(cs, i);
      assert all[1 + 8 * i..9 + 8 * i] == AllFields(cs)[8 * i..8 * i + 8];
    }
  }
}
