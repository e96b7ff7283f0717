/** What the SELECT ... JOIN queries return, in which order, and how pages relate to the whole view. */
module CourseViews {
  import opened Bytes
  import opened Decimal
  import opened Order
  import opened CourseTables

  /** SQLite's LIKE, left uninterpreted: pattern, then text. */
  type Like = (Text, Text) -> bool

  /**
   * The arguments as given, which binding cuts at a NUL; but ByDay is given the day as the column would keep it, since
   * the comparison makes a number of it as the column does.
   */
  datatype Query =
    | All
    | ByCode(code: Text)
    | ByInstructor(instructor: Text)
    | ByClassroom(classroom: Text)
    | ByDay(day: Text)
    | BySemester(semester: Text)

  const PERCENT: byte := 37

  /** INNER JOIN ON c.code = s.course_code AND c.section = s.section. */
  function Joined(t: Tables): set<ScheduleKey> {
    set k | k in t.schedules && Parent(k) in t.courses
  }

  function RowOf(t: Tables, k: ScheduleKey): Course
    requires k in Joined(t)
  {
    var info := t.courses[Parent(k)];
    Course(k.code, info.title, k.section, info.instructor, k.day, k.duration, k.semester, t.schedules[k])
  }

  predicate Matches(like: Like, t: Tables, q: Query, k: ScheduleKey)
    requires k in Joined(t)
  {
    match q
    case All => true
    case ByCode(code) => k.code == CString(code)
    case ByInstructor(i) => like(CString([PERCENT] + i + [PERCENT]), t.courses[Parent(k)].instructor)
    case ByClassroom(r) => like(CString([PERCENT] + r + [PERCENT]), t.schedules[k])
    case ByDay(day) => k.day == day
    case BySemester(s) => k.semester == CString(s)
  }

  function Selected(like: Like, t: Tables, q: Query): set<ScheduleKey> {
    set k | k in Joined(t) && Matches(like, t, q, k)
  }

  /** The day column holds an integer as a number. */
  function DayCell(day: Text): Cell { if Whole(day) then Num(IntegerIn(day).value) else Str(day) }

  /** The ORDER BY columns of each query. */
  function OrderColumns(q: Query, k: ScheduleKey): (r: seq<Cell>)
    ensures |r| == match q case ByCode(_) => 2 case BySemester(_) => 3 case All => 4 case _ => 2
  {
    match q
    case ByCode(_) => [Str(k.section), DayCell(k.day)]
    case BySemester(_) => [Str(k.code), Str(k.section), DayCell(k.day)]
    case All => [Str(k.code), Str(k.section), Str(k.semester), DayCell(k.day)]
    case _ => [Str(k.code), Str(k.section)]
  }

  /** Rows that tie on the ORDER BY columns come in primary-key order. */
  function SortKey(q: Query, k: ScheduleKey): seq<Cell> {
    OrderColumns(q, k) + [Str(k.code), Str(k.section), Str(k.day), Str(k.duration), Str(k.semester)]
  }

  function TextIn(c: Cell): Text { if c.Str? then c.t else [] }

  function KeyFromSort(s: seq<Cell>): ScheduleKey
    requires |s| >= 5
  {
    var n := |s| - 5;
    ScheduleKey(TextIn(s[n]), TextIn(s[n + 1]), TextIn(s[n + 2]), TextIn(s[n + 3]), TextIn(s[n + 4]))
  }

  lemma SortKeyReadsBack(q: Query, k: ScheduleKey)
    ensures |SortKey(q, k)| >= 5 && KeyFromSort(SortKey(q, k)) == k
  {
    hide DayCell;
  }

  function SortKeys(like: Like, t: Tables, q: Query): set<seq<Cell>> {
    set k | k in Selected(like, t, q) :: SortKey(q, k)
  }

  lemma SortedKeyIsJoined(like: Like, t: Tables, q: Query, key: seq<Cell>)
    requires key in SortKeys(like, t, q)
    ensures |key| >= 5 && KeyFromSort(key) in Joined(t)
  {
    var k :| k in Selected(like, t, q) && key == SortKey(q, k);
    SortKeyReadsBack(q, k);
    hide SortKey;
    hide KeyFromSort;
  }

  /** The rows of a query, in order. */
  function Rows(like: Like, t: Tables, q: Query): (rows: seq<Course>)
  {
    hide SortKeys;
    hide KeyFromSort;
    hide Joined;
    var keys := Ascending(SortKeys(like, t, q));
    seq(|keys|, i requires 0 <= i < |keys| =>
      assert keys[i] in keys;
      SortedKeyIsJoined(like, t, q, keys[i]);
      RowOf(t, KeyFromSort(keys[i])))
  }

  // ---- what is selected ----

  /** c is a row of the join that q selects. */
  predicate IsRow(like: Like, t: Tables, q: Query, c: Course) {
    SlotOf(c) in Selected(like, t, q) && RowOf(t, SlotOf(c)) == c
  }

  /** A row of the full view has a schedule row with its key and classroom, and its course with title and instructor. */
  lemma FullRow(like: Like, t: Tables, c: Course)
    ensures IsRow(like, t, All, c) <==>
      var slot, key := ScheduleKey(c.code, c.section, c.day, c.duration, c.semester), CourseKey(c.code, c.section);
      && slot in t.schedules && t.schedules[slot] == c.classroom
      && key in t.courses && t.courses[key] == CourseInfo(c.title, c.instructor)
  {
  }

  /** The rows of each query are those of the full view with that code, an instructor or classroom like that, ... */
  lemma QueryRows(like: Like, t: Tables, x: Text, c: Course)
    ensures IsRow(like, t, ByCode(x), c) <==> IsRow(like, t, All, c) && c.code == CString(x)
    ensures IsRow(like, t, ByInstructor(x), c) <==>
      IsRow(like, t, All, c) && like(CString([PERCENT] + x + [PERCENT]), c.instructor)
    ensures IsRow(like, t, ByClassroom(x), c) <==>
      IsRow(like, t, All, c) && like(CString([PERCENT] + x + [PERCENT]), c.classroom)
    ensures IsRow(like, t, BySemester(x), c) <==> IsRow(like, t, All, c) && c.semester == CString(x)
    ensures IsRow(like, t, ByDay(x), c) <==> IsRow(like, t, All, c) && c.day == x
  {
    hide CString;
  }

  // ---- each row exactly once ----

  lemma RowsAt(like: Like, t: Tables, q: Query, i: nat)
    requires i < |Ascending(SortKeys(like, t, q))|
    ensures |Rows(like, t, q)| == |Ascending(SortKeys(like, t, q))|
    ensures var c := Rows(like, t, q)[i];
      IsRow(like, t, q, c) && Ascending(SortKeys(like, t, q))[i] == SortKey(q, SlotOf(c))
  {
    var keys := Ascending(SortKeys(like, t, q));
    assert keys[i] in keys;
    var k :| k in Selected(like, t, q) && keys[i] == SortKey(q, k);
    SortKeyReadsBack(q, k);
  }

  lemma {:induction false} CountOfDistinct<T>(s: seq<T>, x: T)
    requires NoDuplicates(s)
    ensures multiset(s)[x] == if x in s then 1 else 0
  {
    if s != [] {
      assert s == [s[0]] + s[1..];
      CountOfDistinct(s[1..], x);
    }
  }

  lemma RowsAreDistinct(like: Like, t: Tables, q: Query)
    ensures NoDuplicates(Rows(like, t, q))
  {
    AscendingIsSorted(SortKeys(like, t, q));
    var rows := Rows(like, t, q);
    forall i, j | 0 <= i < j < |rows| ensures rows[i] != rows[j] {
      RowsAt(like, t, q, i);
      RowsAt(like, t, q, j);
    }
  }

  lemma RowIsReturned(like: Like, t: Tables, q: Query, c: Course)
    requires IsRow(like, t, q, c)
    ensures c in Rows(like, t, q)
  {
    var k := SlotOf(c);
    var keys := Ascending(SortKeys(like, t, q));
    assert SortKey(q, k) in SortKeys(like, t, q);
    assert SortKey(q, k) in keys;
    var i :| 0 <= i < |keys| && keys[i] == SortKey(q, k);
    RowsAt(like, t, q, i);
    var c' := Rows(like, t, q)[i];
    SortKeyReadsBack(q, k);
    SortKeyReadsBack(q, SlotOf(c'));
    assert SlotOf(c') == k;
  }

  lemma RowIsCountedOnce(like: Like, t: Tables, q: Query, c: Course)
    ensures multiset(Rows(like, t, q))[c] == if IsRow(like, t, q, c) then 1 else 0
  {
    var rows := Rows(like, t, q);
    RowsAreDistinct(like, t, q);
    CountOfDistinct(rows, c);
    if IsRow(like, t, q, c) {
      RowIsReturned(like, t, q, c);
    } else if c in rows {
      var i :| 0 <= i < |rows| && rows[i] == c;
      RowsAt(like, t, q, i);
      assert false;
    }
  }

  /** Every selected row of the join is returned exactly once, and nothing else is returned. */
  lemma EachRowOnce(like: Like, t: Tables, q: Query)
    ensures forall c :: multiset(Rows(like, t, q))[c] == if IsRow(like, t, q, c) then 1 else 0
    ensures NoDuplicates(Rows(like, t, q))
  {
    RowsAreDistinct(like, t, q);
    forall c ensures multiset(Rows(like, t, q))[c] == if IsRow(like, t, q, c) then 1 else 0 {
      RowIsCountedOnce(like, t, q, c);
    }
  }

  /** The order of a day column: integers by value, before all texts, those octet by octet. */
  predicate DayLe(a: Text, b: Text) {
    if Whole(a) then !Whole(b) || IntegerIn(a).value <= IntegerIn(b).value else !Whole(b) && TextLe(a, b)
  }

  /** Neither a real nor an integer beyond 64 bits. */
  predicate Comparable(day: Text) { !LooksNumeric(day) || Whole(day) }

  lemma RowsFollowColumns(like: Like, t: Tables, q: Query, i: nat, j: nat)
    requires i < j < |Rows(like, t, q)|
    ensures var rows := Rows(like, t, q);
      ColumnsLe(OrderColumns(q, SlotOf(rows[i])), OrderColumns(q, SlotOf(rows[j])))
  {
    RowsAt(like, t, q, i);
    RowsAt(like, t, q, j);
    var rows := Rows(like, t, q);
    AscendingIsSorted(SortKeys(like, t, q));
    var a, b := OrderColumns(q, SlotOf(rows[i])), OrderColumns(q, SlotOf(rows[j]));
    PrefixLe(a, b, SortKey(q, SlotOf(rows[i])), SortKey(q, SlotOf(rows[j])));
  }

  /**
   * ORDER BY: each row's columns are at or before those of every later row, days as numbers if they are integers; of
   * days that are reals or longer integers nothing is said.
   */
  lemma RowsAreOrdered(like: Like, t: Tables, q: Query, i: nat, j: nat)
    requires i < j < |Rows(like, t, q)|
    requires Comparable(Rows(like, t, q)[i].day) && Comparable(Rows(like, t, q)[j].day)
    ensures var rows := Rows(like, t, q);
      ColumnsLe(OrderColumns(q, SlotOf(rows[i])), OrderColumns(q, SlotOf(rows[j])))
  {
    RowsFollowColumns(like, t, q, i, j);
    hide Rows;
    hide OrderColumns;
    hide ColumnsLe;
  }

  lemma {:induction false} PrefixLe(a: seq<Cell>, b: seq<Cell>, a': seq<Cell>, b': seq<Cell>)
    requires |a| == |b| && a <= a' && b <= b' && ColumnsLe(a', b')
    ensures ColumnsLe(a, b)
  {
    if a != [] && a[0] == b[0] {
      PrefixLe(a[1..], b[1..], a'[1..], b'[1..]);
    }
  }

  lemma DayColumns(a: Text, b: Text)
    ensures CellLe(DayCell(a), DayCell(b)) <==> DayLe(a, b)
    ensures DayCell(a) == DayCell(b) ==> DayLe(a, b)
  {
    TextLeTotal(a, b);
    hide Whole;
    hide IntegerIn;
  }

  /** The full view goes by code, then section, then semester, then day. */
  lemma FullViewOrder(like: Like, t: Tables, i: nat, j: nat)
    requires i < j < |Rows(like, t, All)|
    requires Comparable(Rows(like, t, All)[i].day) && Comparable(Rows(like, t, All)[j].day)
    ensures var a, b := Rows(like, t, All)[i], Rows(like, t, All)[j];
      && TextLe(a.code, b.code)
      && (a.code == b.code ==> TextLe(a.section, b.section))
      && (a.code == b.code && a.section == b.section ==> TextLe(a.semester, b.semester))
      && (a.code == b.code && a.section == b.section && a.semester == b.semester ==> DayLe(a.day, b.day))
  {
    hide Rows;
    hide DayCell;
    RowsAreOrdered(like, t, All, i, j);
    var a, b := Rows(like, t, All)[i], Rows(like, t, All)[j];
    var x, y := OrderColumns(All, SlotOf(a)), OrderColumns(All, SlotOf(b));
    ColumnsDecide(x, y);
    DayColumns(a.day, b.day);
    TextLeTotal(a.code, a.code);
    TextLeTotal(a.section, a.section);
    TextLeTotal(a.semester, a.semester);
    hide DayLe;
    hide ColumnsLe;
    hide TextLe;
  }

  /** What an order of column lists says of the first four columns. */
  lemma ColumnsDecide(x: seq<Cell>, y: seq<Cell>)
    requires |x| == |y| && ColumnsLe(x, y)
    ensures |x| > 0 ==> x[0] == y[0] || CellLe(x[0], y[0])
    ensures |x| > 1 && x[0] == y[0] ==> x[1] == y[1] || CellLe(x[1], y[1])
    ensures |x| > 2 && x[0] == y[0] && x[1] == y[1] ==> x[2] == y[2] || CellLe(x[2], y[2])
    ensures |x| > 3 && x[0] == y[0] && x[1] == y[1] && x[2] == y[2] ==> x[3] == y[3] || CellLe(x[3], y[3])
  {
    hide CellLe;
    if |x| > 0 && x[0] == y[0] { ColumnsDecide(x[1..], y[1..]); }
  }

  /** A view of one course code goes by section, then day. */
  lemma CodeViewOrder(like: Like, t: Tables, code: Text, i: nat, j: nat)
    requires i < j < |Rows(like, t, ByCode(code))|
    requires Comparable(Rows(like, t, ByCode(code))[i].day) && Comparable(Rows(like, t, ByCode(code))[j].day)
    ensures var a, b := Rows(like, t, ByCode(code))[i], Rows(like, t, ByCode(code))[j];
      TextLe(a.section, b.section) && (a.section == b.section ==> DayLe(a.day, b.day))
  {
    hide Rows;
    hide DayCell;
    RowsAreOrdered(like, t, ByCode(code), i, j);
    var a, b := Rows(like, t, ByCode(code))[i], Rows(like, t, ByCode(code))[j];
    ColumnsDecide(OrderColumns(ByCode(code), SlotOf(a)), OrderColumns(ByCode(code), SlotOf(b)));
    DayColumns(a.day, b.day);
    TextLeTotal(a.section, a.section);
    hide DayLe;
    hide ColumnsLe;
    hide TextLe;
  }

  /** A view of one semester goes by code, then section, then day. */
  lemma SemesterViewOrder(like: Like, t: Tables, sem: Text, i: nat, j: nat)
    requires i < j < |Rows(like, t, BySemester(sem))|
    requires Comparable(Rows(like, t, BySemester(sem))[i].day) && Comparable(Rows(like, t, BySemester(sem))[j].day)
    ensures var a, b := Rows(like, t, BySemester(sem))[i], Rows(like, t, BySemester(sem))[j];
      && TextLe(a.code, b.code)
      && (a.code == b.code ==> TextLe(a.section, b.section))
      && (a.code == b.code && a.section == b.section ==> DayLe(a.day, b.day))
  {
    hide Rows;
    hide DayCell;
    hide DayLe;
    hide ColumnsLe;
    hide TextLe;
    RowsAreOrdered(like, t, BySemester(sem), i, j);
    var a, b := Rows(like, t, BySemester(sem))[i], Rows(like, t, BySemester(sem))[j];
    ColumnsDecide(OrderColumns(BySemester(sem), SlotOf(a)), OrderColumns(BySemester(sem), SlotOf(b)));
    DayColumns(a.day, b.day);
    TextLeTotal(a.code, a.code);
    TextLeTotal(a.section, a.section);
  }

  /** The three other queries go by code, then section. */
  lemma OtherViewOrder(like: Like, t: Tables, q: Query, i: nat, j: nat)
    requires (q.ByInstructor? || q.ByClassroom? || q.ByDay?) && i < j < |Rows(like, t, q)|
    ensures var a, b := Rows(like, t, q)[i], Rows(like, t, q)[j];
      TextLe(a.code, b.code) && (a.code == b.code ==> TextLe(a.section, b.section))
  {
    hide Rows;
    hide DayCell;
    RowsFollowColumns(like, t, q, i, j);
    var a, b := Rows(like, t, q)[i], Rows(like, t, q)[j];
    ColumnsDecide(OrderColumns(q, SlotOf(a)), OrderColumns(q, SlotOf(b)));
    TextLeTotal(a.code, a.code);
    TextLeTotal(a.section, a.section);
    hide ColumnsLe;
    hide TextLe;
  }

  /** COUNT(*) over the join. */
  function CountJoined(t: Tables): nat { |Joined(t)| }

  lemma {:induction false} ImageSize(like: Like, t: Tables, q: Query, ks: set<ScheduleKey>)
    ensures |(set k | k in ks :: SortKey(q, k))| == |ks|
  {
    var image := set k | k in ks :: SortKey(q, k);
    if ks == {} {
      assert image == {};
    } else {
      var k :| k in ks;
      ImageSize(like, t, q, ks - {k});
      var image' := set k' | k' in ks - {k} :: SortKey(q, k');
      forall k' | k' in ks - {k} ensures SortKey(q, k') != SortKey(q, k) {
        SortKeyReadsBack(q, k);
        SortKeyReadsBack(q, k');
      }
      assert image == image' + {SortKey(q, k)};
      assert SortKey(q, k) !in image';
    }
  }

  /** With the foreign key, the view has one row per schedule row, and that is what count_courses counts. */
  lemma JoinIsLossless(like: Like, t: Tables)
    requires ForeignKey(t)
    ensures |Rows(like, t, All)| == CountJoined(t) == |t.schedules|
    ensures forall k :: k in t.schedules ==> k in Joined(t) && multiset(Rows(like, t, All))[RowOf(t, k)] == 1
  {
    EachRowOnce(like, t, All);
    assert Joined(t) == t.schedules.Keys;
    assert Selected(like, t, All) == Joined(t);
    ImageSize(like, t, All, Selected(like, t, All));
    assert |t.schedules| == |t.schedules.Keys|;
    forall k | k in t.schedules ensures multiset(Rows(like, t, All))[RowOf(t, k)] == 1 {
      assert IsRow(like, t, All, RowOf(t, k));
    }
  }

  // ---- the semesters partition the view ----

  function ViewsOver(like: Like, t: Tables, semesters: seq<Text>): multiset<Course> {
    if semesters == [] then multiset{}
    else multiset(Rows(like, t, BySemester(semesters[0]))) + ViewsOver(like, t, semesters[1..])
  }

  /** The semesters as binding cuts them. */
  function Bound(semesters: seq<Text>): seq<Text> {
    seq(|semesters|, i requires 0 <= i < |semesters| => CString(semesters[i]))
  }

  lemma {:induction false} CountOver(like: Like, t: Tables, semesters: seq<Text>, c: Course)
    requires NoDuplicates(Bound(semesters))
    ensures ViewsOver(like, t, semesters)[c] == if IsRow(like, t, All, c) && c.semester in Bound(semesters) then 1
        else 0
  {
    if semesters != [] {
      var first, rest := semesters[0], semesters[1..];
      assert Bound(rest) == Bound(semesters)[1..];
      RowIsCountedOnce(like, t, BySemester(first), c);
      CountOver(like, t, rest, c);
      QueryRows(like, t, first, c);
      assert Bound(semesters) == [CString(first)] + Bound(rest);
      assert forall j :: 0 <= j < |rest| ==> Bound(rest)[j] == Bound(semesters)[j + 1];
      assert Bound(semesters)[0] == CString(first) && CString(first) !in Bound(rest);
    }
  }

  /** Listing each semester that occurs once, the per-semester views together hold exactly the rows of the full view. */
  lemma SemestersPartitionTheView(like: Like, t: Tables, semesters: seq<Text>)
    requires NoDuplicates(Bound(semesters)) && forall k :: k in t.schedules ==> k.semester in Bound(semesters)
    ensures ViewsOver(like, t, semesters) == multiset(Rows(like, t, All))
  {
    EachRowOnce(like, t, All);
    forall c ensures ViewsOver(like, t, semesters)[c] == multiset(Rows(like, t, All))[c] {
      CountOver(like, t, semesters, c);
    }
  }

  // ---- pages ----

  /** LIMIT limit OFFSET offset. */
  function Slice<T>(rows: seq<T>, offset: nat, limit: nat): seq<T> {
    var from := if offset > |rows| then |rows| else offset;
    var to := if from + limit > |rows| then |rows| else from + limit;
    rows[from..to]
  }

  /** view_all_courses_paged: a limit that is not positive gives nothing, a negative offset counts as 0. */
  function Page(like: Like, t: Tables, offset: int, limit: int): seq<Course> {
    if limit <= 0 then [] else Slice(Rows(like, t, All), if offset < 0 then 0 else offset, limit)
  }

  /** Asking for the page at offset, offset + limit, ... until one comes back empty, or calls + 1 were asked for. */
  function PagesFrom<T>(ask: nat -> seq<T>, offset: nat, limit: nat, calls: nat): seq<T>
    decreases calls
  {
    var p := ask(offset);
    if p == [] || calls == 0 then p else p + PagesFrom(ask, offset + limit, limit, calls - 1)
  }

  /** If every page is a slice of one list, the pages together are the list from offset on. */
  lemma {:induction false} PagesContinue<T>(ask: nat -> seq<T>, rows: seq<T>, offset: nat, limit: nat, calls: nat)
    requires limit > 0 && calls + offset >= |rows| && offset <= |rows| + limit
    requires forall o: nat :: o <= |rows| + limit ==> ask(o) == Slice(rows, o, limit)
    ensures PagesFrom(ask, offset, limit, calls) == if offset <= |rows| then rows[offset..] else []
    decreases calls
  {
    assert ask(offset) == Slice(rows, offset, limit);
    if offset < |rows| && calls > 0 {
      PagesContinue(ask, rows, offset + limit, limit, calls - 1);
    }
  }
}
