/**
 * scripts/import_courses.py: rows of one sheet folded into one record per (code, section), and the same result stated
 * as grouping. cell_str, the section expression and hours_to_minutes are left to functions.
 */
module ImportCourses {
  import opened Bytes
  import opened Decimal

  /**
   * str: cell_str of a cell; titled: split_title_section of a title cell; minutes: hours_to_minutes of a text that is
   * not empty.
   */
  datatype Reader<!Cell> = Reader(str: Cell -> Text, titled: Text -> (Text, Text), minutes: Text -> int)

  /** What a row with a code says. */
  datatype Item = Item(code: Text, section: Text, title: Text, teachers: Text, schedule: Text, minutes: int,
      classroom: Text)

  datatype Key = Key(code: Text, section: Text)

  datatype Group = Group(code: Text, title: Text, section: Text, instructor: Text,
                         dayParts: seq<Text>, durationMin: int, classroomParts: seq<Text>)

  datatype Record = Record(code: Text, title: Text, section: Text, instructor: Text, day: Text, duration: Text,
      classroom: Text)

  /** The columns found in the header; code, title and schedule are demanded. */
  datatype Columns = Columns(code: nat, title: nat, schedule: nat, teachers: Option<nat>, hours: Option<nat>,
      classroom: Option<nat>)

  datatype Reading = Skipped | Broken | Read(item: Item)

  function ItemKey(x: Item): Key { Key(x.code, x.section) }

  // ---- reading ----

  /** list.index: the first place of v. */
  function IndexOf(header: seq<Text>, v: Text): (r: Option<nat>)
    ensures r.None? <==> v !in header
    ensures r.Some? ==> r.value < |header| && header[r.value] == v && v !in header[..r.value]
  {
    if header == [] then None
    else if header[0] == v then Some(0)
    else
      var r := IndexOf(header[1..], v);
      if r.None? then None else (assert header[..r.value + 1] ==
          [header[0]] + header[1..][..r.value]; Some(r.value + 1))
  }

  const CODE := Ascii("Course Code")
  const TITLE := Ascii("Course Title & Session")
  const TEACHERS := Ascii("Teachers")
  const SCHEDULE := Ascii("Class Schedule")
  const HOURS := Ascii("Hours")
  const CLASSROOM := Ascii("Classroom")
  const NO_SECTION := Ascii("0000")

  function ColumnsOf(header: seq<Text>): (r: Option<Columns>)
    ensures r.None? <==> CODE !in header || TITLE !in header || SCHEDULE !in header
  {
    var code, title, schedule := IndexOf(header, CODE), IndexOf(header, TITLE), IndexOf(header, SCHEDULE);
    if code.None? || title.None? || schedule.None? then None
    else Some(Columns(code.value, title.value, schedule.value, IndexOf(header, TEACHERS), IndexOf(header, HOURS),
        IndexOf(header, CLASSROOM)))
  }

  /** A column that is absent reads as empty; a row too short for a column it is asked for raises. */
  function CellAt<Cell>(x: Reader<Cell>, row: seq<Cell>, at: Option<nat>): Option<Text> {
    if at.None? then Some([]) else if at.value < |row| then Some(x.str(row[at.value])) else None
  }

  function ReadRow<Cell>(x: Reader<Cell>, cols: Columns, row: seq<Cell>): Reading {
    var code := CellAt(x, row, Some(cols.code));
    if code.None? then Broken
    else if code.value == [] then Skipped
    else
      var title := CellAt(x, row, Some(cols.title));
      var teachers := CellAt(x, row, cols.teachers);
      var schedule := CellAt(x, row, Some(cols.schedule));
      var hours := CellAt(x, row, cols.hours);
      var classroom := CellAt(x, row, cols.classroom);
      if title.None? || teachers.None? || schedule.None? || hours.None? || classroom.None? then Broken
      else
        var named := x.titled(title.value);
        Read(Item(code.value, if named.1 == [] then NO_SECTION else named.1, named.0, teachers.value, schedule.value,
                  if hours.value == [] then 0 else x.minutes(hours.value), classroom.value))
  }

  /** The items of the rows, or None if one of them raises. */
  function Items<Cell>(x: Reader<Cell>, cols: Columns, body: seq<seq<Cell>>): Option<seq<Item>> {
    if body == [] then Some([]) else
      var before := Items(x, cols, body[..|body| - 1]);
      var last := ReadRow(x, cols, body[|body| - 1]);
      if before.None? || last.Broken? then None
      else if last.Skipped? then before
      else Some(before.value + [last.item])
  }

  // ---- grouping, stated outright ----

  function Keys(xs: seq<Item>): seq<Key> { seq(|xs|, i requires 0 <= i < |xs| => ItemKey(xs[i])) }

  function Members(xs: seq<Item>, k: Key): (ms: seq<Item>)
    ensures forall m :: m in ms ==> ItemKey(m) == k && m in xs
  {
    if xs == [] then [] else Members(xs[..|xs| - 1], k) + (if ItemKey(xs[|xs| - 1]) == k then [xs[|xs| - 1]] else [])
  }

  /** The values with later repetitions dropped. */
  function Distinct<T(==)>(s: seq<T>): seq<T> {
    if s == [] then [] else
      var d := Distinct(s[..|s| - 1]);
      if s[|s| - 1] in d then d else d + [s[|s| - 1]]
  }

  function NonEmpty(s: seq<Text>): seq<Text> {
    if s == [] then [] else NonEmpty(s[..|s| - 1]) + (if s[|s| - 1] == [] then [] else [s[|s| - 1]])
  }

  function Schedules(ms: seq<Item>): seq<Text> { seq(|ms|, i requires 0 <= i < |ms| => ms[i].schedule) }
  function Classrooms(ms: seq<Item>): seq<Text> { seq(|ms|, i requires 0 <= i < |ms| => ms[i].classroom) }
  function Teachers(ms: seq<Item>): seq<Text> { seq(|ms|, i requires 0 <= i < |ms| => ms[i].teachers) }

  function Minutes(ms: seq<Item>): int {
    if ms == [] then 0 else Minutes(ms[..|ms| - 1]) + ms[|ms| - 1].minutes
  }

  function FirstOf(s: seq<Text>): Text { if s == [] then [] else s[0] }

  function GroupOf(ms: seq<Item>): Group
    requires ms != []
  {
    Group(ms[0].code, ms[0].title, ms[0].section,
          FirstOf(NonEmpty(Teachers(ms))), Distinct(NonEmpty(Schedules(ms))), Minutes(ms),
              Distinct(NonEmpty(Classrooms(ms))))
  }

  /** "; ".join(parts) */
  function Joined(parts: seq<Text>): Text {
    if parts == [] then [] else if |parts| == 1 then parts[0]
        else Joined(parts[..|parts| - 1]) + Ascii("; ") + parts[|parts| - 1]
  }

  function RecordOf(g: Group): Record {
    Record(g.code, g.title, g.section, g.instructor, Joined(g.dayParts), ToText(g.durationMin),
        Joined(g.classroomParts))
  }

  /** One group per distinct key, in the order the keys first appear. */
  function Groups(xs: seq<Item>): (gs: seq<Group>)
    ensures |gs| == |Distinct(Keys(xs))|
  {
    DistinctKeysHaveMembers(xs);
    seq(|Distinct(Keys(xs))|, i requires 0 <= i < |Distinct(Keys(xs))| => GroupOf(Members(xs, Distinct(Keys(xs))[i])))
  }

  lemma {:induction false} DistinctHasAll<T>(s: seq<T>, v: T)
    ensures v in Distinct(s) <==> v in s
  {
    if s != [] {
      DistinctHasAll(s[..|s| - 1], v);
      assert s == s[..|s| - 1] + [s[|s| - 1]];
    }
  }

  lemma {:induction false} KeyHasMembers(xs: seq<Item>, k: Key)
    ensures k in Keys(xs) <==> Members(xs, k) != []
  {
    if xs != [] {
      KeyHasMembers(xs[..|xs| - 1], k);
      assert Keys(xs) == Keys(xs[..|xs| - 1]) + [ItemKey(xs[|xs| - 1])];
    }
  }

  lemma DistinctKeysHaveMembers(xs: seq<Item>)
    ensures forall k :: k in Distinct(Keys(xs)) ==> Members(xs, k) != []
  {
    forall k | k in Distinct(Keys(xs)) ensures Members(xs, k) != [] {
      DistinctHasAll(Keys(xs), k);
      KeyHasMembers(xs, k);
    }
  }

  // ---- the loop ----

  /** The entry of a key seen for the first time. */
  function Opened(x: Item): Group { Group(x.code, x.title, x.section, x.teachers, [], 0, []) }

  /** What one more row of its key does to an entry. */
  function Extended(g: Group, x: Item): Group {
    g.(dayParts := if x.schedule != [] && x.schedule !in g.dayParts then g.dayParts + [x.schedule] else g.dayParts,
       durationMin := g.durationMin + x.minutes,
       classroomParts := if x.classroom != [] && x.classroom !in g.classroomParts then g.classroomParts + [x.classroom]
           else g.classroomParts,
       instructor := if x.teachers != [] && g.instructor == [] then x.teachers else g.instructor)
  }

  lemma NonEmptySnoc(s: seq<Text>, v: Text)
    ensures NonEmpty(s + [v]) == NonEmpty(s) + (if v == [] then [] else [v])
  {
    assert (s + [v])[..|s|] == s;
  }

  lemma DistinctSnoc<T>(s: seq<T>, v: T)
    ensures Distinct(s + [v]) == if v in Distinct(s) then Distinct(s) else Distinct(s) + [v]
  {
    assert (s + [v])[..|s|] == s;
  }

  lemma PartsSnoc(s: seq<Text>, v: Text)
    ensures Distinct(NonEmpty(s + [v])) ==
      if v != [] && v !in Distinct(NonEmpty(s)) then Distinct(NonEmpty(s)) + [v] else Distinct(NonEmpty(s))
  {
    NonEmptySnoc(s, v);
    if v == [] {
      assert NonEmpty(s) + [] == NonEmpty(s);
    } else {
      DistinctSnoc(NonEmpty(s), v);
    }
  }

  lemma OnePart(v: Text)
    ensures NonEmpty([v]) == (if v == [] then [] else [v]) && Distinct(NonEmpty([v])) == NonEmpty([v])
  {
    assert [v][..0] == [];
  }

  lemma {:induction false} NonEmptyIsNonEmpty(s: seq<Text>)
    ensures [] !in NonEmpty(s)
  {
    if s != [] { NonEmptyIsNonEmpty(s[..|s| - 1]); }
  }

  lemma FieldsMore(ms: seq<Item>, x: Item)
    ensures Schedules(ms + [x]) == Schedules(ms) + [x.schedule]
    ensures Classrooms(ms + [x]) == Classrooms(ms) + [x.classroom]
    ensures Teachers(ms + [x]) == Teachers(ms) + [x.teachers]
    ensures Minutes(ms + [x]) == Minutes(ms) + x.minutes
  {
    assert (ms + [x])[..|ms|] == ms;
  }

  lemma GroupExtends(ms: seq<Item>, x: Item)
    requires ms != []
    ensures GroupOf(ms + [x]) == Extended(GroupOf(ms), x)
  {
    hide Schedules;
    hide Classrooms;
    hide Teachers;
    hide Minutes;
    hide NonEmpty;
    hide Distinct;
    hide FirstOf;
    FieldsMore(ms, x);
    PartsSnoc(Schedules(ms), x.schedule);
    PartsSnoc(Classrooms(ms), x.classroom);
    FirstSnoc(Teachers(ms), x.teachers);
  }

  lemma FirstSnoc(s: seq<Text>, v: Text)
    ensures FirstOf(NonEmpty(s + [v])) ==
      if v != [] && FirstOf(NonEmpty(s)) == [] then v else FirstOf(NonEmpty(s))
  {
    NonEmptySnoc(s, v);
    NonEmptyIsNonEmpty(s);
    hide NonEmpty;
  }

  lemma FieldsOfOne(x: Item)
    ensures Schedules([x]) == [x.schedule] && Classrooms([x]) == [x.classroom] && Teachers([x]) == [x.teachers]
    ensures Minutes([x]) == x.minutes
  {
    assert [x][..0] == [];
  }

  lemma GroupOpens(x: Item)
    ensures GroupOf([x]) == Extended(Opened(x), x)
  {
    hide Schedules;
    hide Classrooms;
    hide Teachers;
    hide Minutes;
    hide NonEmpty;
    hide Distinct;
    FieldsOfOne(x);
    OnePart(x.schedule);
    OnePart(x.classroom);
    OnePart(x.teachers);
    assert [] + [x.schedule] == [x.schedule] && [] + [x.classroom] == [x.classroom];
  }

  /** The entries after some rows: an OrderedDict, as the order of its keys and the value of each. */
  ghost predicate Aggregates(order: seq<Key>, agg: map<Key, Group>, xs: seq<Item>) {
    && order == Distinct(Keys(xs))
    && (forall k :: k in agg <==> k in order)
    && (forall k :: k in order ==> Members(xs, k) != [] && agg[k] == GroupOf(Members(xs, k)))
  }

  lemma MembersMore(xs: seq<Item>, x: Item, j: Key)
    ensures Members(xs + [x], j) == if j == ItemKey(x) then Members(xs, j) + [x] else Members(xs, j)
  {
    assert (xs + [x])[..|xs|] == xs;
    assert Members(xs, j) + [] == Members(xs, j);
  }

  lemma OrderMore(xs: seq<Item>, x: Item)
    ensures var order := Distinct(Keys(xs));
      var k := ItemKey(x);
      && Distinct(Keys(xs + [x])) == (if k in order then order else order + [k])
      && (k in order <==> Members(xs, k) != [])
  {
    assert Keys(xs + [x]) == Keys(xs) + [ItemKey(x)];
    DistinctSnoc(Keys(xs), ItemKey(x));
    DistinctHasAll(Keys(xs), ItemKey(x));
    KeyHasMembers(xs, ItemKey(x));
  }

  lemma GroupMore(xs: seq<Item>, x: Item)
    ensures var ms := Members(xs, ItemKey(x));
      && Members(xs + [x], ItemKey(x)) != []
      && GroupOf(Members(xs + [x], ItemKey(x))) == Extended(if ms == [] then Opened(x) else GroupOf(ms), x)
  {
    var ms := Members(xs, ItemKey(x));
    MembersMore(xs, x, ItemKey(x));
    if ms == [] {
      GroupOpens(x);
      assert ms + [x] == [x];
    } else {
      GroupExtends(ms, x);
    }
    hide Members;
    hide GroupOf;
    hide Extended;
  }

  lemma AggregateStep(order: seq<Key>, agg: map<Key, Group>, xs: seq<Item>, x: Item)
    requires Aggregates(order, agg, xs)
    ensures var k := ItemKey(x);
      Aggregates(if k in order then order else order + [k],
          agg[k := Extended(if k in order then agg[k] else Opened(x), x)], xs + [x])
  {
    hide Members;
    hide Distinct;
    hide Keys;
    hide GroupOf;
    hide Extended;
    var k := ItemKey(x);
    OrderMore(xs, x);
    GroupMore(xs, x);
    forall j | j in order && j != k ensures Members(xs + [x], j) == Members(xs, j) { MembersMore(xs, x, j); }
  }

  method AggregateRows<Cell>(x: Reader<Cell>, header: seq<Text>, body: seq<seq<Cell>>) returns (r: Option<seq<Record>>)
    ensures r == match ColumnsOf(header)
                 case None => None
                 case Some(cols) => match Items(x, cols, body)
                                    case None => None
                                    case Some(xs) => Some(Records(Groups(xs)))
  {
    hide Groups;
    hide Aggregates;
    hide ReadRow;
    hide Records;
    hide Extended;
    var found := ColumnsOf(header);
    if found.None? { return None; }
    var cols := found.value;
    var order: seq<Key> := [];
    var agg: map<Key, Group> := map[];
    ghost var xs: seq<Item> := [];
    NothingAggregated();
    for n := 0 to |body|
      invariant Items(x, cols, body[..n]) == Some(xs) && Aggregates(order, agg, xs)
    {
      assert body[..n + 1][..n] == body[..n];
      var raw := ReadRow(x, cols, body[n]);
      if raw.Broken? {
        ItemsBroken(x, cols, body, n + 1);
        return None;
      }
      if raw.Skipped? { continue; }
      var item := raw.item;
      var key := ItemKey(item);
      AggregateStep(order, agg, xs, item);
      OrderIsDomain(order, agg, xs);
      var cur := Opened(item);
      if key in agg {
        cur := agg[key];
      } else {
        order := order + [key];
      }
      agg := agg[key := Extended(cur, item)];
      xs := xs + [item];
    }
    assert body[..|body|] == body;
    var out: seq<Record> := [];
    NoRecords();
    assert Groups(xs)[..0] == [];
    OrderIsDomain(order, agg, xs);
    AggregatesAreGroups(order, agg, xs);
    for i := 0 to |order|
      invariant |Groups(xs)| == |order| && out == Records(Groups(xs)[..i])
    {
      RecordsSnoc(Groups(xs), i);
      out := out + [RecordOf(agg[order[i]])];
    }
    assert Groups(xs)[..|order|] == Groups(xs);
    return Some(out);
  }

  function Records(gs: seq<Group>): seq<Record> { seq(|gs|, i requires 0 <= i < |gs| => RecordOf(gs[i])) }

  lemma RecordsSnoc(gs: seq<Group>, i: nat)
    requires i < |gs|
    ensures Records(gs[..i + 1]) == Records(gs[..i]) + [RecordOf(gs[i])]
  {
  }

  lemma NoRecords()
    ensures Records([]) == []
  {
  }

  lemma NothingAggregated()
    ensures Aggregates([], map[], [])
  {
  }

  lemma OrderIsDomain(order: seq<Key>, agg: map<Key, Group>, xs: seq<Item>)
    requires Aggregates(order, agg, xs)
    ensures forall k :: k in agg <==> k in order
  {
  }

  lemma AggregatesAreGroups(order: seq<Key>, agg: map<Key, Group>, xs: seq<Item>)
    requires Aggregates(order, agg, xs)
    ensures |Groups(xs)| == |order| && (forall k :: k in agg <==> k in order)
    ensures forall i :: 0 <= i < |order| ==> Groups(xs)[i] == agg[order[i]]
  {
    hide Members;
    hide GroupOf;
  }

  lemma {:induction false} ItemsBroken<Cell>(x: Reader<Cell>, cols: Columns, body: seq<seq<Cell>>, n: nat)
    requires n <= |body| && Items(x, cols, body[..n]).None?
    ensures Items(x, cols, body).None?
    decreases |body|
  {
    if n < |body| {
      assert body[..|body| - 1][..n] == body[..n];
      ItemsBroken(x, cols, body[..|body| - 1], n);
    } else {
      assert body[..n] == body;
    }
  }

  // ---- what the grouping keeps ----

  /** First appearance: the first place of each value comes before the first place of the next. */
  lemma {:induction false} DistinctInOrder<T>(s: seq<T>, i: nat, j: nat, p: nat)
    requires i < j < |Distinct(s)| && p < |s| && s[p] == Distinct(s)[j]
    ensures Distinct(s)[i] in s[..p]
    ensures Distinct(s)[i] != Distinct(s)[j]
  {
    var n := |s| - 1;
    var d := Distinct(s[..n]);
    if j < |d| {
      if p < n {
        DistinctInOrder(s[..n], i, j, p);
        assert s[..n][..p] == s[..p];
      } else {
        assert d[j] in d;
        DistinctHasAll(s[..n], d[j]);
        var q :| 0 <= q < n && s[..n][q] == d[j];
        DistinctInOrder(s[..n], i, j, q);
        assert d[i] in s[..n][..q] && s[..p] == s[..n];
      }
    } else {
      DistinctHasAll(s[..n], s[n]);
      assert d[i] in d;
      DistinctHasAll(s[..n], d[i]);
      assert p == n && s[..p] == s[..n];
    }
  }

  function TotalOver(xs: seq<Item>, keys: seq<Key>): int {
    if keys == [] then 0 else TotalOver(xs, keys[..|keys| - 1]) + Minutes(Members(xs, keys[|keys| - 1]))
  }

  lemma {:induction false} TotalOverMore(xs: seq<Item>, x: Item, keys: seq<Key>)
    requires NoDuplicates(keys)
    ensures TotalOver(xs + [x], keys) == TotalOver(xs, keys) + (if ItemKey(x) in keys then x.minutes else 0)
  {
    if keys != [] {
      hide Members;
      hide Minutes;
      var n := |keys| - 1;
      TotalOverMore(xs, x, keys[..n]);
      MinutesMore(xs, x, keys[n]);
      assert keys == keys[..n] + [keys[n]];
    }
  }

  lemma MinutesMore(xs: seq<Item>, x: Item, k: Key)
    ensures Minutes(Members(xs + [x], k)) == Minutes(Members(xs, k)) + (if ItemKey(x) == k then x.minutes else 0)
  {
    assert (xs + [x])[..|xs|] == xs;
    if ItemKey(x) == k {
      assert (Members(xs, k) + [x])[..|Members(xs, k)|] == Members(xs, k);
    } else {
      assert Members(xs, k) + [] == Members(xs, k);
    }
  }

  lemma DistinctHasNoDuplicates<T>(s: seq<T>)
    ensures NoDuplicates(Distinct(s))
  {
    var d := Distinct(s);
    forall i, j | 0 <= i < j < |d| ensures d[i] != d[j] {
      assert d[j] in d;
      DistinctHasAll(s, d[j]);
      var p :| 0 <= p < |s| && s[p] == d[j];
      DistinctInOrder(s, i, j, p);
    }
  }

  /** No minute is lost or counted twice: the groups together last as long as all rows with a code together. */
  lemma {:induction false} MinutesAreConserved(xs: seq<Item>)
    ensures TotalOver(xs, Distinct(Keys(xs))) == Minutes(xs)
  {
    if xs == [] {
      assert Keys(xs) == [];
    } else {
      hide TotalOver;
      hide Distinct;
      hide Keys;
      var n := |xs| - 1;
      MinutesAreConserved(xs[..n]);
      TotalMore(xs[..n], xs[n]);
      assert xs == xs[..n] + [xs[n]];
    }
  }

  lemma TotalMore(xs: seq<Item>, x: Item)
    ensures TotalOver(xs + [x], Distinct(Keys(xs + [x]))) == TotalOver(xs, Distinct(Keys(xs))) + x.minutes
  {
    var keys, k := Distinct(Keys(xs)), ItemKey(x);
    DistinctHasNoDuplicates(Keys(xs));
    TotalOverMore(xs, x, keys);
    OrderMore(xs, x);
    hide Distinct;
    hide Keys;
    if k !in keys {
      MinutesMore(xs, x, k);
      assert Minutes([]) == 0;
      TotalOverSnoc(xs + [x], keys, k);
    }
    hide Members;
    hide Minutes;
    hide TotalOver;
  }

  lemma TotalOverSnoc(xs: seq<Item>, keys: seq<Key>, k: Key)
    ensures TotalOver(xs, keys + [k]) == TotalOver(xs, keys) + Minutes(Members(xs, k))
  {
    assert (keys + [k])[..|keys|] == keys;
  }

  // ---- the groups ----

  function GroupKey(g: Group): Key { Key(g.code, g.section) }

  lemma GroupAt(xs: seq<Item>, i: nat)
    requires i < |Groups(xs)|
    ensures GroupKey(Groups(xs)[i]) == Distinct(Keys(xs))[i]
        && Groups(xs)[i].durationMin == Minutes(Members(xs, Distinct(Keys(xs))[i]))
  {
    var k := Distinct(Keys(xs))[i];
    DistinctKeysHaveMembers(xs);
    assert k in Distinct(Keys(xs));
    assert Members(xs, k)[0] in Members(xs, k);
    hide Members;
    hide Distinct;
    hide Keys;
    hide Minutes;
  }

  /** Every row with a code belongs to exactly one group. */
  lemma EachRowHasOneGroup(xs: seq<Item>, p: nat)
    requires p < |xs|
    ensures exists i :: 0 <= i < |Groups(xs)| && GroupKey(Groups(xs)[i]) == ItemKey(xs[p])
    ensures forall i, j :: 0 <= i < j < |Groups(xs)| ==> GroupKey(Groups(xs)[i]) != GroupKey(Groups(xs)[j])
  {
    hide Distinct;
    hide Groups;
    hide GroupKey;
    var keys := Distinct(Keys(xs));
    assert Keys(xs)[p] in Keys(xs);
    DistinctHasAll(Keys(xs), ItemKey(xs[p]));
    DistinctHasNoDuplicates(Keys(xs));
    hide Keys;
    GroupsHaveKeys(xs);
    var i :| 0 <= i < |keys| && keys[i] == ItemKey(xs[p]);
    assert GroupKey(Groups(xs)[i]) == ItemKey(xs[p]);
  }

  lemma GroupsHaveKeys(xs: seq<Item>)
    ensures var keys := Distinct(Keys(xs));
      |Groups(xs)| == |keys| && forall i :: 0 <= i < |keys| ==> GroupKey(Groups(xs)[i]) == keys[i]
  {
    hide Distinct;
    hide Groups;
    hide Keys;
    hide GroupKey;
    forall i | 0 <= i < |Distinct(Keys(xs))| ensures GroupKey(Groups(xs)[i]) == Distinct(Keys(xs))[i] {
      GroupAt(xs, i);
    }
  }

  /** Groups come in the order of their first rows. */
  lemma GroupsInOrder(xs: seq<Item>, i: nat, j: nat, p: nat)
    requires i < j < |Groups(xs)| && p < |xs| && ItemKey(xs[p]) == GroupKey(Groups(xs)[j])
    ensures exists q :: 0 <= q < p && ItemKey(xs[q]) == GroupKey(Groups(xs)[i])
  {
    GroupAt(xs, i);
    GroupAt(xs, j);
    hide Groups;
    DistinctInOrder(Keys(xs), i, j, p);
    var q :| 0 <= q < p && Keys(xs)[..p][q] == Distinct(Keys(xs))[i];
    assert ItemKey(xs[q]) == GroupKey(Groups(xs)[i]);
  }

  function Durations(gs: seq<Group>): int {
    if gs == [] then 0 else Durations(gs[..|gs| - 1]) + gs[|gs| - 1].durationMin
  }

  /** The durations written out add up to the minutes of all rows that have a code. */
  lemma DurationsAddUp(xs: seq<Item>)
    ensures Durations(Groups(xs)) == Minutes(xs)
  {
    var n := |Groups(xs)|;
    DurationsOfPrefix(xs, n);
    assert Groups(xs)[..n] == Groups(xs) && Distinct(Keys(xs))[..n] == Distinct(Keys(xs));
    MinutesAreConserved(xs);
  }

  lemma {:induction false} DurationsOfPrefix(xs: seq<Item>, n: nat)
    requires n <= |Groups(xs)|
    ensures Durations(Groups(xs)[..n]) == TotalOver(xs, Distinct(Keys(xs))[..n])
  {
    var gs, keys := Groups(xs), Distinct(Keys(xs));
    hide Groups;
    hide Distinct;
    hide Minutes;
    hide Members;
    if n > 0 {
      DurationsOfPrefix(xs, n - 1);
      GroupAt(xs, n - 1);
      assert gs[..n][..n - 1] == gs[..n - 1] && keys[..n][..n - 1] == keys[..n - 1];
    }
  }

  /** The parts of a group: each non-empty value of its rows, once. */
  lemma PartsAreTheValues(s: seq<Text>, v: Text)
    ensures NoDuplicates(Distinct(NonEmpty(s))) && (v in Distinct(NonEmpty(s)) <==> v != [] && v in s)
  {
    DistinctHasNoDuplicates(NonEmpty(s));
    DistinctHasAll(NonEmpty(s), v);
    NonEmptyHasAll(s, v);
  }

  lemma {:induction false} NonEmptyHasAll(s: seq<Text>, v: Text)
    ensures v in NonEmpty(s) <==> v != [] && v in s
  {
    if s != [] {
      NonEmptyHasAll(s[..|s| - 1], v);
      assert s == s[..|s| - 1] + [s[|s| - 1]];
    }
  }
}
