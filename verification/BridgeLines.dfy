/**
 * The octets the bridge reads and writes: one command a line with its fields between tabs, which arrive as they were
 * meant exactly if none holds a tab, a line feed or a carriage return; and lines of answer, of which a reader gets back
 * what was answered exactly as long as no text holds a tab or a line feed.
 */
module BridgeLines {
  import opened Bytes
  import opened Decimal
  import opened Separators
  import opened CourseTables
  import opened ListCodec
  import C = Client

  datatype Verb = Connect | Disconnect | Login | Logout | QueryCode | QueryInstructor | QuerySemester | ViewAll
      | ViewAllPage
    | Add | Update | Delete | AdminList | AdminCreate | AdminUpdate | AdminDelete | Quit

  function Word(v: Verb): string {
    match v
    case Connect => "CONNECT"
    case Disconnect => "DISCONNECT"
    case Login => "LOGIN"
    case Logout => "LOGOUT"
    case QueryCode => "QUERY_CODE"
    case QueryInstructor => "QUERY_INSTRUCTOR"
    case QuerySemester => "QUERY_SEMESTER"
    case ViewAll => "VIEW_ALL"
    case ViewAllPage => "VIEW_ALL_PAGE"
    case Add => "ADD"
    case Update => "UPDATE"
    case Delete => "DELETE"
    case AdminList => "ADMIN_LIST"
    case AdminCreate => "ADMIN_CREATE"
    case AdminUpdate => "ADMIN_UPDATE"
    case AdminDelete => "ADMIN_DELETE"
    case Quit => "QUIT"
  }

  function Name(v: Verb): Text { Ascii(Word(v)) }

  const VERBS := [Connect, Disconnect, Login, Logout, QueryCode, QueryInstructor, QuerySemester, ViewAll, ViewAllPage,
                  Add, Update, Delete, AdminList, AdminCreate, AdminUpdate, AdminDelete, Quit]

  /** The if-else chain over the verbs, from the i-th on. */
  function VerbFrom(t: Text, i: nat): (r: Option<Verb>)
    requires i <= |VERBS|
    ensures r.Some? ==> Name(r.value) == t
    decreases |VERBS| - i
  {
    if i == |VERBS| then None else if t == Name(VERBS[i]) then Some(VERBS[i]) else VerbFrom(t, i + 1)
  }

  function VerbOf(t: Text): Option<Verb> { VerbFrom(t, 0) }

  // ---- lines ----

  /**
   * What std::getline delivers, call after call: the pieces between line feeds, but of what follows the last one
   * nothing if it is empty.
   */
  function LinesIn(text: Text): seq<Text> {
    var pieces := Split(text, LF);
    if pieces[|pieces| - 1] == [] then pieces[..|pieces| - 1] else pieces
  }

  lemma LineFirst(line: Text, rest: Text)
    requires Free(line, LF)
    ensures LinesIn(line + [LF] + rest) == [line] + LinesIn(rest)
  {
    SplitAt(line, rest, LF);
    SplitFree(line, LF);
    hide Split;
  }

  lemma LastLine(line: Text)
    requires Free(line, LF)
    ensures LinesIn(line) == if line == [] then [] else [line]
  {
    SplitFree(line, LF);
    hide Split;
  }

  lemma LinesAreFree(text: Text)
    ensures AllFree(LinesIn(text), LF)
  {
    JoinOfSplit(text, LF);
    hide Split;
  }

  /** std::getline at a place of the input that is not its end. */
  method GetLine(text: Text, at: nat) returns (line: Text, next: nat)
    requires at < |text|
    ensures at < next <= |text| && LinesIn(text[at..]) == [line] + LinesIn(text[next..])
  {
    var i := at;
    while i < |text| && text[i] != LF
      invariant at <= i <= |text| && Free(text[at..i], LF)
    {
      assert text[at..i + 1] == text[at..i] + [text[i]];
      i := i + 1;
    }
    line, next := text[at..i], if i < |text| then i + 1 else i;
    hide LinesIn;
    if i < |text| {
      assert text[at..] == line + [LF] + text[next..];
      LineFirst(line, text[next..]);
    } else {
      assert text[at..] == line && text[next..] == [];
      LastLine(line);
      LastLine([]);
    }
  }

  // ---- from a line to a call ----

  /** What a server-bound command line asks for, or how it is refused. */
  datatype Asked = Missing | Asks(call: C.Call)

  /** std::atoi */
  function Atoi(s: Text): int { if Stoi(s).Some? then Stoi(s).value else 0 }

  /** A number as printed is read back; what is no number reads as 0. */
  lemma AtoiReads(n: int)
    requires INT_MIN <= n <= INT_MAX
    ensures Atoi(ToText(n)) == n
    ensures Atoi([]) == 0 && Atoi([45]) == 0
  {
    StoiOfToText(n);
    hide ToText;
  }

  /** The number of fields, the verb included, that a command must have. */
  function Needed(v: Verb): nat {
    match v
    case Logout => 1
    case ViewAll => 1
    case AdminList => 1
    case Disconnect => 1
    case Quit => 1
    case QueryCode => 2
    case QueryInstructor => 2
    case QuerySemester => 2
    case AdminDelete => 2
    case Connect => 3
    case Login => 3
    case ViewAllPage => 3
    case Delete => 3
    case AdminCreate => 3
    case AdminUpdate => 4
    case Add => 9
    case Update => 9
  }

  predicate ServerBound(v: Verb) { v !in {Connect, Disconnect, Quit} }

  function CallOf(v: Verb, f: seq<Text>): Asked
    requires ServerBound(v)
  {
    if |f| < Needed(v) then Missing else Asks(
      match v
      case Login => C.Login(f[1], f[2])
      case Logout => C.Logout
      case QueryCode => C.QueryCode(f[1])
      case QueryInstructor => C.QueryInstructor(f[1])
      case QuerySemester => C.QuerySemester(f[1])
      case ViewAll => C.ViewAll
      case ViewAllPage => C.ViewAllPage(Atoi(f[1]), Atoi(f[2]))
      case Add => C.Add(CourseOf(f[1..]))
      case Update => C.Update(CourseOf(f[1..]))
      case Delete => C.Delete(f[1], f[2])
      case AdminList => C.AdminList
      case AdminCreate => C.AdminCreate(f[1], f[2])
      case AdminUpdate => C.AdminUpdate(f[1], f[2], f[3])
      case AdminDelete => C.AdminDelete(f[1]))
  }

  datatype Command = Blank | Unknown(word: Text) | Known(verb: Verb, fields: seq<Text>)

  function CommandOf(line: Text): Command {
    var f := Split(WithoutCr(line), TAB);
    if f[0] == [] then Blank else if VerbOf(f[0]).Some? then Known(VerbOf(f[0]).value, f) else Unknown(f[0])
  }

  /** What is said of a command with too few fields. */
  function Usage(v: Verb): Text {
    match v
    case Connect => Ascii("CONNECT requires <host> <port>")
    case Login => Ascii("LOGIN requires <user> <pass>")
    case QueryCode => Ascii("QUERY_CODE requires <code>")
    case QueryInstructor => Ascii("QUERY_INSTRUCTOR requires <name>")
    case QuerySemester => Ascii("QUERY_SEMESTER requires <sem>")
    case ViewAllPage => Ascii("VIEW_ALL_PAGE requires <offset> <limit>")
    case Add => Ascii("ADD requires 8 fields")
    case Update => Ascii("UPDATE requires 8 fields")
    case Delete => Ascii("DELETE requires <code> <section>")
    case AdminCreate => Ascii("ADMIN_CREATE requires <user> <pass>")
    case AdminUpdate => Ascii("ADMIN_UPDATE requires <old_user> <new_user> <new_pass>")
    case AdminDelete => Ascii("ADMIN_DELETE requires <user>")
    case _ => []
  }

  /** What a whole input asks for, line by line. */
  function CommandsIn(text: Text): (r: seq<Command>)
    ensures |r| == |LinesIn(text)|
  {
    seq(|LinesIn(text)|, i requires 0 <= i < |LinesIn(text)| => CommandOf(LinesIn(text)[i]))
  }

  // ---- commands survive the input if and only if their arguments are plain ----

  /** A command as a user interface means it. */
  datatype Entry = Entry(verb: Verb, args: seq<Text>)

  function Meant(e: Entry): Command { Known(e.verb, [Name(e.verb)] + e.args) }

  /** The line a user interface writes for a command. */
  function Typed(e: Entry): Text { Join([Name(e.verb)] + e.args, TAB) }

  function Stdin(es: seq<Entry>): Text {
    if es == [] then [] else Typed(es[0]) + [LF] + Stdin(es[1..])
  }

  function TypedLines(es: seq<Entry>): (r: seq<Text>)
    ensures |r| == |es|
  {
    seq(|es|, i requires 0 <= i < |es| => Typed(es[i]))
  }

  function AllMeant(es: seq<Entry>): (r: seq<Command>)
    ensures |r| == |es|
  {
    seq(|es|, i requires 0 <= i < |es| => Meant(es[i]))
  }

  predicate Plain(t: Text) { Free(t, TAB) && Free(t, LF) && Free(t, CR) }

  predicate AllPlain(f: seq<Text>) { forall x :: x in f ==> Plain(x) }


  function VerbFor(call: C.Call): Verb {
    match call
    case Login(_, _) => Login
    case Logout => Logout
    case QueryCode(_) => QueryCode
    case QueryInstructor(_) => QueryInstructor
    case QuerySemester(_) => QuerySemester
    case ViewAll => ViewAll
    case ViewAllPage(_, _) => ViewAllPage
    case Add(_) => Add
    case Update(_) => Update
    case Delete(_, _) => Delete
    case AdminList => AdminList
    case AdminCreate(_, _) => AdminCreate
    case AdminUpdate(_, _, _) => AdminUpdate
    case AdminDelete(_) => AdminDelete
  }

  /** The command a user interface writes for a call. */
  function EntryFor(call: C.Call): Entry { Entry(VerbFor(call), C.RequestFields(call)) }

  /** Length, first letter, and for the three of twelve letters the seventh, tell verbs apart. */
  function Marks(v: Verb): (nat, char, char) {
    match v
    case Connect => (7, 'C', 'T')
    case Disconnect => (10, 'D', 'N')
    case Login => (5, 'L', ' ')
    case Logout => (6, 'L', ' ')
    case QueryCode => (10, 'Q', 'C')
    case QueryInstructor => (16, 'Q', 'I')
    case QuerySemester => (14, 'Q', 'S')
    case ViewAll => (8, 'V', 'L')
    case ViewAllPage => (13, 'V', 'L')
    case Add => (3, 'A', ' ')
    case Update => (6, 'U', ' ')
    case Delete => (6, 'D', ' ')
    case AdminList => (10, 'A', 'L')
    case AdminCreate => (12, 'A', 'C')
    case AdminUpdate => (12, 'A', 'U')
    case AdminDelete => (12, 'A', 'D')
    case Quit => (4, 'Q', ' ')
  }

  lemma NameIsMarked(v: Verb)
    ensures |Name(v)| == Marks(v).0 > 0 && Name(v)[0] as int == Marks(v).1 as int
    ensures |Name(v)| > 6 ==> Name(v)[6] as int == Marks(v).2 as int
  {
  }

  lemma NamesAreLong(v: Verb)
    ensures |Name(v)| >= 3
  {
    NameIsMarked(v);
    hide Name;
  }

  lemma NamesDiffer(v: Verb, u: Verb)
    ensures Name(v) == Name(u) <==> v == u
  {
    NameIsMarked(v);
    NameIsMarked(u);
    hide Name;
    if Name(v) == Name(u) { MarksDiffer(v, u); }
    hide Marks;
  }

  lemma MarksDiffer(v: Verb, u: Verb)
    requires Marks(v).0 == Marks(u).0 && Marks(v).1 == Marks(u).1 && (Marks(v).0 > 6 ==> Marks(v).2 == Marks(u).2)
    ensures v == u
  {
  }

  lemma {:induction false} VerbIsFound(v: Verb, i: nat)
    requires i <= |VERBS| && v in VERBS[i..]
    ensures VerbFrom(Name(v), i) == Some(v)
    decreases |VERBS| - i
  {
    hide Name;
    NamesDiffer(v, VERBS[i]);
    if VERBS[i] != v {
      assert v in VERBS[i + 1..];
      VerbIsFound(v, i + 1);
    }
  }

  lemma EveryVerbIsListed(v: Verb)
    ensures v in VERBS[0..]
  {
    assert VERBS[0..] == VERBS;
    match v {
      case Connect => assert VERBS[0] == v;
      case Disconnect => assert VERBS[1] == v;
      case Login => assert VERBS[2] == v;
      case Logout => assert VERBS[3] == v;
      case QueryCode => assert VERBS[4] == v;
      case QueryInstructor => assert VERBS[5] == v;
      case QuerySemester => assert VERBS[6] == v;
      case ViewAll => assert VERBS[7] == v;
      case ViewAllPage => assert VERBS[8] == v;
      case Add => assert VERBS[9] == v;
      case Update => assert VERBS[10] == v;
      case Delete => assert VERBS[11] == v;
      case AdminList => assert VERBS[12] == v;
      case AdminCreate => assert VERBS[13] == v;
      case AdminUpdate => assert VERBS[14] == v;
      case AdminDelete => assert VERBS[15] == v;
      case Quit => assert VERBS[16] == v;
    }
  }

  lemma WordIsPlain(v: Verb)
    ensures forall i :: 0 <= i < |Word(v)| ==> 64 < Word(v)[i] as int < 96
  {
  }

  lemma NameIsPlain(v: Verb)
    ensures Name(v) != [] && Plain(Name(v))
  {
    WordIsPlain(v);
    NameIsMarked(v);
    hide Word;
  }

  lemma PlainParts(f: seq<Text>)
    ensures AllPlain(f) <==> AllFree(f, TAB) && AllFree(f, LF) && AllFree(f, CR)
  {
  }

  lemma PlainWithName(e: Entry)
    requires AllPlain(e.args)
    ensures AllPlain([Name(e.verb)] + e.args)
  {
    NameIsPlain(e.verb);
    hide Name;
    hide Plain;
  }

  /** The line of a command with plain arguments is one line and gives that command. */
  lemma EntrySurvivesItsLine(e: Entry)
    requires AllPlain(e.args)
    ensures Free(Typed(e), LF) && CommandOf(Typed(e)) == Meant(e)
  {
    var parts := [Name(e.verb)] + e.args;
    NameIsPlain(e.verb);
    PlainWithName(e);
    PlainParts(parts);
    hide Plain;
    hide AllPlain;
    hide Name;
    JoinFree(parts, TAB, CR);
    JoinFree(parts, TAB, LF);
    SplitOfJoin(parts, TAB);
    EveryVerbIsListed(e.verb);
    VerbIsFound(e.verb, 0);
    hide VerbFrom;
    hide Split;
    hide WithoutCr;
    hide Join;
  }

  /** Whatever a line holds, the fields of its command are plain. */
  lemma FieldsArePlain(line: Text)
    requires Free(line, LF)
    ensures CommandOf(line).Known? ==> AllPlain(CommandOf(line).fields)
  {
    var text := WithoutCr(line);
    WithoutCrIsFree(line);
    JoinOfSplit(text, TAB);
    JoinFreeOnlyIf(Split(text, TAB), TAB, CR);
    JoinFreeOnlyIf(Split(text, TAB), TAB, LF);
    PlainParts(Split(text, TAB));
    hide Split;
    hide Join;
    hide AllPlain;
    hide VerbFrom;
  }

  lemma {:induction false} WithoutCrIsFree(line: Text)
    ensures Free(WithoutCr(line), CR)
    ensures Free(line, LF) ==> Free(WithoutCr(line), LF)
  {
    if line != [] { WithoutCrIsFree(line[..|line| - 1]); }
  }

  lemma {:induction false} PlainEntriesAreLines(es: seq<Entry>)
    requires forall e :: e in es ==> AllPlain(e.args)
    ensures LinesIn(Stdin(es)) == TypedLines(es)
  {
    hide LinesIn;
    hide Typed;
    hide AllPlain;
    if es == [] {
      LastLine([]);
    } else {
      EntrySurvivesItsLine(es[0]);
      PlainEntriesAreLines(es[1..]);
      LineFirst(Typed(es[0]), Stdin(es[1..]));
      assert TypedLines(es) == [Typed(es[0])] + TypedLines(es[1..]);
    }
  }

  /** The commands of an input are those that were meant if and only if every argument is plain. */
  lemma CommandsSurviveStdin(es: seq<Entry>)
    ensures CommandsIn(Stdin(es)) == AllMeant(es) <==> forall e :: e in es ==> AllPlain(e.args)
  {
    hide LinesIn;
    hide Stdin;
    hide Typed;
    hide AllPlain;
    hide CommandOf;
    hide Name;
    var text := Stdin(es);
    if forall e :: e in es ==> AllPlain(e.args) {
      PlainEntriesAreLines(es);
      forall i | 0 <= i < |es| ensures CommandsIn(text)[i] == AllMeant(es)[i] {
        assert es[i] in es;
        EntrySurvivesItsLine(es[i]);
      }
    }
    if CommandsIn(text) == AllMeant(es) {
      forall e | e in es ensures AllPlain(e.args) {
        var i :| 0 <= i < |es| && es[i] == e;
        assert CommandsIn(text)[i] == AllMeant(es)[i] == Meant(e);
        LinesAreFree(text);
        assert LinesIn(text)[i] in LinesIn(text);
        FieldsArePlain(LinesIn(text)[i]);
        TailIsPlain(Name(e.verb), e.args);
      }
    }
  }

  lemma TailIsPlain(p: Text, f: seq<Text>)
    requires AllPlain([p] + f)
    ensures AllPlain(f)
  {
    hide Plain;
    forall x | x in f ensures Plain(x) { assert x in [p] + f; }
  }

  // ---- calls ----

  /** What a line can ask the client functions for: plain fields, page bounds within int. */
  predicate Writable(call: C.Call) {
    && AllPlain(C.RequestFields(call))
    && (call.ViewAllPage? ==> INT_MIN <= call.offset <= INT_MAX && INT_MIN <= call.limit <= INT_MAX)
  }

  predicate AskedFor(line: Text, call: C.Call) {
    var c := CommandOf(line);
    c.Known? && ServerBound(c.verb) && CallOf(c.verb, c.fields) == Asks(call)
  }

  /** A call reaches the client functions as the user interface meant it if and only if it is writable. */
  lemma CallSurvivesStdin(call: C.Call)
    ensures var text := Stdin([EntryFor(call)]);
      |LinesIn(text)| == 1 && AskedFor(LinesIn(text)[0], call) <==> Writable(call)
  {
    hide LinesIn;
    hide Stdin;
    hide Typed;
    hide CommandOf;
    hide AskedFor;
    hide Writable;
    hide C.RequestFields;
    hide VerbFor;
    var text := Stdin([EntryFor(call)]);
    if Writable(call) {
      WritableFields(call);
      PlainEntriesAreLines([EntryFor(call)]);
      CallSurvivesItsLine(call);
    }
    if |LinesIn(text)| == 1 && AskedFor(LinesIn(text)[0], call) {
      LinesAreFree(text);
      assert LinesIn(text)[0] in LinesIn(text);
      OnlyWritableIsAskedFor(LinesIn(text)[0], call);
    }
  }

  lemma WritableFields(call: C.Call)
    requires Writable(call)
    ensures AllPlain(EntryFor(call).args)
  {
  }

  lemma CallSurvivesItsLine(call: C.Call)
    requires Writable(call)
    ensures AskedFor(Typed(EntryFor(call)), call) && CommandOf(Typed(EntryFor(call))) == Meant(EntryFor(call))
  {
    EntrySurvivesItsLine(EntryFor(call));
    FieldsGiveCall(call);
    hide CommandOf;
    hide Typed;
    hide Name;
    hide C.RequestFields;
    hide CallOf;
  }

  /** Whatever a line asks for is writable. */
  lemma OnlyWritableIsAskedFor(line: Text, call: C.Call)
    requires Free(line, LF) && AskedFor(line, call)
    ensures Writable(call)
  {
    var c := CommandOf(line);
    FieldsArePlain(line);
    hide CommandOf;
    AskedFieldsArePlain(c.verb, c.fields, call);
    if call.ViewAllPage? { AskedNumbersAreInts(c.verb, c.fields, call); }
    hide CallOf;
    hide C.RequestFields;
    hide AllPlain;
  }

  lemma AskedFieldsArePlain(v: Verb, f: seq<Text>, call: C.Call)
    requires ServerBound(v) && AllPlain(f) && CallOf(v, f) == Asks(call)
    ensures AllPlain(C.RequestFields(call))
  {
    if call.ViewAllPage? {
      NumberIsPlain(call.offset);
      NumberIsPlain(call.limit);
      hide ToText;
    } else {
      forall x | x in C.RequestFields(call) ensures x in f {
        assert forall i :: 0 <= i < |C.RequestFields(call)| ==> C.RequestFields(call)[i] == f[i + 1];
      }
    }
    hide Plain;
    hide Stoi;
  }

  lemma NumberIsPlain(n: int)
    ensures Plain(ToText(n))
  {
  }

  lemma AskedNumbersAreInts(v: Verb, f: seq<Text>, call: C.Call)
    requires ServerBound(v) && CallOf(v, f) == Asks(call) && call.ViewAllPage?
    ensures INT_MIN <= call.offset <= INT_MAX && INT_MIN <= call.limit <= INT_MAX
  {
  }

  lemma FieldsGiveCall(call: C.Call)
    requires Writable(call)
    ensures var f := [Name(VerbFor(call))] + C.RequestFields(call);
      CallOf(VerbFor(call), f) == Asks(call)
  {
    var f := [Name(VerbFor(call))] + C.RequestFields(call);
    assert f[1..] == C.RequestFields(call);
    if call.ViewAllPage? {
      StoiOfToText(call.offset);
      StoiOfToText(call.limit);
    }
    hide Name;
    hide Stoi;
  }

  // ---- answers ----

  datatype Output = Ready | Ok(msg: Text) | Err(msg: Text) | Data(courses: seq<Course>) | Admins(names: seq<Text>)

  const READY := Ascii("READY")
  const OK := Ascii("OK")
  const ERR := Ascii("ERR")
  const DATA := Ascii("DATA")
  const ADMINS := Ascii("ADMINS")

  /** What is written for an output, up to its line feed. */
  function LineOf(o: Output): Text {
    match o
    case Ready => READY
    case Ok(msg) => OK + [TAB] + msg
    case Err(msg) => ERR + [TAB] + msg
    case Data(cs) => DATA + [TAB] + Join([ToText(|cs|)] + AllFields(cs), TAB)
    case Admins(names) => Join([ADMINS, ToText(|names|)] + names, TAB)
  }

  /** What std::cout is given for a run of outputs. */
  function Stdout(out: seq<Output>): Text {
    if out == [] then [] else Stdout(out[..|out| - 1]) + LineOf(out[|out| - 1]) + [LF]
  }

  /** The texts of an output that are not the program's own. */
  function TextsOf(o: Output): seq<Text> {
    match o
    case Ready => []
    case Ok(msg) => [msg]
    case Err(msg) => [msg]
    case Data(cs) => AllFields(cs)
    case Admins(names) => names
  }

  predicate Presentable(o: Output) { AllFree(TextsOf(o), TAB) && AllFree(TextsOf(o), LF) }

  // ---- reading answers ----

  function CoursesFrom(f: seq<Text>): (cs: seq<Course>)
    requires |f| % 8 == 0
    ensures 8 * |cs| == |f|
  {
    if f == [] then [] else CoursesFrom(f[..|f| - 8]) + [CourseOf(f[|f| - 8..])]
  }

  /**
   * What a reader of the line format makes of a line: documented in the bridge protocol, with eight fields a course.
   */
  function ReadLine(line: Text): Option<Output> {
    var f := Split(line, TAB);
    if f[0] == READY then Some(Ready)
    else if |f| < 2 then None
    else if f[0] == OK then Some(Ok(f[1]))
    else if f[0] == ERR then Some(Err(f[1]))
    else if f[0] == DATA && (|f| - 2) % 8 == 0 then Some(Data(CoursesFrom(f[2..])))
    else if f[0] == ADMINS then Some(Admins(f[2..]))
    else None
  }

  function ReadAll(text: Text): seq<Option<Output>> {
    seq(|LinesIn(text)|, i requires 0 <= i < |LinesIn(text)| => ReadLine(LinesIn(text)[i]))
  }

  function Answers(out: seq<Output>): seq<Option<Output>> { seq(|out|, i requires 0 <= i < |out| => Some(out[i])) }

  // ---- how many pieces a joined text falls into ----

  function Pieces(parts: seq<Text>, sep: byte): nat {
    if parts == [] then 0 else |Split(parts[0], sep)| + Pieces(parts[1..], sep)
  }

  lemma {:induction false} SplitOfJoinCounts(parts: seq<Text>, sep: byte)
    requires parts != []
    ensures |Split(Join(parts, sep), sep)| == Pieces(parts, sep)
  {
    if |parts| > 1 {
      SplitAt(parts[0], Join(parts[1..], sep), sep);
      SplitOfJoinCounts(parts[1..], sep);
    }
    hide Split;
  }

  lemma OnePieceIfFree(p: Text, sep: byte)
    ensures |Split(p, sep)| == 1 <==> Free(p, sep)
  {
    if Free(p, sep) {
      SplitFree(p, sep);
    } else {
      JoinOfSplit(p, sep);
      assert Split(p, sep)[0] in Split(p, sep);
    }
    hide Split;
  }

  lemma {:induction false} PiecesIfFree(parts: seq<Text>, sep: byte)
    ensures Pieces(parts, sep) >= |parts| && (Pieces(parts, sep) == |parts| <==> AllFree(parts, sep))
  {
    if parts != [] {
      OnePieceIfFree(parts[0], sep);
      PiecesIfFree(parts[1..], sep);
      assert parts == [parts[0]] + parts[1..];
    }
    hide Split;
  }

  /** A joined text falls into as many pieces as there are parts exactly when no part holds the separator. */
  lemma JoinedInto(parts: seq<Text>, sep: byte)
    requires parts != []
    ensures |Split(Join(parts, sep), sep)| >= |parts|
    ensures |Split(Join(parts, sep), sep)| == |parts| <==> AllFree(parts, sep)
  {
    SplitOfJoinCounts(parts, sep);
    PiecesIfFree(parts, sep);
    hide Split;
    hide Join;
    hide AllFree;
  }

  // ---- a line is read back if and only if its texts hold no tab ----

  lemma {:induction false} CoursesFromFields(cs: seq<Course>)
    ensures CoursesFrom(AllFields(cs)) == cs
  {
    if cs != [] {
      var n := |cs| - 1;
      CoursesFromFields(cs[..n]);
      var f := AllFields(cs);
      assert f[..|f| - 8] == AllFields(cs[..n]) && f[|f| - 8..] == FieldsOf(cs[n]);
      assert cs == cs[..n] + [cs[n]];
    }
  }

  lemma TagsDiffer()
    ensures OK != ERR && READY !in {OK, ERR, DATA, ADMINS} && DATA !in {OK, ERR, ADMINS} && ADMINS !in {OK, ERR}
  {
  }

  lemma TagsArePlain(sep: byte)
    requires sep < 33
    ensures Free(READY, sep) && Free(OK, sep) && Free(ERR, sep) && Free(DATA, sep) && Free(ADMINS, sep)
  {
  }

  /** A tag, a tab and more: the pieces are the tag and those of the rest. */
  lemma TagFirst(tag: Text, rest: Text)
    requires Free(tag, TAB)
    ensures Split(tag + [TAB] + rest, TAB) == [tag] + Split(rest, TAB)
  {
    SplitAt(tag, rest, TAB);
    SplitFree(tag, TAB);
    hide Split;
  }

  lemma FirstPiece(msg: Text)
    ensures Split(msg, TAB)[0] == msg <==> Free(msg, TAB)
  {
    if Free(msg, TAB) {
      SplitFree(msg, TAB);
    } else {
      JoinOfSplit(msg, TAB);
      assert Split(msg, TAB)[0] in Split(msg, TAB);
    }
    hide Split;
  }

  lemma MessageReads(tag: Text, msg: Text)
    requires Free(tag, TAB)
    ensures var f := Split(tag + [TAB] + msg, TAB); |f| >= 2 && f[0] == tag && (f[1] == msg <==> Free(msg, TAB))
  {
    TagFirst(tag, msg);
    FirstPiece(msg);
    hide Split;
  }

  lemma FreeCons(p: Text, f: seq<Text>, sep: byte)
    requires Free(p, sep)
    ensures AllFree([p] + f, sep) <==> AllFree(f, sep)
  {
    if AllFree([p] + f, sep) {
      forall x | x in f ensures Free(x, sep) { assert x in [p] + f; }
    }
  }

  /** A count and fields joined by tabs. */
  lemma ListReads(count: Text, fields: seq<Text>)
    requires Free(count, TAB)
    ensures var f := Split(Join([count] + fields, TAB), TAB);
      |f| >= 1 + |fields| && (|f| == 1 + |fields| <==> AllFree(fields, TAB)) && (AllFree(fields, TAB) ==>
          f == [count] + fields)
  {
    JoinedInto([count] + fields, TAB);
    FreeCons(count, fields, TAB);
    if AllFree(fields, TAB) { SplitOfJoin([count] + fields, TAB); }
    hide Split;
    hide Join;
    hide AllFree;
  }

  lemma DataReads(cs: seq<Course>)
    ensures var f := Split(LineOf(Data(cs)), TAB);
      |f| >= 2 && f[0] == DATA && (|f| - 2 == 8 * |cs| <==> AllFree(AllFields(cs), TAB))
      && (AllFree(AllFields(cs), TAB) ==> f[2..] == AllFields(cs))
  {
    hide Split;
    hide Join;
    hide AllFree;
    hide ToText;
    hide AllFields;
    TagsArePlain(TAB);
    CountIsFree(|cs|, TAB);
    var rest := Split(Join([ToText(|cs|)] + AllFields(cs), TAB), TAB);
    TagFirst(DATA, Join([ToText(|cs|)] + AllFields(cs), TAB));
    ListReads(ToText(|cs|), AllFields(cs));
    assert ([DATA] + rest)[2..] == rest[1..];
    assert ([ToText(|cs|)] + AllFields(cs))[1..] == AllFields(cs);
  }

  lemma AdminsRead(names: seq<Text>)
    ensures var f := Split(LineOf(Admins(names)), TAB);
      |f| >= 2 && f[0] == ADMINS && (|f| - 2 == |names| <==> AllFree(names, TAB)) && (AllFree(names, TAB) ==>
          f[2..] == names)
  {
    hide Split;
    hide AllFree;
    hide ToText;
    TagsArePlain(TAB);
    CountIsFree(|names|, TAB);
    var parts := [ToText(|names|)] + names;
    assert [ADMINS, ToText(|names|)] + names == [ADMINS] + parts;
    assert ([ADMINS] + parts)[1..] == parts;
    assert LineOf(Admins(names)) == ADMINS + [TAB] + Join(parts, TAB);
    hide Join;
    TagFirst(ADMINS, Join(parts, TAB));
    ListReads(ToText(|names|), names);
    assert ([ADMINS] + Split(Join(parts, TAB), TAB))[2..] == Split(Join(parts, TAB), TAB)[1..];
    assert parts[1..] == names;
  }

  /** The lines without a list: a word, and but for the first a tab and the text. */
  lemma TextLines(msg: Text)
    ensures LineOf(Ready) == Ascii("READY")
    ensures LineOf(Ok(msg)) == Ascii("OK") + [9] + msg && LineOf(Err(msg)) == Ascii("ERR") + [9] + msg
  {
    hide Ascii;
  }

  /** After its tag, a list of courses or of names gives the number of those that follow. */
  lemma ListsGiveTheirCount(cs: seq<Course>, names: seq<Text>)
    ensures var f := Split(LineOf(Data(cs)), TAB); |f| >= 2 && f[0] == Ascii("DATA") && f[1] == ToText(|cs|)
    ensures var f := Split(LineOf(Admins(names)), TAB);
      |f| >= 2 && f[0] == Ascii("ADMINS") && f[1] == ToText(|names|)
  {
    TagsArePlain(TAB);
    CountIsFree(|cs|, TAB);
    CountIsFree(|names|, TAB);
    FirstPieceIsFirst(ToText(|cs|), AllFields(cs), TAB);
    FirstPieceIsFirst(ToText(|names|), names, TAB);
    var parts := [ToText(|names|)] + names;
    assert [ADMINS, ToText(|names|)] + names == [ADMINS] + parts;
    assert ([ADMINS] + parts)[1..] == parts;
    assert LineOf(Admins(names)) == ADMINS + [TAB] + Join(parts, TAB);
    assert LineOf(Data(cs)) == DATA + [TAB] + Join([ToText(|cs|)] + AllFields(cs), TAB);
    hide LineOf;
    hide Split;
    hide Join;
    hide ToText;
    hide AllFields;
    hide Ascii;
    TagFirst(DATA, Join([ToText(|cs|)] + AllFields(cs), TAB));
    TagFirst(ADMINS, Join(parts, TAB));
  }

  /** A line is read as what was answered if and only if no text in it holds a tab. */
  lemma AnswerSurvivesItsLine(o: Output)
    ensures ReadLine(LineOf(o)) == Some(o) <==> AllFree(TextsOf(o), TAB)
  {
    hide Split;
    hide Join;
    hide AllFields;
    hide CoursesFrom;
    TagsDiffer();
    TagsArePlain(TAB);
    match o {
      case Ready => SplitFree(READY, TAB);
      case Ok(msg) => MessageReads(OK, msg); assert AllFree([msg], TAB) <==> Free(msg, TAB);
      case Err(msg) => MessageReads(ERR, msg); assert AllFree([msg], TAB) <==> Free(msg, TAB);
      case Data(cs) => DataReads(cs); CoursesFromFields(cs); hide AllFree;
      case Admins(names) => AdminsRead(names); hide AllFree;
    }
  }

  // ---- a run of answers is read back if and only if its texts hold no tab and no line feed ----

  lemma LineFree(o: Output)
    ensures Free(LineOf(o), LF) <==> AllFree(TextsOf(o), LF)
  {
    hide Join;
    hide AllFields;
    TagsArePlain(LF);
    match o {
      case Ready =>
      case Ok(msg) => assert AllFree([msg], LF) <==> Free(msg, LF);
      case Err(msg) => assert AllFree([msg], LF) <==> Free(msg, LF);
      case Data(cs) => JoinedLineFree(ToText(|cs|), AllFields(cs)); CountIsFree(|cs|, LF); hide ToText; hide AllFree;
      case Admins(names) =>
        CountIsFree(|names|, LF);
        FreeCons(ToText(|names|), names, LF);
        FreeCons(ADMINS, [ToText(|names|)] + names, LF);
        assert [ADMINS, ToText(|names|)] + names == [ADMINS] + ([ToText(|names|)] + names);
        JoinFreeIff([ADMINS, ToText(|names|)] + names);
        hide ToText;
        hide AllFree;
    }
  }

  lemma JoinFreeIff(parts: seq<Text>)
    requires parts != []
    ensures Free(Join(parts, TAB), LF) <==> AllFree(parts, LF)
  {
    if AllFree(parts, LF) { JoinFree(parts, TAB, LF); }
    if Free(Join(parts, TAB), LF) { JoinFreeOnlyIf(parts, TAB, LF); }
    hide Join;
    hide AllFree;
  }

  lemma JoinedLineFree(count: Text, fields: seq<Text>)
    requires Free(count, LF)
    ensures Free(Join([count] + fields, TAB), LF) <==> AllFree(fields, LF)
  {
    JoinFreeIff([count] + fields);
    FreeCons(count, fields, LF);
    hide Join;
    hide AllFree;
  }

  function LinesOf(out: seq<Output>): (r: seq<Text>)
    ensures |r| == |out|
  {
    seq(|out|, i requires 0 <= i < |out| => LineOf(out[i]))
  }

  lemma {:induction false} StdoutIsJoined(out: seq<Output>)
    ensures Stdout(out) == Join(LinesOf(out) + [[]], LF)
  {
    hide LineOf;
    if out == [] {
      assert LinesOf(out) + [[]] == [[]];
    } else {
      var n := |out| - 1;
      var front, w := LinesOf(out[..n]), LineOf(out[n]);
      StdoutIsJoined(out[..n]);
      assert LinesOf(out) == front + [w];
      JoinGrowsBy(front, [], w);
      JoinSnoc(front + [w], [], LF);
      assert [] + w == w && Join(front + [w], LF) + [LF] + [] == Join(front + [w], LF) + [LF];
    }
    hide Join;
  }

  lemma {:induction false} JoinGrowsBy(front: seq<Text>, p: Text, w: Text)
    ensures Join(front + [p + w], LF) == Join(front + [p], LF) + w
    decreases |w|
  {
    if w == [] {
      assert p + w == p && Join(front + [p], LF) + w == Join(front + [p], LF);
    } else {
      var n := |w| - 1;
      JoinGrowsBy(front, p, w[..n]);
      JoinGrowLast(front, p + w[..n], w[n], LF);
      assert p + w[..n] + [w[n]] == p + w;
      assert Join(front + [p], LF) + w[..n] + [w[n]] == Join(front + [p], LF) + w;
    }
    hide Join;
  }

  predicate LineFeedFree(out: seq<Output>) { forall o :: o in out ==> AllFree(TextsOf(o), LF) }

  lemma StdoutEndsALine(out: seq<Output>)
    ensures var pieces := Split(Stdout(out), LF); LinesIn(Stdout(out)) == pieces[..|pieces| - 1]
  {
    if out != [] {
      var front := Stdout(out[..|out| - 1]) + LineOf(out[|out| - 1]);
      SplitSnoc(front, LF, LF);
      assert Stdout(out) == front + [LF];
    }
    hide LineOf;
    hide Stdout;
  }

  /**
   * There are at least as many lines as answers, exactly as many if no answer holds a line feed, and then each is one
   * of them.
   */
  lemma LinesOfStdout(out: seq<Output>)
    ensures |LinesIn(Stdout(out))| >= |out|
    ensures |LinesIn(Stdout(out))| == |out| <==> LineFeedFree(out)
    ensures LineFeedFree(out) ==> LinesIn(Stdout(out)) == LinesOf(out)
  {
    hide Split;
    hide Join;
    hide Stdout;
    hide LineOf;
    hide TextsOf;
    var parts := LinesOf(out) + [[]];
    StdoutIsJoined(out);
    StdoutEndsALine(out);
    hide LinesIn;
    JoinedInto(parts, LF);
    forall i | 0 <= i < |out| ensures parts[i] == LineOf(out[i]) && (Free(parts[i], LF) <==>
        AllFree(TextsOf(out[i]), LF)) {
      LineFree(out[i]);
    }
    assert LineFeedFree(out) <==> AllFree(parts, LF) by { FeedFreeParts(out); }
    if LineFeedFree(out) { SplitOfJoin(parts, LF); }
  }

  lemma FeedFreeParts(out: seq<Output>)
    ensures LineFeedFree(out) <==> AllFree(LinesOf(out) + [[]], LF)
  {
    hide LineOf;
    hide TextsOf;
    var parts := LinesOf(out) + [[]];
    if AllFree(parts, LF) {
      forall o | o in out ensures AllFree(TextsOf(o), LF) {
        var i :| 0 <= i < |out| && out[i] == o;
        assert parts[i] in parts;
        LineFree(o);
      }
    }
    if LineFeedFree(out) {
      forall p | p in parts ensures Free(p, LF) {
        var i :| 0 <= i < |parts| && parts[i] == p;
        if i < |out| {
          assert out[i] in out;
          LineFree(out[i]);
        }
      }
    }
  }

  /** Reading all lines gives exactly the answers if and only if every text in them is free of tabs and line feeds. */
  lemma AnswersSurviveStdout(out: seq<Output>)
    ensures ReadAll(Stdout(out)) == Answers(out) <==> forall o :: o in out ==> Presentable(o)
  {
    hide ReadLine;
    hide LinesIn;
    hide Stdout;
    hide LineOf;
    hide TextsOf;
    LinesOfStdout(out);
    if LineFeedFree(out) {
      forall i | 0 <= i < |out| ensures ReadAll(Stdout(out))[i] == Some(out[i]) <==> AllFree(TextsOf(out[i]), TAB) {
        AnswerSurvivesItsLine(out[i]);
      }
      hide AllFree;
      if ReadAll(Stdout(out)) == Answers(out) {
        forall o | o in out ensures Presentable(o) {
          var i :| 0 <= i < |out| && out[i] == o;
          assert Answers(out)[i] == Some(o);
        }
      }
      if forall o :: o in out ==> Presentable(o) {
        forall i | 0 <= i < |out| ensures ReadAll(Stdout(out))[i] == Answers(out)[i] {
          assert out[i] in out;
        }
      }
    } else {
      assert |ReadAll(Stdout(out))| > |Answers(out)|;
    }
  }

  /** A course whose instructor holds a line feed comes out on two lines, and is not read back. */
  lemma LineFeedSplitsAnAnswer()
    ensures var c := Course(Ascii("C"), [], Ascii("1"), [65, LF, 66], [], [], [], []);
      |LinesIn(Stdout([Data([c])]))| > 1 && ReadAll(Stdout([Data([c])])) != Answers([Data([c])])
  {
    var c := Course(Ascii("C"), [], Ascii("1"), [65, LF, 66], [], [], [], []);
    var o := Data([c]);
    hide LineOf;
    hide LinesIn;
    hide Stdout;
    hide ReadAll;
    assert AllFields([c]) == FieldsOf(c) by { assert [c][..0] == []; }
    assert FieldsOf(c)[3] in TextsOf(o) && !Free(FieldsOf(c)[3], LF) by { assert FieldsOf(c)[3][1] == LF; }
    hide AllFields;
    assert o in [o] && !Presentable(o) && !LineFeedFree([o]);
    LinesOfStdout([o]);
    AnswersSurviveStdout([o]);
  }
}
