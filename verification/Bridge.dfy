/**
 * The bridge process: commands from a user interface, at most one connection to a server held in between, and the
 * client's calls made over it.
 */
module Bridge {
  import opened Bytes
  import opened Decimal
  import opened Separators
  import opened MessagePb
  import opened Commands
  import opened ListCodec
  import opened Sockets
  import opened Protocol
  import opened BridgeLines
  import C = Client

  /** How connect_to ends: with an error text, or with a connection and all that will happen on it. */
  datatype Dial = Refused(msg: Text) | Opened(conn: Conn, port: int)

  /**
   * What the surroundings do on the k-th line: connect_to a host and port, clock and initialization vector; and the
   * text of each error.
   */
  datatype Net = Net(c: Crypto, key: Key, dial: (nat, Text, int) -> Dial, now: nat -> uint32, iv: nat -> Option<Iv>,
      say: ErrorCode -> Text)

  /** The connection held, the line that opened it, and what it was opened to. */
  datatype Link = Link(line: nat, host: Text, port: int, conn: Conn)

  /** A call made: on which line, over the connection opened on which line. */
  datatype Made = Made(line: nat, conn: nat, call: C.Call)

  datatype State = State(sock: Option<Link>, nextId: uint32, out: seq<Output>, made: seq<Made>, quit: bool)

  function Started(id: uint32): State { State(None, id, [Ready], [], false) }

  const CONNECTED := Ascii("connected")
  const DISCONNECTED := Ascii("disconnected")
  const NOT_CONNECTED := Ascii("not connected")
  const UNKNOWN_VERB := Ascii("unknown verb: ")

  function Emitted(r: C.ClientResponse): Output {
    if C.IsError(r) then Err(r.text)
    else if C.IsData(r) then Data(r.courses)
    else if C.IsAdminList(r) then Admins(r.admins)
    else Ok(r.text)
  }

  /** The client function of a call on the k-th line. */
  function CallOver(net: Net, conn: Conn, id: uint32, k: nat, call: C.Call): (Conn, ErrorCode, C.ClientResponse) {
    C.Exchange(net.c, net.key, conn, MsgBody(C.CmdOf(call), id, net.now(k), Some(C.RequestFields(call))), net.iv(k),
        C.EMPTY_RESPONSE)
  }

  /** A call over the connection held: a transport error is told and drops the connection. */
  function Ask(net: Net, s: State, k: nat, call: C.Call): State
    requires s.sock.Some?
  {
    var x := CallOver(net, s.sock.value.conn, s.nextId, k, call);
    var made := s.made + [Made(k, s.sock.value.line, call)];
    if x.1 != SUCCESS then State(None, NextId(s.nextId), s.out + [Err(net.say(x.1))], made, s.quit)
    else State(Some(s.sock.value.(conn := x.0)), NextId(s.nextId), s.out + [Emitted(x.2)], made, s.quit)
  }

  function Obey(net: Net, s: State, k: nat, v: Verb, f: seq<Text>): State {
    match v
    case Quit => s.(quit := true)
    case Connect =>
      if |f| < 3 then s.(out := s.out + [Err(Usage(v))])
      else
        var d := net.dial(k, f[1], Atoi(f[2]));
        if d.Refused? then s.(out := s.out + [Err(d.msg)])
        else s.(sock := Some(Link(k, f[1], Atoi(f[2]), d.conn)), out := s.out + [Ok(CONNECTED)])
    case Disconnect => s.(sock := None, out := s.out + [Ok(DISCONNECTED)])
    case _ =>
      if s.sock.None? then s.(out := s.out + [Err(NOT_CONNECTED)])
      else match CallOf(v, f)
        case Missing => s.(out := s.out + [Err(Usage(v))])
        case Asks(call) => Ask(net, s, k, call)
  }

  function Next(net: Net, s: State, k: nat, line: Text): State {
    if s.quit then s else
    match CommandOf(line)
    case Blank => s
    case Unknown(word) => s.(out := s.out + [Err(UNKNOWN_VERB + word)])
    case Known(v, f) => Obey(net, s, k, v, f)
  }

  function Run(net: Net, id: uint32, lines: seq<Text>): State {
    if lines == [] then Started(id) else Next(net, Run(net, id, lines[..|lines| - 1]), |lines| - 1, lines[|lines| - 1])
  }

  class BridgeSession {
    const os: Os
    const ids: RequestCounter
    var sock: SocketHandler?
    var stdout: Text
    ghost var line: nat
    ghost var host: Text
    ghost var port: int
    ghost var out: seq<Output>
    ghost var made: seq<Made>

    ghost predicate Valid()
      reads this, os, sock
    {
      && (sock != null ==> sock.socket in os.conns && sock.socket != INVALID_SOCKET)
      && stdout == Stdout(out)
    }

    ghost function Now(quit: bool): State
      reads this, os, ids, sock
      requires Valid()
    {
      var link := if sock == null then None else Some(Link(line, host, port, os.conns[sock.socket]));
      State(link, ids.next, out, made, quit)
    }

    constructor (os: Os, ids: RequestCounter)
      ensures this.os == os && this.ids == ids && Valid() && Now(false) == Started(ids.next)
    {
      this.os, this.ids, this.sock, this.line, this.host, this.port := os, ids, null, 0, [], 0;
      this.stdout, this.out, this.made := READY + [LF], [Ready], [];
      new;
      assert [Ready][..0] == [] && [] + READY + [LF] == READY + [LF];
    }

    /** emit_ok, emit_err, emit_data and emit_admins. */
    method Emit(o: Output)
      requires Valid()
      modifies `stdout, `out
      ensures Valid() && out == old(out) + [o] && stdout == old(stdout) + LineOf(o) + [LF]
    {
      stdout := stdout + LineOf(o) + [LF];
      assert (out + [o])[..|out|] == out;
      out := out + [o];
      hide LineOf;
    }

    method RequireConnected() returns (ok: bool)
      requires Valid()
      modifies `stdout, `out
      ensures Valid() && ok == (sock != null) && out == if ok then old(out) else old(out) + [Err(NOT_CONNECTED)]
    {
      ok := sock != null;
      if !ok { Emit(Err(NOT_CONNECTED)); }
    }

    /** The new handler takes the place of the old one, which closes its socket. */
    method HandleConnect(net: Net, k: nat, f: seq<Text>)
      requires Valid()
      modifies this, os
      ensures Valid() && Now(false) == Obey(net, old(Now(false)), k, Connect, f)
    {
      hide Stdout;
      hide LineOf;
      hide Usage;
      hide Ask;
      hide CallOf;
      if |f| < 3 { Emit(Err(Usage(Connect))); return; }
      var d := net.dial(k, f[1], Atoi(f[2]));
      if d.Refused? { Emit(Err(d.msg)); return; }
      Hold(d.conn, d.port, k, f[1], Atoi(f[2]));
      Emit(Ok(CONNECTED));
    }

    /** A new handler for the connection, in the place of the one held. */
    method Hold(conn: Conn, peerPort: int, k: nat, ghost host: Text, ghost port: int)
      requires Valid()
      modifies `sock, `line, `host, `port, os
      ensures Valid() && sock != null && os.conns[sock.socket] == conn
      ensures line == k && this.host == host && this.port == port
    {
      hide Stdout;
      var fd := os.Connect(conn);
      var s := new SocketHandler(fd, seq(IP_LENGTH, _ => 0), peerPort);
      var moved := new SocketHandler.Move(s);
      if sock != null { sock.Destroy(os); }
      sock, line, this.host, this.port := moved, k, host, port;
    }

    method HandleDisconnect(net: Net, k: nat, f: seq<Text>)
      requires Valid()
      modifies this, os
      ensures Valid() && Now(false) == Obey(net, old(Now(false)), k, Disconnect, f)
    {
      Reset();
      Emit(Ok(DISCONNECTED));
    }

    /** sock.reset() */
    method Reset()
      requires Valid()
      modifies `sock, os
      ensures Valid() && sock == null
    {
      if sock != null { sock.Destroy(os); }
      sock := null;
    }

    /** One of the client functions over the connection held, and what is told of its end. */
    method AskServer(net: Net, k: nat, call: C.Call)
      requires Valid() && sock != null
      modifies this, os, ids
      ensures Valid() && Now(false) == Ask(net, old(Now(false)), k, call)
    {
      hide Stdout;
      hide LineOf;
      hide Emitted;
      hide C.Exchange;
      hide C.RequestFields;
      hide C.CmdOf;
      var e, r := C.SendAndRecv(net.c, net.key, sock, os, ids, C.RequestFields(call), C.CmdOf(call), net.now(k),
          net.iv(k), C.EMPTY_RESPONSE);
      made := made + [Made(k, line, call)];
      if e == SUCCESS {
        Emit(Emitted(r));
      } else {
        Emit(Err(net.say(e)));
        Reset();
      }
    }

    /** The shape of the fourteen handlers that ask the server: a transport error drops the connection. */
    method HandleCall(net: Net, k: nat, v: Verb, f: seq<Text>)
      requires Valid() && ServerBound(v)
      modifies this, os, ids
      ensures Valid() && Now(false) == Obey(net, old(Now(false)), k, v, f)
    {
      hide Stdout;
      hide LineOf;
      hide Usage;
      hide Ask;
      hide CallOf;
      var connected := RequireConnected();
      if !connected { return; }
      match CallOf(v, f) {
        case Missing => Emit(Err(Usage(v)));
        case Asks(call) => AskServer(net, k, call);
      }
    }

    method ObeyCommand(net: Net, k: nat, v: Verb, f: seq<Text>) returns (quit: bool)
      requires Valid()
      modifies this, os, ids
      ensures Valid() && Now(quit) == Obey(net, old(Now(false)), k, v, f)
    {
      hide CallOf;
      hide Ask;
      hide Stdout;
      quit := false;
      match v {
        case Connect => HandleConnect(net, k, f);
        case Disconnect => HandleDisconnect(net, k, f);
        case Quit => quit := true;
        case _ => HandleCall(net, k, v, f);
      }
    }
  }

  lemma LineIsObeyed(net: Net, s: State, k: nat, line: Text)
    requires !s.quit
    ensures var f := Split(WithoutCr(line), TAB);
      Next(net, s, k, line) ==
        if f[0] == [] then s
        else if VerbOf(f[0]).None? then s.(out := s.out + [Err(UNKNOWN_VERB + f[0])])
        else Obey(net, s, k, VerbOf(f[0]).value, f)
  {
    hide Obey;
    hide VerbFrom;
    hide Split;
    hide WithoutCr;
  }

  /** The loop over std::getline, up to QUIT or the end of the input. */
  method RunBridge(net: Net, os: Os, ids: RequestCounter, stdin: Text) returns (sess: BridgeSession, quit: bool)
    modifies os, ids
    ensures fresh(sess) && sess.os == os && sess.ids == ids && sess.Valid()
    ensures sess.Now(quit) == Run(net, old(ids.next), LinesIn(stdin))
        && sess.stdout == Stdout(Run(net, old(ids.next), LinesIn(stdin)).out)
  {
    hide Obey;
    hide Next;
    hide VerbFrom;
    hide Split;
    hide WithoutCr;
    hide Stdout;
    hide LineOf;
    hide LinesIn;
    sess := new BridgeSession(os, ids);
    quit := false;
    var at, k := 0, 0;
    assert stdin[0..] == stdin;
    while at < |stdin| && !quit
      invariant 0 <= at <= |stdin| && 0 <= k <= |LinesIn(stdin)| && LinesIn(stdin)[k..] == LinesIn(stdin[at..])
      invariant fresh(sess) && sess.os == os && sess.ids == ids && sess.Valid()
      invariant sess.Now(quit) == Run(net, old(ids.next), LinesIn(stdin)[..k])
      decreases |stdin| - at
    {
      var line;
      line, at := GetLine(stdin, at);
      assert LinesIn(stdin)[k] == line && LinesIn(stdin)[..k + 1][..k] == LinesIn(stdin)[..k];
      LineIsObeyed(net, sess.Now(false), k, line);
      var f := TsvSplit(line);
      if f[0] != [] {
        var verb := VerbOf(f[0]);
        if verb.None? { sess.Emit(Err(UNKNOWN_VERB + f[0])); }
        else { quit := sess.ObeyCommand(net, k, verb.value, f); }
      }
      k := k + 1;
    }
    if quit {
      NothingAfterQuit(net, old(ids.next), LinesIn(stdin), k);
    } else {
      LastLine([]);
      assert stdin[at..] == [] && LinesIn(stdin)[..k] == LinesIn(stdin);
    }
  }

  lemma {:induction false} NothingAfterQuit(net: Net, id: uint32, lines: seq<Text>, k: nat)
    requires k <= |lines| && Run(net, id, lines[..k]).quit
    ensures Run(net, id, lines) == Run(net, id, lines[..k])
    decreases |lines|
  {
    hide Obey;
    hide CommandOf;
    if k == |lines| {
      assert lines[..k] == lines;
    } else {
      assert lines[..|lines| - 1][..k] == lines[..k];
      NothingAfterQuit(net, id, lines[..|lines| - 1], k);
    }
  }

  // ---- what is answered ----

  /**
   * An answer tells what a reply says: an error text for the three error commands, the rows for a query response, the
   * names for an account list, and the text for everything else.
   */
  predicate Tells(a: Output, r: C.ClientResponse) {
    var failed := r.cmdType in {CMD_ERROR, CMD_PERMISSION_ERR, CMD_SERVER_ERROR};
    && (a.Err? <==> failed) && (a.Err? ==> a.msg == r.text)
    && (a.Data? <==> r.cmdType == CMD_QUERY_RESP) && (a.Data? ==> a.courses == r.courses)
    && (a.Admins? <==> r.cmdType == CMD_ADMIN_LIST_RESP) && (a.Admins? ==> a.names == r.admins)
    && (a.Ok? <==> !failed && r.cmdType !in {CMD_QUERY_RESP, CMD_ADMIN_LIST_RESP}) && (a.Ok? ==> a.msg == r.text)
  }

  lemma EmittedTells(r: C.ClientResponse)
    ensures Tells(Emitted(r), r)
  {
  }

  /** What a line that asks nothing of a server is answered, and what it leaves as it was. */
  lemma LocalAnswers(net: Net, s: State, k: nat, line: Text)
    requires !s.quit
    ensures var c, s' := CommandOf(line), Next(net, s, k, line);
      && (c.Blank? ==> s' == s)
      && (c.Unknown? ==> s' == s.(out := s.out + [Err(Ascii("unknown verb: ") + c.word)]))
      && (c.Known? && c.verb == Disconnect ==> s' == s.(sock := None, out := s.out + [Ok(Ascii("disconnected"))]))
      && (c.Known? && c.verb == Quit ==> s' == s.(quit := true))
      && (c.Known? && c.verb == Connect && |c.fields| < 3 ==> s' == s.(out := s.out + [Err(Usage(Connect))]))
      && (c.Known? && c.verb == Connect && |c.fields| >= 3 ==>
            var d := net.dial(k, c.fields[1], Atoi(c.fields[2]));
            && (d.Refused? ==> s' == s.(out := s.out + [Err(d.msg)]))
            && (d.Opened? ==> s'.out == s.out + [Ok(Ascii("connected"))]))
  {
    hide CommandOf;
    hide CallOf;
    hide Ask;
    hide Usage;
    hide Stoi;
    hide Ascii;
  }

  /**
   * What a line that asks a server is answered: an error without a connection, or with fields missing, and then nothing
   * else happens; the error text of an exchange that fails, and the connection is gone; else what the reply says.
   */
  lemma ServerAnswers(net: Net, s: State, k: nat, line: Text)
    requires !s.quit && CommandOf(line).Known? && ServerBound(CommandOf(line).verb)
    ensures var c, s' := CommandOf(line), Next(net, s, k, line);
      && (s.sock.None? ==> s' == s.(out := s.out + [Err(Ascii("not connected"))]))
      && (s.sock.Some? && |c.fields| < Needed(c.verb) ==> s' == s.(out := s.out + [Err(Usage(c.verb))]))
      && (s.sock.Some? && |c.fields| >= Needed(c.verb) ==>
            && CallOf(c.verb, c.fields).Asks?
            && var x := CallOver(net, s.sock.value.conn, s.nextId, k, CallOf(c.verb, c.fields).call);
               && (x.1 != SUCCESS ==> s'.out == s.out + [Err(net.say(x.1))] && s'.sock.None?)
               && (x.1 == SUCCESS ==>
                     && |s'.out| == |s.out| + 1 && s'.out[..|s.out|] == s.out && Tells(s'.out[|s.out|], x.2)
                     && s'.sock == Some(s.sock.value.(conn := x.0))))
  {
    hide CommandOf;
    hide CallOver;
    hide Usage;
    hide Ascii;
    hide Stoi;
    var c := CommandOf(line);
    CallIsAsked(c.verb, c.fields);
    hide CallOf;
    hide Needed;
    if s.sock.Some? && CallOf(c.verb, c.fields).Asks? {
      EmittedTells(CallOver(net, s.sock.value.conn, s.nextId, k, CallOf(c.verb, c.fields).call).2);
    }
    hide Emitted;
    hide Tells;
  }

  lemma CallIsAsked(v: Verb, f: seq<Text>)
    requires ServerBound(v)
    ensures CallOf(v, f).Asks? <==> |f| >= Needed(v)
  {
    hide Needed;
    hide Stoi;
  }

  // ---- one line of answer for each command ----

  predicate IsQuit(line: Text) { CommandOf(line).Known? && CommandOf(line).verb == Quit }

  predicate QuitBefore(lines: seq<Text>, k: nat) { exists i :: 0 <= i < k && i < |lines| && IsQuit(lines[i]) }

  /** The commands that are answered: not blank, not QUIT, and none after QUIT. */
  function Answerable(lines: seq<Text>): nat {
    if lines == [] then 0 else
      var n := |lines| - 1;
      Answerable(lines[..n]) + (if QuitBefore(lines, n) || CommandOf(lines[n]).Blank? || IsQuit(lines[n]) then 0 else 1)
  }

  lemma StepAnswers(net: Net, s: State, k: nat, line: Text)
    ensures var s' := Next(net, s, k, line);
      && s'.quit == (s.quit || IsQuit(line))
      && |s'.out| == |s.out| + (if s.quit || CommandOf(line).Blank? || IsQuit(line) then 0 else 1)
  {
    hide CommandOf;
    hide CallOf;
    hide CallOver;
    hide Emitted;
    hide Usage;
  }

  /** One answer for each command, and as many lines as that exactly when no answer holds a line feed. */
  lemma AnswersAreLines(net: Net, id: uint32, lines: seq<Text>)
    ensures var out := Run(net, id, lines).out;
      |LinesIn(Stdout(out))| == 1 + Answerable(lines) <==> LineFeedFree(out)
  {
    hide LinesIn;
    hide Stdout;
    hide LineFeedFree;
    hide QuitBefore;
    hide Answerable;
    OneAnswerEach(net, id, lines);
    LinesOfStdout(Run(net, id, lines).out);
    hide Run;
  }

  lemma {:induction false} OneAnswerEach(net: Net, id: uint32, lines: seq<Text>)
    ensures var s := Run(net, id, lines);
      s.quit == QuitBefore(lines, |lines|) && |s.out| == 1 + Answerable(lines)
  {
    hide Next;
    hide CommandOf;
    if lines != [] {
      var n := |lines| - 1;
      OneAnswerEach(net, id, lines[..n]);
      StepAnswers(net, Run(net, id, lines[..n]), n, lines[n]);
      PrefixQuit(lines);
      hide IsQuit;
    }
  }

  lemma PrefixQuit(lines: seq<Text>)
    requires lines != []
    ensures var n := |lines| - 1;
      QuitBefore(lines[..n], n) == QuitBefore(lines, n)
          && QuitBefore(lines, |lines|) == (QuitBefore(lines, n) || IsQuit(lines[n]))
  {
    hide IsQuit;
    var n := |lines| - 1;
    assert forall j :: 0 <= j < n ==> lines[..n][j] == lines[j];
  }

  // ---- which connection is held ----

  predicate Opens(net: Net, lines: seq<Text>, i: nat)
    requires i < |lines|
  {
    var c := CommandOf(lines[i]);
    !QuitBefore(lines, i) && c.Known? && c.verb == Connect && |c.fields| >= 3
    && net.dial(i, c.fields[1], Atoi(c.fields[2])).Opened?
  }

  /** A command that asks the server, over a connection on which the exchange fails. */
  predicate Breaks(net: Net, s: State, k: nat, line: Text) {
    var c := CommandOf(line);
    && c.Known? && ServerBound(c.verb) && CallOf(c.verb, c.fields).Asks? && s.sock.Some?
    && CallOver(net, s.sock.value.conn, s.nextId, k, CallOf(c.verb, c.fields).call).1 != SUCCESS
  }

  /** The line opens another connection, disconnects, or makes a call that breaks. */
  predicate Closes(net: Net, id: uint32, lines: seq<Text>, i: nat)
    requires i < |lines|
  {
    var c := CommandOf(lines[i]);
    && !QuitBefore(lines, i) && c.Known?
    && (Opens(net, lines, i) || c.verb == Disconnect || Breaks(net, Run(net, id, lines[..i]), i, lines[i]))
  }

  /** The j-th line opened a connection that no later line closed. */
  ghost predicate Holds(net: Net, id: uint32, lines: seq<Text>, j: nat) {
    j < |lines| && Opens(net, lines, j) && forall i :: j < i < |lines| ==> !Closes(net, id, lines, i)
  }

  function HeldLine(s: State): Option<nat> { if s.sock.Some? then Some(s.sock.value.line) else None }

  lemma QuitAlike(lines: seq<Text>, i: nat)
    requires i < |lines| - 1
    ensures QuitBefore(lines[..|lines| - 1], i) == QuitBefore(lines, i)
  {
    hide IsQuit;
    var shorter := lines[..|lines| - 1];
    assert forall j :: 0 <= j < i ==> shorter[j] == lines[j];
  }

  lemma PrefixAlike(net: Net, id: uint32, lines: seq<Text>, i: nat)
    requires i < |lines| - 1
    ensures var shorter := lines[..|lines| - 1];
      Opens(net, shorter, i) == Opens(net, lines, i) && Closes(net, id, shorter, i) == Closes(net, id, lines, i)
  {
    hide CommandOf;
    hide Breaks;
    hide QuitBefore;
    var shorter := lines[..|lines| - 1];
    QuitAlike(lines, i);
    assert shorter[i] == lines[i] && shorter[..i] == lines[..i];
  }

  lemma PrefixesAlike(net: Net, id: uint32, lines: seq<Text>)
    requires lines != []
    ensures var n := |lines| - 1;
      forall i :: 0 <= i < n ==>
        Opens(net, lines[..n], i) == Opens(net, lines, i) && Closes(net, id, lines[..n], i) == Closes(net, id, lines, i)
  {
    hide Opens;
    hide Closes;
    var n := |lines| - 1;
    forall i | 0 <= i < n
      ensures Opens(net, lines[..n], i) == Opens(net, lines, i)
          && Closes(net, id, lines[..n], i) == Closes(net, id, lines, i)
    {
      PrefixAlike(net, id, lines, i);
    }
  }

  lemma HoldsSnoc(net: Net, id: uint32, lines: seq<Text>, j: nat)
    requires lines != []
    ensures var n := |lines| - 1;
      Holds(net, id, lines, j) <==>
        if j == n then Opens(net, lines, n) else Holds(net, id, lines[..n], j) && !Closes(net, id, lines, n)
  {
    hide Opens;
    hide Closes;
    var n := |lines| - 1;
    PrefixesAlike(net, id, lines);
    if j < n {
      if Holds(net, id, lines, j) {
        assert forall i :: j < i < n ==> !Closes(net, id, lines[..n], i);
      }
      if Holds(net, id, lines[..n], j) && !Closes(net, id, lines, n) {
        forall i | j < i < |lines| ensures !Closes(net, id, lines, i) {
          assert i < n ==> !Closes(net, id, lines[..n], i);
        }
      }
    }
  }

  /** The connection in use is always the one of the latest successful CONNECT, if nothing ended it since. */
  lemma {:induction false} LatestConnectionIsHeld(net: Net, id: uint32, lines: seq<Text>, j: nat)
    ensures HeldLine(Run(net, id, lines)) == Some(j) <==> Holds(net, id, lines, j)
    decreases |lines|
  {
    hide Holds;
    hide Opens;
    hide Closes;
    hide Next;
    hide QuitBefore;
    if lines != [] {
      var n := |lines| - 1;
      LatestConnectionIsHeld(net, id, lines[..n], j);
      HoldsSnoc(net, id, lines, j);
      SocketStep(net, id, lines);
      HeldIsEarlier(net, id, lines[..n]);
      OpeningCloses(net, id, lines, n);
    } else {
      NothingHeld(net, id, j);
    }
  }

  lemma OpeningCloses(net: Net, id: uint32, lines: seq<Text>, i: nat)
    requires i < |lines|
    ensures Opens(net, lines, i) ==> Closes(net, id, lines, i)
  {
    hide CommandOf;
    hide Breaks;
  }

  lemma NothingHeld(net: Net, id: uint32, j: nat)
    ensures !Holds(net, id, [], j)
  {
  }

  /** What the last line does to the connection. */
  lemma LineHolds(net: Net, s: State, k: nat, line: Text)
    ensures var c := CommandOf(line);
      HeldLine(Next(net, s, k, line)) ==
        if !s.quit && c.Known? && c.verb == Connect && |c.fields| >= 3
          && net.dial(k, c.fields[1], Atoi(c.fields[2])).Opened? then Some(k)
        else if !s.quit && c.Known? && (c.verb == Disconnect || Breaks(net, s, k, line)) then None
            else HeldLine(s)
  {
    hide CommandOf;
    hide CallOf;
    hide CallOver;
    hide Emitted;
    hide Usage;
  }

  lemma SocketStep(net: Net, id: uint32, lines: seq<Text>)
    requires lines != []
    ensures var n := |lines| - 1;
      HeldLine(Run(net, id, lines)) ==
        if Opens(net, lines, n) then Some(n) else if Closes(net, id, lines, n) then None
            else HeldLine(Run(net, id, lines[..n]))
  {
    hide CommandOf;
    hide Breaks;
    hide QuitBefore;
    hide Next;
    hide HeldLine;
    var n := |lines| - 1;
    OneAnswerEach(net, id, lines[..n]);
    PrefixQuit(lines);
    LineHolds(net, Run(net, id, lines[..n]), n, lines[n]);
  }

  lemma {:induction false} HeldIsEarlier(net: Net, id: uint32, lines: seq<Text>)
    ensures HeldLine(Run(net, id, lines)).Some? ==> HeldLine(Run(net, id, lines)).value < |lines|
  {
    hide Opens;
    hide Closes;
    hide Next;
    if lines != [] {
      HeldIsEarlier(net, id, lines[..|lines| - 1]);
      SocketStep(net, id, lines);
    }
  }

  /** Every call made is what its line asked for, over the connection held at that moment. */
  ghost predicate MadeRightly(net: Net, id: uint32, lines: seq<Text>, x: Made) {
    && x.line < |lines| && HeldLine(Run(net, id, lines[..x.line])) == Some(x.conn)
    && AskedFor(lines[x.line], x.call)
  }

  lemma {:induction false} CallsAreMadeRightly(net: Net, id: uint32, lines: seq<Text>)
    ensures forall x :: x in Run(net, id, lines).made ==> MadeRightly(net, id, lines, x)
  {
    hide Next;
    hide AskedFor;
    if lines != [] {
      var n := |lines| - 1;
      CallsAreMadeRightly(net, id, lines[..n]);
      var before, s := Run(net, id, lines[..n]), Run(net, id, lines);
      forall x | x in s.made ensures MadeRightly(net, id, lines, x) {
        MadeStep(net, before, n, lines[n], x);
        if x in before.made {
          assert MadeRightly(net, id, lines[..n], x);
          assert lines[..n][..x.line] == lines[..x.line] && lines[..n][x.line] == lines[x.line];
        }
      }
    }
  }

  lemma MadeStep(net: Net, s: State, k: nat, line: Text, x: Made)
    requires x in Next(net, s, k, line).made
    ensures x in s.made || (x.line == k && HeldLine(s) == Some(x.conn) && AskedFor(line, x.call))
  {
    hide CommandOf;
    hide CallOf;
    hide CallOver;
    hide Emitted;
    hide Usage;
  }

  // ---- only what a line can hold is dialled and called ----

  ghost predicate MadeOfLines(s: State) {
    && (forall x :: x in s.made ==> Writable(x.call))
    && (s.sock.Some? ==> Plain(s.sock.value.host) && INT_MIN <= s.sock.value.port <= INT_MAX)
  }

  lemma StepIsMadeOfLines(net: Net, s: State, k: nat, line: Text)
    requires MadeOfLines(s) && Free(line, LF)
    ensures MadeOfLines(Next(net, s, k, line))
  {
    hide Writable;
    hide Plain;
    hide AllPlain;
    hide CommandOf;
    hide CallOf;
    hide CallOver;
    hide Emitted;
    hide Usage;
    hide Stoi;
    var c, s' := CommandOf(line), Next(net, s, k, line);
    FieldsArePlain(line);
    if c.Known? && |c.fields| >= 3 { FieldIsPlain(c.fields, 1); AtoiIsInt(c.fields[2]); }
    forall x | x in s'.made ensures Writable(x.call) {
      MadeStep(net, s, k, line, x);
      if AskedFor(line, x.call) { OnlyWritableIsAskedFor(line, x.call); }
    }
  }

  lemma FieldIsPlain(f: seq<Text>, i: nat)
    requires AllPlain(f) && i < |f|
    ensures Plain(f[i])
  {
    hide Plain;
    assert f[i] in f;
  }

  lemma AtoiIsInt(t: Text)
    ensures INT_MIN <= Atoi(t) <= INT_MAX
  {
  }

  /** Whatever the input, every call made is writable, and the connection held is to a plain host and an int port. */
  lemma {:induction false} RunIsMadeOfLines(net: Net, id: uint32, lines: seq<Text>)
    requires AllFree(lines, LF)
    ensures MadeOfLines(Run(net, id, lines))
  {
    hide Next;
    hide Writable;
    hide Plain;
    if lines != [] {
      var n := |lines| - 1;
      assert lines[n] in lines;
      RunIsMadeOfLines(net, id, lines[..n]);
      StepIsMadeOfLines(net, Run(net, id, lines[..n]), n, lines[n]);
    }
  }

  // ---- a connection's worth of calls ----

  /** CONNECT, then a command for each call. */
  function Script(host: Text, port: int, calls: seq<C.Call>): (es: seq<Entry>)
    ensures |es| == 1 + |calls|
  {
    if calls == [] then [Entry(Connect, [host, ToText(port)])]
        else Script(host, port, calls[..|calls| - 1]) + [EntryFor(calls[|calls| - 1])]
  }

  /** The calls made over a connection one after the other, the k-th on line k + 1: connection, next id, results. */
  function CallsOver(net: Net, conn: Conn, id: uint32,
      calls: seq<C.Call>): (r: (Conn, uint32, seq<(ErrorCode, C.ClientResponse)>))
    ensures |r.2| == |calls|
  {
    if calls == [] then (conn, id, []) else
      var n := |calls| - 1;
      var before := CallsOver(net, conn, id, calls[..n]);
      var x := CallOver(net, before.0, before.1, n + 1, calls[n]);
      (x.0, NextId(before.1), before.2 + [(x.1, x.2)])
  }

  function Shown(results: seq<(ErrorCode, C.ClientResponse)>): (r: seq<Output>)
    ensures |r| == |results|
  {
    seq(|results|, i requires 0 <= i < |results| => Emitted(results[i].1))
  }

  function Calls(made: seq<Made>): (r: seq<C.Call>)
    ensures |r| == |made|
  {
    seq(|made|, i requires 0 <= i < |made| => made[i].call)
  }

  /** A script a user interface can write so that it arrives. */
  predicate Arrives(host: Text, port: int, calls: seq<C.Call>) {
    Plain(host) && INT_MIN <= port <= INT_MAX && forall k :: 0 <= k < |calls| ==> Writable(calls[k])
  }

  lemma ConnectArrives(host: Text, port: int)
    requires Plain(host) && INT_MIN <= port <= INT_MAX
    ensures AllPlain([host, ToText(port)]) && Atoi(ToText(port)) == port
  {
    NumberIsPlain(port);
    StoiOfToText(port);
    hide ToText;
    hide Stoi;
    hide Plain;
  }

  lemma {:induction false} ScriptIsPlain(host: Text, port: int, calls: seq<C.Call>)
    requires Arrives(host, port, calls)
    ensures forall e :: e in Script(host, port, calls) ==> AllPlain(e.args)
    decreases |calls|
  {
    hide Writable;
    hide EntryFor;
    hide AllPlain;
    if calls == [] {
      ConnectArrives(host, port);
    } else {
      ScriptIsPlain(host, port, calls[..|calls| - 1]);
      WritableFields(calls[|calls| - 1]);
    }
  }

  /** The calls were made in order over the connection of the first line, and the answers came out in order. */
  ghost predicate Followed(s: State, host: Text, port: int, conn: Conn, id: uint32, calls: seq<C.Call>,
      results: seq<(ErrorCode, C.ClientResponse)>) {
    && s.out == [Ready, Ok(CONNECTED)] + Shown(results)
    && Calls(s.made) == calls && (forall x :: x in s.made ==> x.conn == 0)
    && s.sock == Some(Link(0, host, port, conn)) && s.nextId == id && !s.quit
  }

  lemma ScriptStarts(net: Net, id: uint32, host: Text, port: int)
    requires Plain(host) && INT_MIN <= port <= INT_MAX && net.dial(0, host, port).Opened?
    ensures Followed(Run(net, id, TypedLines(Script(host, port, []))), host, port, net.dial(0, host, port).conn, id, [],
        [])
  {
    var e := Entry(Connect, [host, ToText(port)]);
    ConnectArrives(host, port);
    EntrySurvivesItsLine(e);
    hide Stoi;
    hide ToText;
    hide CommandOf;
    hide Typed;
    hide Name;
    hide Plain;
    assert Run(net, id, []) == Started(id);
    assert TypedLines([e]) == [Typed(e)] && [Typed(e)][..0] == [];
    assert Run(net, id, [Typed(e)]) == Obey(net, Started(id), 0, Connect, [Name(Connect)] + [host, ToText(port)]);
    assert [Ready] + [Ok(CONNECTED)] == [Ready, Ok(CONNECTED)] + Shown([]);
  }

  lemma FollowedFurther(s: State, k: nat, host: Text, port: int, conn: Conn, id: uint32, calls: seq<C.Call>,
      results: seq<(ErrorCode, C.ClientResponse)>, call: C.Call, conn': Conn, r: C.ClientResponse)
    requires Followed(s, host, port, conn, id, calls, results)
    ensures Followed(State(Some(Link(0, host, port, conn')), NextId(id), s.out + [Emitted(r)],
                           s.made + [Made(k, 0, call)], false),
                     host, port, conn', NextId(id), calls + [call], results + [(SUCCESS, r)])
  {
    hide Emitted;
    assert Shown(results + [(SUCCESS, r)]) == Shown(results) + [Emitted(r)];
    assert s.out + [Emitted(r)] == [Ready, Ok(CONNECTED)] + (Shown(results) + [Emitted(r)]);
    assert Calls(s.made + [Made(k, 0, call)]) == Calls(s.made) + [call];
  }

  lemma CallIsAnswered(net: Net, s: State, k: nat, call: C.Call)
    requires !s.quit && s.sock.Some? && Writable(call)
    ensures Next(net, s, k, Typed(EntryFor(call))) == Ask(net, s, k, call)
  {
    CallSurvivesItsLine(call);
    hide CommandOf;
    hide CallOf;
    hide Ask;
    hide Typed;
    hide Writable;
    hide Usage;
    var c := CommandOf(Typed(EntryFor(call)));
    assert Next(net, s, k, Typed(EntryFor(call))) == Obey(net, s, k, VerbFor(call), c.fields);
    hide Next;
    CallIsObeyed(net, s, k, VerbFor(call), c.fields, call);
  }

  lemma CallIsObeyed(net: Net, s: State, k: nat, v: Verb, f: seq<Text>, call: C.Call)
    requires s.sock.Some? && ServerBound(v) && CallOf(v, f) == Asks(call)
    ensures Obey(net, s, k, v, f) == Ask(net, s, k, call)
  {
    hide CallOf;
    hide Ask;
    hide Usage;
  }

  /**
   * The calls of a script that arrives are made in order, all over its one connection, and if none of them breaks, the
   * answers come out in order as the exchanges over that connection gave them.
   */
  lemma {:induction false} LinesAreFollowed(net: Net, id: uint32, host: Text, port: int, calls: seq<C.Call>)
    requires Arrives(host, port, calls) && net.dial(0, host, port).Opened?
    requires forall k ::
      0 <= k < |calls| ==> CallsOver(net, net.dial(0, host, port).conn, id, calls).2[k].0 == SUCCESS
    ensures var r := CallsOver(net, net.dial(0, host, port).conn, id, calls);
      Followed(Run(net, id, TypedLines(Script(host, port, calls))), host, port, r.0, r.1, calls, r.2)
    decreases |calls|
  {
    hide Emitted;
    hide Typed;
    hide EntryFor;
    hide Writable;
    hide Next;
    hide CallOver;
    hide Followed;
    if calls == [] {
      ScriptStarts(net, id, host, port);
    } else {
      var n := |calls| - 1;
      var conn := net.dial(0, host, port).conn;
      var r, r' := CallsOver(net, conn, id, calls), CallsOver(net, conn, id, calls[..n]);
      assert forall k :: 0 <= k < n ==> r'.2[k] == r.2[k];
      LinesAreFollowed(net, id, host, port, calls[..n]);
      assert r.2[n].0 == SUCCESS;
      ScriptGoesOn(net, id, Run(net, id, TypedLines(Script(host, port, calls[..n]))), n + 1, host, port, r'.0, r'.1,
          calls[..n], r'.2, calls[n]);
      assert TypedLines(Script(host, port, calls))[..n + 1] == TypedLines(Script(host, port, calls[..n]));
      assert calls[..n] + [calls[n]] == calls;
    }
  }

  lemma ScriptGoesOn(net: Net, id: uint32, s: State, k: nat, host: Text, port: int, conn: Conn, now: uint32,
      calls: seq<C.Call>, results: seq<(ErrorCode, C.ClientResponse)>, call: C.Call)
    requires Followed(s, host, port, conn, now, calls, results) && Writable(call)
        && CallOver(net, conn, now, k, call).1 == SUCCESS
    ensures var x := CallOver(net, conn, now, k, call);
      Followed(Next(net, s, k, Typed(EntryFor(call))), host, port, x.0, NextId(now), calls + [call],
          results + [(x.1, x.2)])
  {
    hide CallOver;
    hide Emitted;
    hide Writable;
    hide Typed;
    hide Next;
    var x := CallOver(net, conn, now, k, call);
    CallIsAnswered(net, s, k, call);
    FollowedFurther(s, k, host, port, conn, now, calls, results, call, x.0, x.2);
    hide Shown;
    hide Calls;
  }

  /** The state after an input in which a user interface meant one connection and these calls. */
  function AfterScript(net: Net, id: uint32, host: Text, port: int, calls: seq<C.Call>): State {
    Run(net, id, LinesIn(Stdin(Script(host, port, calls))))
  }

  /** The connection held is to that host and port, and these calls were made. */
  predicate DoneAsMeant(s: State, host: Text, port: int, calls: seq<C.Call>) {
    s.sock.Some? && s.sock.value.host == host && s.sock.value.port == port && Calls(s.made) == calls
  }

  /**
   * If none of the calls breaks, the bridge does what a script meant if and only if its host is plain, its port an int
   * and its calls writable; and then the answers come out in order as the exchanges over that connection gave them.
   */
  lemma ScriptIsFollowed(net: Net, id: uint32, host: Text, port: int, calls: seq<C.Call>)
    requires net.dial(0, host, port).Opened?
    requires forall k ::
      0 <= k < |calls| ==> CallsOver(net, net.dial(0, host, port).conn, id, calls).2[k].0 == SUCCESS
    ensures var s := AfterScript(net, id, host, port, calls);
      var r := CallsOver(net, net.dial(0, host, port).conn, id, calls);
      && (DoneAsMeant(s, host, port, calls) <==> Arrives(host, port, calls))
      && (Arrives(host, port, calls) ==> Followed(s, host, port, r.0, r.1, calls, r.2))
  {
    hide Run;
    hide LinesIn;
    hide Stdin;
    hide Script;
    hide CallsOver;
    hide Writable;
    hide Plain;
    hide Shown;
    var text := Stdin(Script(host, port, calls));
    var s := Run(net, id, LinesIn(text));
    LinesAreFree(text);
    RunIsMadeOfLines(net, id, LinesIn(text));
    if Arrives(host, port, calls) {
      ScriptIsPlain(host, port, calls);
      PlainEntriesAreLines(Script(host, port, calls));
      LinesAreFollowed(net, id, host, port, calls);
    } else if DoneAsMeant(s, host, port, calls) {
      forall k | 0 <= k < |calls| ensures Writable(calls[k]) {
        assert Calls(s.made)[k] == s.made[k].call && s.made[k] in s.made;
      }
      assert false;
    }
  }

  // ---- a line feed in an argument ----

  /** An A and a B with a line feed between them. */
  const A_LF_B: Text := [65, LF, 66]

  lemma ShortWordIsNoVerb(t: Text)
    requires |t| < 3
    ensures VerbOf(t).None?
  {
    hide Name;
    hide VerbFrom;
    if VerbOf(t).Some? { NamesAreLong(VerbOf(t).value); }
  }

  lemma RestIsUnknown()
    ensures CommandOf([66]) == Unknown([66])
  {
    assert WithoutCr([66]) == [66];
    SplitFree([66], TAB);
    ShortWordIsNoVerb([66]);
    hide VerbFrom;
  }

  lemma TwoEntries(connect: Entry, query: Entry)
    ensures Stdin([connect, query]) == Typed(connect) + [LF] + (Typed(query) + [LF])
    ensures TypedLines([connect, query]) == [Typed(connect), Typed(query)]
  {
    hide Typed;
    assert [connect, query][1..] == [query] && [query][1..] == [];
    assert Stdin([query]) == Typed(query) + [LF] + Stdin([]);
  }

  lemma OneCallScript(host: Text, port: int, call: C.Call)
    ensures Script(host, port, [call]) == [Entry(Connect, [host, ToText(port)]), EntryFor(call)]
  {
    hide EntryFor;
    hide ToText;
    assert [call][..0] == [];
    assert Script(host, port, []) == [Entry(Connect, [host, ToText(port)])];
  }

  lemma QueryIsTyped(name: Text)
    ensures Typed(EntryFor(C.QueryInstructor(name))) == Name(QueryInstructor) + [TAB] + name
  {
    hide Name;
    var e := EntryFor(C.QueryInstructor(name));
    assert e.args == [name] && e.verb == QueryInstructor;
    assert ([Name(e.verb)] + [name])[1..] == [name] && Join([name], TAB) == name;
  }

  lemma HeadIsWritable()
    ensures Writable(C.QueryInstructor([65])) && AllPlain(EntryFor(C.QueryInstructor([65])).args)
  {
    assert Plain([65]);
  }

  lemma ThreeLines(a: Text, b: Text, c: Text)
    requires Free(a, LF) && Free(b, LF) && Free(c, LF)
    ensures LinesIn(a + [LF] + (b + [LF] + c + [LF])) == [a, b, c]
  {
    assert b + [LF] + c + [LF] == b + [LF] + (c + [LF] + []);
    LineFirst(a, b + [LF] + c + [LF]);
    LineFirst(b, c + [LF] + []);
    LineFirst(c, []);
    LastLine([]);
    hide LinesIn;
  }

  lemma HeadAndRest()
    ensures Typed(EntryFor(C.QueryInstructor(A_LF_B))) == Typed(EntryFor(C.QueryInstructor([65]))) + [LF] + [66]
  {
    hide Name;
    QueryIsTyped(A_LF_B);
    QueryIsTyped([65]);
    hide Typed;
    hide EntryFor;
    assert A_LF_B == [65] + [LF] + [66];
  }

  lemma SplitScript(host: Text, port: int)
    requires Plain(host) && INT_MIN <= port <= INT_MAX
    ensures LinesIn(Stdin(Script(host, port, [C.QueryInstructor(A_LF_B)]))) ==
      TypedLines(Script(host, port, [C.QueryInstructor([65])])) + [[66]]
  {
    hide ToText;
    hide Plain;
    hide AllPlain;
    hide Typed;
    hide Name;
    hide LinesIn;
    hide Stdin;
    hide Script;
    hide TypedLines;
    hide CommandOf;
    hide Writable;
    hide EntryFor;
    var connect := Entry(Connect, [host, ToText(port)]);
    var whole, head := EntryFor(C.QueryInstructor(A_LF_B)), EntryFor(C.QueryInstructor([65]));
    ConnectArrives(host, port);
    HeadIsWritable();
    EntrySurvivesItsLine(connect);
    EntrySurvivesItsLine(head);
    OneCallScript(host, port, C.QueryInstructor(A_LF_B));
    OneCallScript(host, port, C.QueryInstructor([65]));
    TwoEntries(connect, whole);
    TwoEntries(connect, head);
    HeadAndRest();
    ThreeLines(Typed(connect), Typed(head), [66]);
  }

  /** A query for an instructor whose name holds a line feed asks for what stands before it, and tells of the rest. */
  lemma LineFeedSplitsACall(net: Net, id: uint32, host: Text, port: int)
    requires Plain(host) && INT_MIN <= port <= INT_MAX && net.dial(0, host, port).Opened?
    ensures var s := AfterScript(net, id, host, port, [C.QueryInstructor(A_LF_B)]);
      Calls(s.made) == [C.QueryInstructor([65])] && s.out != [] && s.out[|s.out| - 1] == Err(UNKNOWN_VERB + [66])
  {
    hide LinesIn;
    hide Stdin;
    hide Script;
    hide CallOver;
    hide Emitted;
    hide CommandOf;
    hide Typed;
    var lines := TypedLines(Script(host, port, [C.QueryInstructor([65])]));
    SplitScript(host, port);
    RestIsUnknown();
    OneCallIsMade(net, id, host, port);
    assert (lines + [[66]])[..|lines|] == lines;
  }

  lemma OneCallIsMade(net: Net, id: uint32, host: Text, port: int)
    requires Plain(host) && INT_MIN <= port <= INT_MAX && net.dial(0, host, port).Opened?
    ensures var s := Run(net, id, TypedLines(Script(host, port, [C.QueryInstructor([65])])));
      Calls(s.made) == [C.QueryInstructor([65])] && !s.quit
  {
    hide Typed;
    hide Next;
    hide Ask;
    hide Writable;
    hide Plain;
    hide EntryFor;
    var call := C.QueryInstructor([65]);
    var lines := TypedLines(Script(host, port, [call]));
    ScriptStarts(net, id, host, port);
    HeadIsWritable();
    assert [call][..0] == [];
    assert lines[..1] == TypedLines(Script(host, port, []));
    hide Script;
    var s := Run(net, id, lines[..1]);
    CallIsAnswered(net, s, 1, call);
    assert Calls(s.made) == [];
    AskMakes(net, s, 1, call);
  }

  lemma AskMakes(net: Net, s: State, k: nat, call: C.Call)
    requires s.sock.Some? && s.made == []
    ensures Calls(Ask(net, s, k, call).made) == [call] && Ask(net, s, k, call).quit == s.quit
  {
    hide CallOver;
    hide Emitted;
  }
}
