/** From the lines a user interface writes to those it reads, through bridge, client, wire and server. */
module UserInterface {
  import opened Bytes
  import opened MessagePb
  import opened Commands
  import opened CourseTables
  import opened CourseViews
  import opened Administrators
  import opened ListCodec
  import opened Handlers
  import opened RequestEffects
  import opened Sockets
  import opened Protocol
  import opened ServerLoop
  import opened CleanRuns
  import opened EndToEnd
  import C = Client
  import B = Bridge
  import L = BridgeLines

  /** The bridge uses the wiring and the client's clock and random source, the first call being on its second line. */
  ghost predicate Agrees(net: B.Net, w: Wiring, co: ClientOracle) {
    net.c == w.c && net.key == w.key && forall k: nat :: net.now(k + 1) == co.now(k) && net.iv(k + 1) == Some(co.iv(k))
  }

  function IdAfter(id: uint32, n: nat): uint32 { if n == 0 then id else NextId(IdAfter(id, n - 1)) }

  lemma {:induction false} IdAfterNext(id: uint32, n: nat)
    ensures IdAfter(NextId(id), n) == NextId(IdAfter(id, n))
  {
    if n > 0 { IdAfterNext(id, n - 1); }
  }

  /** A run of calls, its last call apart. */
  lemma {:induction false} ClientRunSnoc(w: Wiring, conn: Conn, calls: seq<C.Call>, co: ClientOracle, k: nat,
      id: uint32)
    requires calls != []
    ensures var n := |calls| - 1;
      var before := ClientRun(w, conn, calls[..n], co, k, id);
      var request := MsgBody(C.CmdOf(calls[n]), IdAfter(id, n), co.now(k + n), Some(C.RequestFields(calls[n])));
      var x := C.Exchange(w.c, w.key, before.0, request, Some(co.iv(k + n)), C.EMPTY_RESPONSE);
      ClientRun(w, conn, calls, co, k, id) == (x.0, before.1 + [(x.1, x.2)])
    decreases |calls|
  {
    hide C.Exchange;
    hide C.CmdOf;
    hide C.RequestFields;
    var n := |calls| - 1;
    if n > 0 {
      var y := C.Exchange(w.c, w.key, conn, MsgBody(C.CmdOf(calls[0]), id, co.now(k), Some(C.RequestFields(calls[0]))),
          Some(co.iv(k)), C.EMPTY_RESPONSE);
      ClientRunSnoc(w, y.0, calls[1..], co, k + 1, NextId(id));
      IdAfterNext(id, n - 1);
      assert calls[1..][..n - 1] == calls[..n][1..] && calls[1..][n - 1] == calls[n] && calls[..n][0] == calls[0];
      var before, inner := ClientRun(w, conn, calls[..n], co, k, id),
          ClientRun(w, y.0, calls[1..][..n - 1], co, k + 1, NextId(id));
      assert before == (inner.0, [(y.1, y.2)] + inner.1);
      var request := MsgBody(C.CmdOf(calls[n]), IdAfter(id, n), co.now(k + n), Some(C.RequestFields(calls[n])));
      var x := C.Exchange(w.c, w.key, inner.0, request, Some(co.iv(k + n)), C.EMPTY_RESPONSE);
      assert [(y.1, y.2)] + (inner.1 + [(x.1, x.2)]) == [(y.1, y.2)] + inner.1 + [(x.1, x.2)];
    } else {
      assert calls[..0] == [] && calls[1..] == [];
      var y := C.Exchange(w.c, w.key, conn, MsgBody(C.CmdOf(calls[0]), id, co.now(k), Some(C.RequestFields(calls[0]))),
                          Some(co.iv(k)), C.EMPTY_RESPONSE);
      assert ClientRun(w, y.0, calls[1..], co, k + 1, NextId(id)) == (y.0, []);
      assert [(y.1, y.2)] + [] == [] + [(y.1, y.2)];
    }
  }

  lemma {:induction false} BridgeMakesTheClientsCalls(net: B.Net, w: Wiring, conn: Conn, calls: seq<C.Call>,
      co: ClientOracle, id: uint32)
    requires Agrees(net, w, co)
    ensures var r := ClientRun(w, conn, calls, co, 0, id);
      B.CallsOver(net, conn, id, calls) == (r.0, IdAfter(id, |calls|), r.1)
    decreases |calls|
  {
    hide C.Exchange;
    hide C.CmdOf;
    hide C.RequestFields;
    if calls != [] {
      var n := |calls| - 1;
      BridgeMakesTheClientsCalls(net, w, conn, calls[..n], co, id);
      ClientRunSnoc(w, conn, calls, co, 0, id);
    }
  }

  /** The successful results with these responses. */
  function Outcomes(responses: seq<C.ClientResponse>): seq<(ErrorCode, C.ClientResponse)> {
    seq(|responses|, i requires 0 <= i < |responses| => (SUCCESS, responses[i]))
  }

  /**
   * A server with this store that serves these calls, behind what the bridge dials: no transport error, and every frame
   * within the receiver's limit.
   */
  ghost predicate Serves(w: Wiring, lib: Library, st: Store, calls: seq<C.Call>, co: ClientOracle, o: Oracle,
      clientId: uint32, serverId: uint32, serverRoom: nat, clientRoom: nat, dial: B.Dial) {
    var xs := Requests(calls, co, 0, clientId);
    var start := Accepted(Conn(Wire(w.c, w.key, xs), serverRoom, []), st, serverId);
    && Lawful(w.c) && EnginesLawful(o)
    && AllSendable(w.c, w.key, xs) && |Wire(w.c, w.key, xs)| <= clientRoom
    && ServerCanAnswer(w, o, start, DirectRun(lib, FRESH_SESSION, st, calls, o, 0))
    && dial.Opened? && dial.conn == Conn(Serve(w, lib, SERVER_TABLE, o, start).conn.outgoing, clientRoom, [])
  }

  /** What the bridge answers to CONNECT and these calls. */
  function BridgeAnswers(lib: Library, st: Store, calls: seq<C.Call>, o: Oracle): seq<L.Output> {
    [L.Ready, L.Ok(B.CONNECTED)] + B.Shown(Outcomes(DirectResponses(lib, FRESH_SESSION, st, calls, o, 0)))
  }

  /** READY, a word on the connection, and then of each response what kind it is and what it says. */
  ghost predicate AnswersTell(answers: seq<L.Output>, responses: seq<C.ClientResponse>) {
    && |answers| == 2 + |responses|
    && answers[0] == L.Ready && answers[1] == L.Ok(Ascii("connected"))
    && forall k :: 0 <= k < |responses| ==> B.Tells(answers[2 + k], responses[k])
  }

  lemma BridgeAnswersTell(lib: Library, st: Store, calls: seq<C.Call>, o: Oracle)
    ensures AnswersTell(BridgeAnswers(lib, st, calls, o), DirectResponses(lib, FRESH_SESSION, st, calls, o, 0))
  {
    hide DirectResponses;
    hide B.Tells;
    hide B.Emitted;
    hide Ascii;
    var responses := DirectResponses(lib, FRESH_SESSION, st, calls, o, 0);
    forall k | 0 <= k < |responses| ensures B.Tells(BridgeAnswers(lib, st, calls, o)[2 + k], responses[k]) {
      B.EmittedTells(responses[k]);
    }
  }

  lemma ServedCallsSucceed(w: Wiring, lib: Library, st: Store, calls: seq<C.Call>, co: ClientOracle, o: Oracle,
      clientId: uint32, serverId: uint32, serverRoom: nat, clientRoom: nat, net: B.Net, dial: B.Dial)
    requires CleanStore(st) && CleanCalls(calls) && Agrees(net, w, co)
    requires Serves(w, lib, st, calls, co, o, clientId, serverId, serverRoom, clientRoom, dial)
    ensures B.CallsOver(net, dial.conn, clientId, calls).2 ==
        Outcomes(DirectResponses(lib, FRESH_SESSION, st, calls, o, 0))
  {
    hide Serve;
    hide ClientRun;
    hide DirectRun;
    hide DirectResponses;
    hide Requests;
    hide Wire;
    hide AllSendable;
    hide ServerCanAnswer;
    hide CleanStore;
    hide CleanCalls;
    hide EnginesLawful;
    hide Agrees;
    hide B.CallsOver;
    ClientSeesDirectResponses(w, lib, st, calls, co, o, clientId, serverId, serverRoom, clientRoom);
    BridgeMakesTheClientsCalls(net, w, dial.conn, calls, co, clientId);
    assert ClientRun(w, dial.conn, calls, co, 0, clientId).1 ==
        Outcomes(DirectResponses(lib, FRESH_SESSION, st, calls, o, 0));
  }

  lemma ServesOpened(w: Wiring, lib: Library, st: Store, calls: seq<C.Call>, co: ClientOracle, o: Oracle,
      clientId: uint32, serverId: uint32, serverRoom: nat, clientRoom: nat, dial: B.Dial)
    requires Serves(w, lib, st, calls, co, o, clientId, serverId, serverRoom, clientRoom, dial)
    ensures dial.Opened?
  {
    hide Serve;
    hide DirectRun;
    hide ServerCanAnswer;
    hide AllSendable;
  }

  /**
   * The whole way from and to the user interface. What it writes for a CONNECT and these calls is done as meant, on a
   * server that serves them, if and only if it arrives: no host or argument holds a tab, a line feed or a carriage
   * return, and numbers are ints. Then the bridge answers with the direct responses of the handlers, in order; and what
   * it writes, taken apart into lines and read, is these answers if and only if no text in them holds a tab or a line
   * feed.
   */
  lemma UserInterfaceSeesDirectResponses(w: Wiring, lib: Library, st: Store, calls: seq<C.Call>, co: ClientOracle,
      o: Oracle, clientId: uint32, serverId: uint32, serverRoom: nat, clientRoom: nat, net: B.Net, host: Text,
      port: int)
    requires CleanStore(st) && CleanCalls(calls) && Agrees(net, w, co)
    requires Serves(w, lib, st, calls, co, o, clientId, serverId, serverRoom, clientRoom, net.dial(0, host, port))
    ensures var s := B.AfterScript(net, clientId, host, port, calls);
      var answers := BridgeAnswers(lib, st, calls, o);
      && (B.DoneAsMeant(s, host, port, calls) <==> B.Arrives(host, port, calls))
      && (B.Arrives(host, port, calls) ==> s.out == answers)
      && AnswersTell(answers, DirectResponses(lib, FRESH_SESSION, st, calls, o, 0))
      && (L.ReadAll(L.Stdout(answers)) == L.Answers(answers) <==> forall a :: a in answers ==> L.Presentable(a))
  {
    hide Serves;
    hide B.AfterScript;
    hide B.DoneAsMeant;
    hide B.Arrives;
    hide B.Shown;
    hide B.CallsOver;
    hide L.Presentable;
    hide L.ReadAll;
    hide L.Stdout;
    hide L.Answers;
    hide DirectResponses;
    hide CleanStore;
    hide CleanCalls;
    hide Agrees;
    ServedCallsSucceed(w, lib, st, calls, co, o, clientId, serverId, serverRoom, clientRoom, net,
        net.dial(0, host, port));
    ServesOpened(w, lib, st, calls, co, o, clientId, serverId, serverRoom, clientRoom, net.dial(0, host, port));
    B.ScriptIsFollowed(net, clientId, host, port, calls);
    L.AnswersSurviveStdout(BridgeAnswers(lib, st, calls, o));
    BridgeAnswersTell(lib, st, calls, o);
    hide AnswersTell;
    hide BridgeAnswers;
  }

  // ---- a login over the bridge ----

  /** The direct response to a login. */
  lemma LoginIsAnswered(lib: Library, st: Store, u: Text, p: Text, o: Oracle)
    requires u != [] && p != []
    ensures var granted := st.admins.isOpen && o.env(0).first.fetch && LogsIn(lib.kdf, st.admins.table, CString(u), p);
      DirectResponses(lib, FRESH_SESSION, st, [C.Login(u, p)], o, 0) ==
        [if granted then C.ClientResponse(CMD_LOGIN_RESP, Ascii("OK"), [], [])
         else C.ClientResponse(CMD_ERROR, Ascii("Invalid username or password"), [], [])]
  {
    LoginIsGranted(lib, FRESH_SESSION, st, u, p, o.env(0));
    hide Dispatch;
    hide LogsIn;
    hide CString;
    hide Ascii;
    assert [C.Login(u, p)][1..] == [];
    var e := DispatchCall(lib, FRESH_SESSION, st, C.Login(u, p), o.env(0));
    assert e == Send(lib, FRESH_SESSION, st, CMD_LOGIN_REQ, [u, p], o.env(0));
    assert DirectResponses(lib, FRESH_SESSION, st, [C.Login(u, p)], o, 0) ==
        [DirectResponse(lib, st, C.Login(u, p), e, o.env(0))];
  }

  /** A login is told as OK exactly if it is granted, and as an error with the server's text if not. */
  lemma LoginOverTheBridge(w: Wiring, lib: Library, st: Store, u: Text, p: Text, co: ClientOracle, o: Oracle,
      clientId: uint32, serverId: uint32, serverRoom: nat, clientRoom: nat, net: B.Net, host: Text, port: int)
    requires u != [] && p != [] && CleanStore(st) && CleanCalls([C.Login(u, p)]) && Agrees(net, w, co)
    requires B.Arrives(host, port, [C.Login(u, p)])
    requires Serves(w, lib, st, [C.Login(u, p)], co, o, clientId, serverId, serverRoom, clientRoom,
        net.dial(0, host, port))
    ensures var granted := st.admins.isOpen && o.env(0).first.fetch && LogsIn(lib.kdf, st.admins.table, CString(u), p);
      B.AfterScript(net, clientId, host, port, [C.Login(u, p)]).out ==
        [L.Ready, L.Ok(Ascii("connected")),
         if granted then L.Ok(Ascii("OK")) else L.Err(Ascii("Invalid username or password"))]
  {
    hide B.AfterScript;
    hide B.DoneAsMeant;
    hide B.Arrives;
    hide BridgeAnswers;
    hide L.ReadAll;
    hide L.Stdout;
    hide L.Answers;
    hide L.Presentable;
    hide DirectResponses;
    hide CleanStore;
    hide CleanCalls;
    hide Serves;
    hide Agrees;
    hide LogsIn;
    hide CString;
    hide Ascii;
    UserInterfaceSeesDirectResponses(w, lib, st, [C.Login(u, p)], co, o, clientId, serverId, serverRoom, clientRoom,
        net, host, port);
    LoginIsAnswered(lib, st, u, p, o);
    var out := B.AfterScript(net, clientId, host, port, [C.Login(u, p)]).out;
    assert B.Tells(out[2 + 0], DirectResponses(lib, FRESH_SESSION, st, [C.Login(u, p)], o, 0)[0]);
    assert out == [out[0], out[1], out[2]];
  }

  // ---- the full view over the bridge ----

  lemma {:induction false} AllFieldsFree(cs: seq<Course>, sep: byte)
    ensures AllFree(AllFields(cs), sep) <==> forall c :: c in cs ==> FieldsFree(c, sep)
  {
    if cs != [] {
      var front, last := cs[..|cs| - 1], cs[|cs| - 1];
      AllFieldsFree(front, sep);
      AppendedFree(AllFields(front), FieldsOf(last), sep);
      assert AllFields(cs) == AllFields(front) + FieldsOf(last);
      assert AllFree(FieldsOf(last), sep) <==> FieldsFree(last, sep);
      assert cs == front + [last];
      hide AllFields;
      hide FieldsFree;
      hide AllFree;
      assert (forall c :: c in cs ==> FieldsFree(c, sep)) <==>
        (forall c :: c in front ==> FieldsFree(c, sep)) && FieldsFree(last, sep) by {
        assert last in cs && forall c :: c in front ==> c in cs;
      }
    }
  }

  lemma AppendedFree(a: seq<Text>, b: seq<Text>, sep: byte)
    ensures AllFree(a + b, sep) <==> AllFree(a, sep) && AllFree(b, sep)
  {
    hide Free;
    if AllFree(a + b, sep) {
      forall x | x in a ensures Free(x, sep) { assert x in a + b; }
      forall x | x in b ensures Free(x, sep) { assert x in a + b; }
    }
  }

  /** The direct response to a request for the full view. */
  lemma ViewIsAnswered(lib: Library, st: Store, o: Oracle)
    requires st.courses.isOpen && o.env(0).cursor.Complete?
    ensures B.Shown(Outcomes(DirectResponses(lib, FRESH_SESSION, st, [C.ViewAll], o, 0))) ==
      [L.Data(Rows(lib.like, st.courses.tables, All))]
  {
    hide Rows;
    hide Dispatch;
    hide SerializeCourses;
    QueryIsAnswered(lib, FRESH_SESSION, st, CMD_VIEW_ALL_REQ, [], o.env(0));
    assert [C.ViewAll][1..] == [];
    var e := DispatchCall(lib, FRESH_SESSION, st, C.ViewAll, o.env(0));
    var r := DirectResponse(lib, st, C.ViewAll, e, o.env(0));
    assert DirectResponses(lib, FRESH_SESSION, st, [C.ViewAll], o, 0) == [r];
    assert B.Emitted(r) == L.Data(Rows(lib.like, st.courses.tables, All));
  }

  /** The full view over the bridge is read back if and only if no field of any row holds a tab or a line feed. */
  lemma ViewOverTheBridge(w: Wiring, lib: Library, st: Store, co: ClientOracle, o: Oracle, clientId: uint32,
      serverId: uint32, serverRoom: nat, clientRoom: nat, net: B.Net, host: Text, port: int)
    requires CleanStore(st) && Agrees(net, w, co) && st.courses.isOpen && o.env(0).cursor.Complete?
    requires L.Plain(host) && INT_MIN <= port <= INT_MAX
    requires Serves(w, lib, st, [C.ViewAll], co, o, clientId, serverId, serverRoom, clientRoom,
        net.dial(0, host, port))
    ensures var out := B.AfterScript(net, clientId, host, port, [C.ViewAll]).out;
      var rows := Rows(lib.like, st.courses.tables, All);
      && out == [L.Ready, L.Ok(B.CONNECTED), L.Data(rows)]
      && (L.ReadAll(L.Stdout(out)) == L.Answers(out) <==>
            forall c :: c in rows ==> FieldsFree(c, TAB) && FieldsFree(c, LF))
  {
    hide B.AfterScript;
    hide B.DoneAsMeant;
    hide B.Shown;
    hide L.ReadAll;
    hide L.Stdout;
    hide L.Answers;
    hide L.Plain;
    hide DirectResponses;
    hide CleanStore;
    hide Serves;
    hide Agrees;
    hide Rows;
    UserInterfaceSeesDirectResponses(w, lib, st, [C.ViewAll], co, o, clientId, serverId, serverRoom, clientRoom, net,
        host, port);
    ViewIsAnswered(lib, st, o);
    AnswersToView(Rows(lib.like, st.courses.tables, All));
  }

  lemma AnswersToView(rows: seq<Course>)
    ensures (forall a :: a in [L.Ready, L.Ok(B.CONNECTED), L.Data(rows)] ==> L.Presentable(a)) <==>
      forall c :: c in rows ==> FieldsFree(c, TAB) && FieldsFree(c, LF)
  {
    AllFieldsFree(rows, TAB);
    AllFieldsFree(rows, LF);
    hide FieldsFree;
    assert L.Presentable(L.Ready);
    assert L.Presentable(L.Ok(B.CONNECTED)) by { ConnectedIsPlain(); }
    assert L.Presentable(L.Data(rows)) <==> AllFree(AllFields(rows), TAB) && AllFree(AllFields(rows), LF);
    hide L.Presentable;
    hide AllFree;
    hide AllFields;
  }

  lemma ConnectedIsPlain()
    ensures Free(B.CONNECTED, TAB) && Free(B.CONNECTED, LF)
  {
  }

  /**
   * Nothing keeps a line feed out of the tables: a course added with one in its instructor's name, by any client, comes
   * out of the bridge torn, and the view is not read back.
   */
  lemma LineFeedReachesTheBridge(w: Wiring, lib: Library, s: Session, before: Store, c: Course, env: Env,
      co: ClientOracle, o: Oracle, clientId: uint32, serverId: uint32, serverRoom: nat, clientRoom: nat, net: B.Net,
      host: Text, port: int)
    requires s.role == ADMIN && c.code != [] && c.section != [] && !Free(CString(c.instructor), LF)
    requires CleanStore(before) && Ready(before) && CleanFields(FieldsOf(c))
    requires AllDone(env.engine) && NumericAffinity(env.engine.day)
    requires Agrees(net, w, co) && o.env(0).cursor.Complete? && L.Plain(host) && INT_MIN <= port <= INT_MAX
    requires Serves(w, lib, Send(lib, s, before, CMD_ADD_REQ, FieldsOf(c), env).store, [C.ViewAll], co, o, clientId,
        serverId, serverRoom, clientRoom, net.dial(0, host, port))
    ensures Send(lib, s, before, CMD_ADD_REQ, FieldsOf(c), env).resp == Response(CMD_ADMIN_RESP, OK)
    ensures var out := B.AfterScript(net, clientId, host, port, [C.ViewAll]).out;
      L.ReadAll(L.Stdout(out)) != L.Answers(out)
  {
    hide B.AfterScript;
    hide L.ReadAll;
    hide L.Stdout;
    hide L.Answers;
    hide L.Plain;
    hide CleanStore;
    hide CleanFields;
    hide Serves;
    hide Agrees;
    hide Rows;
    hide Dispatch;
    hide NumericAffinity;
    hide AllDone;
    hide Stored;
    var st := Send(lib, s, before, CMD_ADD_REQ, FieldsOf(c), env).store;
    DispatchKeepsClean(lib, s, before, CMD_ADD_REQ, FieldsOf(c), env);
    AddedRowIsSeen(lib, s, before, c, env);
    ViewOverTheBridge(w, lib, st, co, o, clientId, serverId, serverRoom, clientRoom, net, host, port);
    TornRow(c, env.engine.day);
  }

  lemma AddedRowIsSeen(lib: Library, s: Session, before: Store, c: Course, env: Env)
    requires s.role == ADMIN && c.code != [] && c.section != [] && Ready(before) && AllDone(env.engine)
    ensures var e := Send(lib, s, before, CMD_ADD_REQ, FieldsOf(c), env);
      && e.resp == Response(CMD_ADMIN_RESP, OK) && e.store.courses.isOpen
      && Stored(c, env.engine.day) in Rows(lib.like, e.store.courses.tables, All)
  {
    hide Dispatch;
    hide Rows;
    hide Stored;
    hide IsRow;
    hide AllDone;
    var st := Send(lib, s, before, CMD_ADD_REQ, FieldsOf(c), env).store;
    var row := Stored(c, env.engine.day);
    AddIsVisible(lib, s, before, FieldsOf(c), env);
    assert RowsAfterWrite(lib.like, before.courses.tables, st.courses.tables, row, row);
    RowIsReturned(lib.like, st.courses.tables, All, row);
  }

  lemma TornRow(c: Course, day: Text -> Text)
    requires !Free(CString(c.instructor), LF)
    ensures !FieldsFree(Stored(c, day), LF)
  {
    hide CString;
    var f := FieldsOf(Stored(c, day));
    assert f[3] in f;
  }
}
