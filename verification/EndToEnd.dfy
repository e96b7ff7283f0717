/**
 * Client, wire and server put together: what the client is told about each call is what running the handlers directly,
 * call after call, would have said.
 */
module EndToEnd {
  import opened Bytes
  import opened MessagePb
  import opened Commands
  import opened CourseTables
  import opened CourseViews
  import opened CourseStore
  import opened Administrators
  import opened ListCodec
  import opened Sockets
  import opened Protocol
  import opened Handlers
  import opened ServerLoop
  import opened Authority
  import opened RequestEffects
  import opened CleanRuns
  import C = Client

  /** The client's clock and random source, by call. */
  datatype ClientOracle = ClientOracle(now: nat -> uint32, iv: nat -> Iv)

  /** The messages the calls travel in; the k-th call uses the k-th clock reading. */
  function Requests(calls: seq<C.Call>, co: ClientOracle, k: nat, id: uint32): (r: seq<Sent>)
    ensures |r| == |calls|
  {
    if calls == [] then [] else
      [Sent(MsgBody(C.CmdOf(calls[0]), id, co.now(k), Some(C.RequestFields(calls[0]))), co.iv(k))]
      + Requests(calls[1..], co, k + 1, NextId(id))
  }

  function DispatchCall(lib: Library, s: Session, st: Store, call: C.Call, env: Env): Effect {
    Dispatch(lib, SERVER_TABLE, s, st, C.CmdOf(call), C.RequestFields(call), env)
  }

  /** The handlers run directly, each on what the one before left. */
  function DirectRun(lib: Library, s: Session, st: Store, calls: seq<C.Call>, o: Oracle, k: nat): (r: seq<Effect>)
    ensures |r| == |calls|
    decreases |calls|
  {
    hide DispatchCall;
    if calls == [] then [] else
      var e := DispatchCall(lib, s, st, calls[0], o.env(k));
      [e] + DirectRun(lib, e.session, e.store, calls[1..], o, k + 1)
  }

  function LastSession(s: Session, effects: seq<Effect>): Session {
    if effects == [] then s else effects[|effects| - 1].session
  }

  function LastStore(st: Store, effects: seq<Effect>): Store {
    if effects == [] then st else effects[|effects| - 1].store
  }

  predicate IvsWork(o: Oracle, k: nat, n: nat) { forall i :: k <= i < k + n ==> o.iv(i).Some? }

  /** The messages the answers travel in. */
  function Replies(effects: seq<Effect>, o: Oracle, k: nat, id: uint32): (r: seq<Sent>)
    requires IvsWork(o, k, |effects|)
    ensures |r| == |effects|
  {
    if effects == [] then [] else
      [Sent(ReplyBody(effects[0].resp, id, o.now(k)), o.iv(k).value)] + Replies(effects[1..], o, k + 1, NextId(id))
  }

  /** What a client function is for, in an administrator's session. */
  function Meant(lib: Library, s: Session, st: Store, call: C.Call, env: Env): Effect {
    match call
    case Login(u, p) => HandleLogin(lib, s, st, [u, p], env)
    case Logout => HandleLogout(s, st)
    case QueryCode(code) => HandleQuery(lib, s, st, ByCode(code), code, CODE_REQUIRED, env.cursor)
    case QueryInstructor(name) => HandleQuery(lib, s, st, ByInstructor(name), name, INSTRUCTOR_REQUIRED, env.cursor)
    case QuerySemester(sem) => HandleQuery(lib, s, st, BySemester(sem), sem, SEMESTER_REQUIRED, env.cursor)
    case ViewAll => AnswerRows(s, st, Rows(lib.like, st.courses.tables, All), env.cursor)
    case ViewAllPage(offset, limit) =>
      AnswerRows(s, st, Page(lib.like, st.courses.tables, offset, if 1 <= limit <= 1000 then limit else 200),
          env.cursor)
    case Add(c) =>
      if c.code == [] || c.section == [] then Effect(s, st, Response(CMD_ERROR, KEY_EMPTY))
      else Written(s, st, InsertOrReplace(st.courses, c, env.engine), INSERT_FAILED)
    case Update(c) =>
      if c.code == [] || c.section == [] then Effect(s, st, Response(CMD_ERROR, KEY_EMPTY))
      else Written(s, st, CourseTables.Update(st.courses, c, env.engine), UPDATE_FAILED)
    case Delete(code, section) =>
      if code == [] || section == [] then Effect(s, st, Response(CMD_ERROR, KEY_EMPTY))
      else Written(s, st, CourseTables.Delete(st.courses, CourseKey(code, section), env.engine), DELETE_FAILED)
    case AdminList => HandleAdminList(s, st, env)
    case AdminCreate(u, p) => HandleAdminCreate(lib, s, st, [u, p], env)
    case AdminUpdate(a, b, p) => HandleAdminUpdate(lib, s, st, [a, b, p], env)
    case AdminDelete(u) => HandleAdminDelete(s, st, [u], env)
  }

  /** The handler a client function is meant for. */
  function FnOf(call: C.Call): HandlerFn {
    match call
    case Login(_, _) => FnLogin
    case Logout => FnLogout
    case QueryCode(_) => FnQueryCode
    case QueryInstructor(_) => FnQueryInstructor
    case QuerySemester(_) => FnQuerySemester
    case ViewAll => FnViewAll
    case ViewAllPage(_, _) => FnViewAllPage
    case Add(_) => FnAdd
    case Update(_) => FnUpdate
    case Delete(_, _) => FnDelete
    case AdminList => FnAdminList
    case AdminCreate(_, _) => FnAdminCreate
    case AdminUpdate(_, _, _) => FnAdminUpdate
    case AdminDelete(_) => FnAdminDelete
  }

  lemma CallsAreRegistered(call: C.Call)
    ensures C.CmdOf(call) in SERVER_TABLE && SERVER_TABLE[C.CmdOf(call)].fn == FnOf(call)
  {
    TableRows();
    TableEntries(CMD_LOGIN_REQ);
    TableHasLogout();
    hide RegisterAll;
  }

  /** The calls that only read courses. */
  predicate Reads(call: C.Call) {
    call.QueryCode? || call.QueryInstructor? || call.QuerySemester? || call.ViewAll? || call.ViewAllPage?
  }

  lemma QueryFieldsArrive(lib: Library, s: Session, st: Store, call: C.Call, env: Env)
    requires Reads(call) && (call.ViewAllPage? ==>
        INT_MIN <= call.offset <= INT_MAX && INT_MIN <= call.limit <= INT_MAX)
    ensures Handle(lib, FnOf(call), s, st, C.RequestFields(call), env) == Meant(lib, s, st, call, env)
  {
    hide Rows;
    hide AnswerRows;
    hide Slice;
    hide PageBounds;
    hide HandleLogin;
    hide HandleAdd;
    hide HandleUpdate;
    hide HandleDelete;
    hide HandleAdminList;
    hide HandleAdminCreate;
    hide HandleAdminUpdate;
    hide HandleAdminDelete;
    if call.ViewAllPage? { PageBoundsOfNumbers(call.offset, call.limit); }
  }

  lemma CourseFields(c: Course)
    ensures var f := C.RequestFields(C.Add(c)); |f| == 8 && CourseOf(f) == c && C.RequestFields(C.Update(c)) == f
  {
  }

  lemma CourseArrives(lib: Library, s: Session, st: Store, c: Course, env: Env)
    ensures var f := C.RequestFields(C.Add(c));
      && HandleAdd(s, st, f, env) == Meant(lib, s, st, C.Add(c), env)
      && HandleUpdate(s, st, f, env) == Meant(lib, s, st, C.Update(c), env)
  {
    CourseFields(c);
    hide CourseOf;
    hide C.RequestFields;
    hide InsertOrReplace;
    hide CourseTables.Update;
    hide Written;
  }

  lemma KeyArrives(lib: Library, s: Session, st: Store, code: Text, section: Text, env: Env)
    ensures var call := C.Delete(code, section);
      HandleDelete(s, st, C.RequestFields(call), env) == Meant(lib, s, st, call, env)
  {
    hide CourseTables.Delete;
    hide Written;
  }

  lemma CourseHandlers(lib: Library, s: Session, st: Store, f: seq<Text>, env: Env)
    ensures Handle(lib, FnAdd, s, st, f, env) == HandleAdd(s, st, f, env)
    ensures Handle(lib, FnUpdate, s, st, f, env) == HandleUpdate(s, st, f, env)
    ensures Handle(lib, FnDelete, s, st, f, env) == HandleDelete(s, st, f, env)
  {
    hide HandleAdd;
    hide HandleUpdate;
    hide HandleDelete;
  }

  lemma WriteFieldsArrive(lib: Library, s: Session, st: Store, call: C.Call, env: Env)
    requires call.Add? || call.Update? || call.Delete?
    ensures Handle(lib, FnOf(call), s, st, C.RequestFields(call), env) == Meant(lib, s, st, call, env)
  {
    hide Handle;
    hide Meant;
    hide C.RequestFields;
    CourseHandlers(lib, s, st, C.RequestFields(call), env);
    if call.Delete? {
      KeyArrives(lib, s, st, call.code, call.section, env);
    } else {
      CourseFields(call.c);
      CourseArrives(lib, s, st, call.c, env);
    }
  }

  /** Each handler finds its arguments where the client function puts them. */
  lemma FieldsArrive(lib: Library, s: Session, st: Store, call: C.Call, env: Env)
    requires call.ViewAllPage? ==> INT_MIN <= call.offset <= INT_MAX && INT_MIN <= call.limit <= INT_MAX
    ensures Handle(lib, FnOf(call), s, st, C.RequestFields(call), env) == Meant(lib, s, st, call, env)
  {
    hide HandleLogin;
    hide HandleQuery;
    hide HandleViewAll;
    hide HandleViewPage;
    hide HandleAdd;
    hide HandleUpdate;
    hide HandleDelete;
    hide HandleAdminList;
    hide HandleAdminCreate;
    hide HandleAdminUpdate;
    hide HandleAdminDelete;
    hide RegisterAll;
    if Reads(call) {
      QueryFieldsArrive(lib, s, st, call, env);
      hide Handle;
      hide Meant;
    } else if call.Add? || call.Update? || call.Delete? {
      WriteFieldsArrive(lib, s, st, call, env);
      hide Handle;
      hide Meant;
    }
  }

  /**
   * Every client function reaches the handler of its own purpose, with its arguments where the handler looks for them;
   * shown for an administrator's session, to which every command is open.
   */
  lemma CallsReachTheirHandlers(lib: Library, s: Session, st: Store, call: C.Call, env: Env)
    requires s.role == ADMIN
    requires call.ViewAllPage? ==> INT_MIN <= call.offset <= INT_MAX && INT_MIN <= call.limit <= INT_MAX
    ensures DispatchCall(lib, s, st, call, env) == Meant(lib, s, st, call, env)
  {
    hide RegisterAll;
    hide Handle;
    hide Meant;
    hide FnOf;
    hide C.CmdOf;
    hide C.RequestFields;
    CallsAreRegistered(call);
    FieldsArrive(lib, s, st, call, env);
  }

  lemma TableHasLogout()
    ensures SERVER_TABLE[CMD_LOGOUT_REQ] == Entry(STUDENT, FnLogout) && CMD_LOGOUT_REQ in SERVER_TABLE
  {
  }

  // ---- the server's side ----

  /** One turn of the loop on a stream that starts with a whole request. */
  lemma ServeOneAnswers(w: Wiring, lib: Library, o: Oracle, p: Progress, x: Sent, rest: Text)
    requires Lawful(w.c) && Sendable(w.c, w.key, x) && p.conn.incoming == FrameOf(w.c, w.key, x) + rest
    requires o.iv(p.dispatched).Some?
    requires var e := Dispatch(lib, SERVER_TABLE, p.session, p.store, x.m.cmdType, x.m.Fields(), o.env(p.dispatched));
      var y := Sent(ReplyBody(e.resp, p.nextId, o.now(p.dispatched)), o.iv(p.dispatched).value);
      Sendable(w.c, w.key, y) && |FrameOf(w.c, w.key, y)| <= p.conn.room
    ensures var e := Dispatch(lib, SERVER_TABLE, p.session, p.store, x.m.cmdType, x.m.Fields(), o.env(p.dispatched));
      var frame := FrameOf(w.c, w.key, Sent(ReplyBody(e.resp, p.nextId, o.now(p.dispatched)),
          o.iv(p.dispatched).value));
      ServeOne(w, lib, SERVER_TABLE, o, p) ==
        (Progress(Conn(rest, p.conn.room - |frame|, p.conn.outgoing + frame), e.session, e.store, NextId(p.nextId),
                  p.dispatched + 1, p.answered + 1), true)
  {
    hide Dispatch;
    hide Receive;
    hide SendOver;
    hide FrameOf;
    hide Sendable;
    FrameIsReceived(w.c, w.key, x, rest);
    var e := Dispatch(lib, SERVER_TABLE, p.session, p.store, x.m.cmdType, x.m.Fields(), o.env(p.dispatched));
    var y := Sent(ReplyBody(e.resp, p.nextId, o.now(p.dispatched)), o.iv(p.dispatched).value);
    SendAppendsFrame(w.c, w.key, p.conn.(incoming := rest), y);
  }

  /** A request whose answer cannot be sent has been carried out all the same, and it is the last. */
  lemma UnansweredRequestIsDone(w: Wiring, lib: Library, o: Oracle, p: Progress, x: Sent, rest: Text)
    requires Lawful(w.c) && Sendable(w.c, w.key, x) && p.conn.incoming == FrameOf(w.c, w.key, x) + rest
    requires var e := Dispatch(lib, SERVER_TABLE, p.session, p.store, x.m.cmdType, x.m.Fields(), o.env(p.dispatched));
      var reply := MsgBody(e.resp.cmdType, p.nextId, o.now(p.dispatched), Some([e.resp.payload]));
      SendOver(w.c, w.key, p.conn.(incoming := rest), reply, o.iv(p.dispatched)).1 != SUCCESS
    ensures var e := Dispatch(lib, SERVER_TABLE, p.session, p.store, x.m.cmdType, x.m.Fields(), o.env(p.dispatched));
      var after := Serve(w, lib, SERVER_TABLE, o, p);
      && after.session == e.session && after.store == e.store
      && after.dispatched == p.dispatched + 1 && after.answered == p.answered && after.conn.incoming == rest
  {
    hide Dispatch;
    hide Receive;
    hide SendOver;
    hide FrameOf;
    hide Sendable;
    FrameIsReceived(w.c, w.key, x, rest);
  }

  /** Where the loop is after answering the given effects, with tail still to be read. */
  function Advanced(w: Wiring, o: Oracle, p: Progress, effects: seq<Effect>, tail: Text): Progress
    requires IvsWork(o, p.dispatched, |effects|)
    requires |Wire(w.c, w.key, Replies(effects, o, p.dispatched, p.nextId))| <= p.conn.room
  {
    var out := Wire(w.c, w.key, Replies(effects, o, p.dispatched, p.nextId));
    Progress(Conn(tail, p.conn.room - |out|, p.conn.outgoing + out), LastSession(p.session, effects),
        LastStore(p.store, effects),
             (p.nextId + |effects|) % 0x1_0000_0000, p.dispatched + |effects|, p.answered + |effects|)
  }

  ghost predicate ServerCanAnswer(w: Wiring, o: Oracle, p: Progress, effects: seq<Effect>) {
    && IvsWork(o, p.dispatched, |effects|)
    && AllSendable(w.c, w.key, Replies(effects, o, p.dispatched, p.nextId))
    && |Wire(w.c, w.key, Replies(effects, o, p.dispatched, p.nextId))| <= p.conn.room
  }

  /** The progress after one answer. */
  function OneFurther(w: Wiring, o: Oracle, p: Progress, e: Effect, rest: Text): Progress
    requires o.iv(p.dispatched).Some?
    requires |FrameOf(w.c, w.key, Sent(ReplyBody(e.resp, p.nextId, o.now(p.dispatched)),
        o.iv(p.dispatched).value))| <= p.conn.room
  {
    var frame := FrameOf(w.c, w.key, Sent(ReplyBody(e.resp, p.nextId, o.now(p.dispatched)), o.iv(p.dispatched).value));
    Progress(Conn(rest, p.conn.room - |frame|, p.conn.outgoing + frame), e.session, e.store, NextId(p.nextId),
             p.dispatched + 1, p.answered + 1)
  }

  /** The first reply of a run can be sent. */
  lemma FirstReply(w: Wiring, o: Oracle, p: Progress, effects: seq<Effect>)
    requires effects != [] && ServerCanAnswer(w, o, p, effects)
    ensures o.iv(p.dispatched).Some? && IvsWork(o, p.dispatched + 1, |effects[1..]|)
    ensures var y := Sent(ReplyBody(effects[0].resp, p.nextId, o.now(p.dispatched)), o.iv(p.dispatched).value);
      var more := Replies(effects[1..], o, p.dispatched + 1, NextId(p.nextId));
      && Replies(effects, o, p.dispatched, p.nextId) == [y] + more
      && Sendable(w.c, w.key, y) && AllSendable(w.c, w.key, more)
      && Wire(w.c, w.key, [y] + more) == FrameOf(w.c, w.key, y) + Wire(w.c, w.key, more)
      && p.conn.outgoing + Wire(w.c, w.key, [y] + more) ==
            p.conn.outgoing + FrameOf(w.c, w.key, y) + Wire(w.c, w.key, more)
  {
    hide FrameOf;
    hide Sendable;
    hide ReplyBody;
    var y := Sent(ReplyBody(effects[0].resp, p.nextId, o.now(p.dispatched)), o.iv(p.dispatched).value);
    WireSplits(w, y, Replies(effects[1..], o, p.dispatched + 1, NextId(p.nextId)), p.conn.outgoing);
    hide Wire;
    hide AllSendable;
  }

  /** The first reply of a run goes out, and what is left of the run is the run from there. */
  lemma FirstThenRest(w: Wiring, o: Oracle, p: Progress, effects: seq<Effect>, rest: Text, tail: Text)
    requires effects != [] && ServerCanAnswer(w, o, p, effects)
    ensures o.iv(p.dispatched).Some?
    ensures Sendable(w.c, w.key, Sent(ReplyBody(effects[0].resp, p.nextId, o.now(p.dispatched)),
        o.iv(p.dispatched).value))
    ensures |FrameOf(w.c, w.key, Sent(ReplyBody(effects[0].resp, p.nextId, o.now(p.dispatched)),
        o.iv(p.dispatched).value))| <= p.conn.room
    ensures var q := OneFurther(w, o, p, effects[0], rest);
      ServerCanAnswer(w, o, q, effects[1..])
          && Advanced(w, o, q, effects[1..], tail) == Advanced(w, o, p, effects, tail)
  {
    hide FrameOf;
    hide Sendable;
    hide ReplyBody;
    hide AllSendable;
    hide IvsWork;
    hide Replies;
    hide Wire;
    FirstReply(w, o, p, effects);
    CountIsModular(p.nextId, |effects|);
    hide NextId;
  }

  lemma WireSplits(w: Wiring, y: Sent, ys: seq<Sent>, out: Text)
    ensures Wire(w.c, w.key, [y] + ys) == FrameOf(w.c, w.key, y) + Wire(w.c, w.key, ys)
    ensures out + Wire(w.c, w.key, [y] + ys) == out + FrameOf(w.c, w.key, y) + Wire(w.c, w.key, ys)
    ensures AllSendable(w.c, w.key, [y] + ys) ==> Sendable(w.c, w.key, y) && AllSendable(w.c, w.key, ys)
  {
    hide FrameOf;
    hide Sendable;
    assert ([y] + ys)[1..] == ys;
    assert forall x :: x == y || x in ys ==> x in [y] + ys;
  }

  lemma CountIsModular(id: uint32, n: nat)
    requires n > 0
    ensures (NextId(id) + (n - 1)) % 0x1_0000_0000 == (id + n) % 0x1_0000_0000
  {
  }

  lemma NothingToAdvance(w: Wiring, o: Oracle, p: Progress)
    requires p.nextId < 0x1_0000_0000
    ensures Advanced(w, o, p, [], p.conn.incoming) == p
  {
    assert p.conn.outgoing + [] == p.conn.outgoing;
  }

  lemma {:induction false} ServeFollowsDirectRun(w: Wiring, lib: Library, o: Oracle, p: Progress, calls: seq<C.Call>,
                                                 co: ClientOracle, k: nat, id: uint32, tail: Text)
    requires Lawful(w.c) && AllSendable(w.c, w.key, Requests(calls, co, k, id))
    requires p.conn.incoming == Wire(w.c, w.key, Requests(calls, co, k, id)) + tail
    requires ServerCanAnswer(w, o, p, DirectRun(lib, p.session, p.store, calls, o, p.dispatched))
    ensures Serve(w, lib, SERVER_TABLE, o, p) ==
      Serve(w, lib, SERVER_TABLE, o, Advanced(w, o, p, DirectRun(lib, p.session, p.store, calls, o, p.dispatched),
          tail))
    decreases |calls|
  {
    hide Dispatch;
    hide FrameOf;
    hide Sendable;
    hide ServeOne;
    hide Advanced;
    hide ServerCanAnswer;
    hide OneFurther;
    var effects := DirectRun(lib, p.session, p.store, calls, o, p.dispatched);
    var xs := Requests(calls, co, k, id);
    if calls == [] {
      assert p.conn.incoming == tail;
      NothingToAdvance(w, o, p);
    } else {
      var rest := Wire(w.c, w.key, xs[1..]) + tail;
      assert xs[0] in xs;
      assert p.conn.incoming == FrameOf(w.c, w.key, xs[0]) + rest;
      FirstThenRest(w, o, p, effects, rest, tail);
      var q := OneFurther(w, o, p, effects[0], rest);
      FirstIsAnswered(w, lib, o, p, calls, xs[0], rest, co, k, id);
      assert xs[1..] == Requests(calls[1..], co, k + 1, NextId(id));
      assert effects[1..] == DirectRun(lib, q.session, q.store, calls[1..], o, q.dispatched);
      ServeFollowsDirectRun(w, lib, o, q, calls[1..], co, k + 1, NextId(id), tail);
    }
  }

  lemma FirstIsAnswered(w: Wiring, lib: Library, o: Oracle, p: Progress, calls: seq<C.Call>, x: Sent, rest: Text,
                        co: ClientOracle, k: nat, id: uint32)
    requires Lawful(w.c) && calls != [] && x == Requests(calls, co, k, id)[0] && Sendable(w.c, w.key, x)
    requires p.conn.incoming == FrameOf(w.c, w.key, x) + rest
    requires ServerCanAnswer(w, o, p, DirectRun(lib, p.session, p.store, calls, o, p.dispatched))
    ensures var effects := DirectRun(lib, p.session, p.store, calls, o, p.dispatched);
      && o.iv(p.dispatched).Some?
      && |FrameOf(w.c, w.key, Sent(ReplyBody(effects[0].resp, p.nextId, o.now(p.dispatched)),
            o.iv(p.dispatched).value))| <= p.conn.room
      && ServeOne(w, lib, SERVER_TABLE, o, p) == (OneFurther(w, o, p, effects[0], rest), true)
      && var q := OneFurther(w, o, p, effects[0], rest);
         q.conn.incoming == rest && q.session == effects[0].session && q.store == effects[0].store
             && q.dispatched == p.dispatched + 1
  {
    hide Dispatch;
    hide FrameOf;
    hide Sendable;
    hide ServeOne;
    FirstThenRest(w, o, p, DirectRun(lib, p.session, p.store, calls, o, p.dispatched), rest, []);
    assert o.iv(p.dispatched).Some?;
    ServeOneAnswers(w, lib, o, p, x, rest);
    hide ServerCanAnswer;
    hide Advanced;
  }

  /**
   * The loop answers the requests that arrived whole, in order, each once, with what the handlers say when run
   * directly; a request cut short by the end of the stream is not dispatched and leaves no trace.
   */
  lemma OnlyWholeRequestsAreServed(w: Wiring, lib: Library, o: Oracle, p: Progress, calls: seq<C.Call>,
                                   co: ClientOracle, id: uint32, last: Sent, cut: nat)
    requires Lawful(w.c) && AllSendable(w.c, w.key, Requests(calls, co, 0, id))
    requires Sendable(w.c, w.key, last) && cut < |FrameOf(w.c, w.key, last)|
    requires p.conn.incoming == Wire(w.c, w.key, Requests(calls, co, 0, id)) + FrameOf(w.c, w.key, last)[..cut]
    requires ServerCanAnswer(w, o, p, DirectRun(lib, p.session, p.store, calls, o, p.dispatched))
    ensures var effects := DirectRun(lib, p.session, p.store, calls, o, p.dispatched);
      var r := Serve(w, lib, SERVER_TABLE, o, p);
      && r.dispatched - p.dispatched == r.answered - p.answered == |calls|
      && r.session == LastSession(p.session, effects) && r.store == LastStore(p.store, effects)
      && r.conn.outgoing == p.conn.outgoing + Wire(w.c, w.key, Replies(effects, o, p.dispatched, p.nextId))
  {
    var tail := FrameOf(w.c, w.key, last)[..cut];
    var effects := DirectRun(lib, p.session, p.store, calls, o, p.dispatched);
    ServeFollowsDirectRun(w, lib, o, p, calls, co, 0, id, tail);
    CutFrameIsRefused(w.c, w.key, last, cut);
    StopsAtBadStream(w, lib, o, Advanced(w, o, p, effects, tail));
    hide DirectRun;
    hide Receive;
    hide FrameOf;
    hide Sendable;
    hide ServeOne;
    hide Wire;
    hide Replies;
  }

  lemma StopsAtBadStream(w: Wiring, lib: Library, o: Oracle, p: Progress)
    requires Receive(w.c, w.key, p.conn.incoming).err != SUCCESS
    ensures Serve(w, lib, SERVER_TABLE, o, p) ==
        p.(conn := p.conn.(incoming := Receive(w.c, w.key, p.conn.incoming).rest))
  {
    hide Receive;
    hide Dispatch;
    hide SendOver;
  }

  // ---- the client's side ----

  /** The calls made one after the other over a connection; results in order. */
  function ClientRun(w: Wiring, conn: Conn, calls: seq<C.Call>, co: ClientOracle, k: nat,
      id: uint32): (r: (Conn, seq<(ErrorCode, C.ClientResponse)>))
    ensures |r.1| == |calls|
    decreases |calls|
  {
    if calls == [] then (conn, []) else
      var request := MsgBody(C.CmdOf(calls[0]), id, co.now(k), Some(C.RequestFields(calls[0])));
      var x := C.Exchange(w.c, w.key, conn, request, Some(co.iv(k)), C.EMPTY_RESPONSE);
      var more := ClientRun(w, x.0, calls[1..], co, k + 1, NextId(id));
      (more.0, [(x.1, x.2)] + more.1)
  }

  lemma ExchangeWorks(w: Wiring, conn: Conn, x: Sent, y: Sent, rest: Text, out: C.ClientResponse)
    requires Lawful(w.c) && Sendable(w.c, w.key, x) && Sendable(w.c, w.key, y)
    requires conn.incoming == FrameOf(w.c, w.key, y) + rest && conn.room >= |FrameOf(w.c, w.key, x)|
    ensures C.Exchange(w.c, w.key, conn, x.m, Some(x.iv), out) ==
      (Conn(rest, conn.room - |FrameOf(w.c, w.key, x)|, conn.outgoing + FrameOf(w.c, w.key, x)), SUCCESS,
          C.ReadInto(out, y.m))
  {
    hide SendOver;
    hide Receive;
    hide FrameOf;
    hide Sendable;
    hide C.ReadInto;
    SendAppendsFrame(w.c, w.key, conn, x);
    FrameIsReceived(w.c, w.key, y, rest);
  }

  lemma {:induction false} ClientReadsReplies(w: Wiring, conn: Conn, calls: seq<C.Call>, co: ClientOracle, k: nat,
      id: uint32, ys: seq<Sent>)
    requires Lawful(w.c) && AllSendable(w.c, w.key, Requests(calls, co, k, id)) && AllSendable(w.c, w.key, ys)
        && |ys| == |calls|
    requires conn.incoming == Wire(w.c, w.key, ys) && conn.room >= |Wire(w.c, w.key, Requests(calls, co, k, id))|
    ensures var r := ClientRun(w, conn, calls, co, k, id);
      && r.0.outgoing == conn.outgoing + Wire(w.c, w.key, Requests(calls, co, k, id))
      && ReadFrom(r.1, ys)
    decreases |calls|
  {
    hide C.Exchange;
    hide C.ReadInto;
    hide C.CmdOf;
    hide C.RequestFields;
    hide FrameOf;
    hide Sendable;
    hide ReadFrom;
    if calls == [] {
      NothingRead();
      assert conn.outgoing + [] == conn.outgoing;
    } else {
      var xs := Requests(calls, co, k, id);
      FirstOnWire(w, xs);
      FirstOnWire(w, ys);
      FirstIsSendable(w, xs);
      FirstIsSendable(w, ys);
      hide Wire;
      hide AllSendable;
      ExchangeWorks(w, conn, xs[0], ys[0], Wire(w.c, w.key, ys[1..]), C.EMPTY_RESPONSE);
      var x := C.Exchange(w.c, w.key, conn, xs[0].m, Some(xs[0].iv), C.EMPTY_RESPONSE);
      assert xs[1..] == Requests(calls[1..], co, k + 1, NextId(id));
      ClientReadsReplies(w, x.0, calls[1..], co, k + 1, NextId(id), ys[1..]);
      assert x.0.outgoing + Wire(w.c, w.key, xs[1..]) == conn.outgoing + Wire(w.c, w.key, xs);
      var more := ClientRun(w, x.0, calls[1..], co, k + 1, NextId(id));
      assert ClientRun(w, conn, calls, co, k, id) == (more.0, [(x.1, x.2)] + more.1);
      ReadFromCons(x.2, more.1, ys);
    }
  }

  lemma FirstIsSendable(w: Wiring, xs: seq<Sent>)
    requires xs != [] && AllSendable(w.c, w.key, xs)
    ensures Sendable(w.c, w.key, xs[0]) && AllSendable(w.c, w.key, xs[1..])
  {
    hide Sendable;
    assert xs[0] in xs;
    forall x | x in xs[1..] ensures Sendable(w.c, w.key, x) { assert x in xs; }
  }

  lemma FirstOnWire(w: Wiring, xs: seq<Sent>)
    requires xs != []
    ensures Wire(w.c, w.key, xs) == FrameOf(w.c, w.key, xs[0]) + Wire(w.c, w.key, xs[1..])
  {
    hide FrameOf;
  }

  /** The k-th result is success with what the k-th reply says. */
  ghost predicate ReadFrom(results: seq<(ErrorCode, C.ClientResponse)>, ys: seq<Sent>) {
    |results| == |ys| && forall i :: 0 <= i < |ys| ==> results[i] == (SUCCESS, C.ReadInto(C.EMPTY_RESPONSE, ys[i].m))
  }

  lemma NothingRead()
    ensures ReadFrom([], [])
  {
  }

  lemma ReadFromCons(r: C.ClientResponse, more: seq<(ErrorCode, C.ClientResponse)>, ys: seq<Sent>)
    requires ys != [] && r == C.ReadInto(C.EMPTY_RESPONSE, ys[0].m) && ReadFrom(more, ys[1..])
    ensures ReadFrom([(SUCCESS, r)] + more, ys)
  {
    hide C.ReadInto;
    var all := [(SUCCESS, r)] + more;
    forall i | 0 <= i < |ys| ensures all[i] == (SUCCESS, C.ReadInto(C.EMPTY_RESPONSE, ys[i].m)) {
      if i > 0 { assert all[i] == more[i - 1] && ys[i] == ys[1..][i - 1]; }
    }
  }

  // ---- what an answer contains ----

  /** The rows the repository hands to the handler of a query command. */
  function RowsAsked(lib: Library, st: Store, cmd: uint32, f: seq<Text>): seq<Course> {
    if cmd == CMD_VIEW_ALL_PAGE_REQ then Page(lib.like, st.courses.tables, PageBounds(f).0, PageBounds(f).1)
    else if QueryOf(cmd, f).Some? then Rows(lib.like, st.courses.tables, QueryOf(cmd, f).value)
    else []
  }

  /**
   * The answer to a call as the handlers mean it: command and text, and the very rows and (but for an empty one) names
   * the store gave.
   */
  function DirectResponse(lib: Library, st: Store, call: C.Call, e: Effect, env: Env): C.ClientResponse {
    C.ClientResponse(e.resp.cmdType, e.resp.payload,
      if e.resp.cmdType == CMD_QUERY_RESP
          then Ask(st.courses, RowsAsked(lib, st, C.CmdOf(call), C.RequestFields(call)), env.cursor).1 else [],
      if e.resp.cmdType == CMD_ADMIN_LIST_RESP then NamesIn(ListUsernames(st.admins, env.cursor).1) else [])
  }

  /**
   * Only queries answer QUERY_RESP, and only the account list answers ADMIN_LIST_RESP, each with its list as payload.
   */
  lemma PayloadIsTheList(lib: Library, s: Session, st: Store, cmd: uint32, f: seq<Text>, env: Env)
    ensures var resp := Send(lib, s, st, cmd, f, env).resp;
      && (resp.cmdType == CMD_QUERY_RESP ==>
            resp.payload == SerializeCourses(Ask(st.courses, RowsAsked(lib, st, cmd, f), env.cursor).1))
      && (resp.cmdType == CMD_ADMIN_LIST_RESP ==>
            resp.payload == SerializeNames(ListUsernames(st.admins, env.cursor).1))
  {
    hide RegisterAll;
    hide Ask;
    hide RowsAsked;
    hide ListUsernames;
    hide SerializeCourses;
    hide SerializeNames;
    hide CanBeSent;
    if cmd in SERVER_TABLE && Permits(s.role, SERVER_TABLE[cmd].required) {
      var fn := SERVER_TABLE[cmd].fn;
      CommandOfHandler(cmd);
      if fn in {FnQueryCode, FnQueryInstructor, FnQuerySemester, FnViewAll, FnViewAllPage} {
        QueryPayload(lib, fn, s, st, cmd, f, env);
        hide Handle;
      } else if fn == FnAdminList {
        assert Handle(lib, fn, s, st, f, env) == HandleAdminList(s, st, env);
        hide Handle;
      } else {
        OthersAnswerPlainly(lib, fn, s, st, f, env);
        hide Handle;
      }
    }
  }

  lemma CommandOfHandler(cmd: uint32)
    ensures cmd in SERVER_TABLE ==>
      var fn := SERVER_TABLE[cmd].fn;
      && (fn == FnQueryCode ==> cmd == CMD_QUERY_BY_CODE_REQ)
      && (fn == FnQueryInstructor ==> cmd == CMD_QUERY_BY_INSTRUCTOR_REQ)
      && (fn == FnQuerySemester ==> cmd == CMD_QUERY_BY_SEMESTER_REQ)
      && (fn == FnViewAll ==> cmd == CMD_VIEW_ALL_REQ)
      && (fn == FnViewAllPage ==> cmd == CMD_VIEW_ALL_PAGE_REQ)
  {
  }

  lemma QueryPayload(lib: Library, fn: HandlerFn, s: Session, st: Store, cmd: uint32, f: seq<Text>, env: Env)
    requires (fn == FnQueryCode && cmd == CMD_QUERY_BY_CODE_REQ)
        || (fn == FnQueryInstructor && cmd == CMD_QUERY_BY_INSTRUCTOR_REQ)
      || (fn == FnQuerySemester && cmd == CMD_QUERY_BY_SEMESTER_REQ) || (fn == FnViewAll && cmd == CMD_VIEW_ALL_REQ)
      || (fn == FnViewAllPage && cmd == CMD_VIEW_ALL_PAGE_REQ)
    ensures var resp := Handle(lib, fn, s, st, f, env).resp;
      && resp.cmdType in {CMD_QUERY_RESP, CMD_ERROR}
      && (resp.cmdType == CMD_QUERY_RESP ==>
            resp.payload == SerializeCourses(Ask(st.courses, RowsAsked(lib, st, cmd, f), env.cursor).1))
  {
    hide Ask;
    hide Rows;
    hide Page;
    hide PageBounds;
    hide SerializeCourses;
  }

  predicate Plain(r: Response) { r.cmdType !in {CMD_QUERY_RESP, CMD_ADMIN_LIST_RESP} }

  lemma CourseWritersAnswerPlainly(lib: Library, fn: HandlerFn, s: Session, st: Store, f: seq<Text>, env: Env)
    requires fn in {FnAdd, FnUpdate, FnDelete}
    ensures Plain(Handle(lib, fn, s, st, f, env).resp)
  {
    hide InsertOrReplace;
    hide Update;
    hide Delete;
    hide CanBeSent;
    hide CourseOf;
    hide Ascii;
    hide HandleLogin;
    hide HandleQuery;
    hide HandleViewPage;
    hide HandleAdminList;
    hide HandleAdminCreate;
    hide HandleAdminUpdate;
    hide HandleAdminDelete;
  }

  lemma AccountUpdateAnswersPlainly(lib: Library, s: Session, st: Store, f: seq<Text>, env: Env)
    ensures Plain(HandleAdminUpdate(lib, s, st, f, env).resp)
  {
    hide InsertAdmin;
    hide Rename;
    hide Exists;
    hide CanBeSent;
  }

  lemma LoginsAnswerPlainly(lib: Library, s: Session, st: Store, f: seq<Text>, env: Env)
    ensures Plain(HandleLogin(lib, s, st, f, env).resp) && Plain(HandleLogout(s, st).resp)
  {
    hide VerifyLogin;
    hide Ascii;
    hide CanBeSent;
  }

  lemma AccountWritersAnswerPlainly(lib: Library, s: Session, st: Store, f: seq<Text>, env: Env)
    ensures Plain(HandleAdminCreate(lib, s, st, f, env).resp) && Plain(HandleAdminDelete(s, st, f, env).resp)
  {
    hide InsertAdmin;
    hide RemoveAdmin;
    hide Exists;
    hide Ascii;
    hide CanBeSent;
  }

  lemma OthersAnswerPlainly(lib: Library, fn: HandlerFn, s: Session, st: Store, f: seq<Text>, env: Env)
    requires fn !in {FnQueryCode, FnQueryInstructor, FnQuerySemester, FnViewAll, FnViewAllPage, FnAdminList}
    ensures Plain(Handle(lib, fn, s, st, f, env).resp)
  {
    hide Plain;
    hide HandleLogin;
    hide HandleLogout;
    hide HandleAdd;
    hide HandleUpdate;
    hide HandleDelete;
    hide HandleQuery;
    hide HandleViewAll;
    hide HandleViewPage;
    hide HandleAdminList;
    hide HandleAdminCreate;
    hide HandleAdminUpdate;
    hide HandleAdminDelete;
    if fn in {FnAdd, FnUpdate, FnDelete} {
      CourseWritersAnswerPlainly(lib, fn, s, st, f, env);
    } else {
      LoginsAnswerPlainly(lib, s, st, f, env);
      AccountWritersAnswerPlainly(lib, s, st, f, env);
      AccountUpdateAnswersPlainly(lib, s, st, f, env);
    }
  }

  lemma CollectedRows<T>(rows: seq<T>, cur: Cursor)
    ensures Collected(rows, cur) <= rows
  {
  }

  /** Reading the reply to a call gives its direct response, whatever rows and names are involved, if they are clean. */
  lemma ReplyReadsAsDirectResponse(lib: Library, s: Session, st: Store, call: C.Call, env: Env, id: uint32, now: uint32)
    requires CleanStore(st)
    ensures var e := DispatchCall(lib, s, st, call, env);
      C.ReadInto(C.EMPTY_RESPONSE, ReplyBody(e.resp, id, now)) == DirectResponse(lib, st, call, e, env)
  {
    var cmd, f := C.CmdOf(call), C.RequestFields(call);
    PayloadIsTheList(lib, s, st, cmd, f, env);
    var e := DispatchCall(lib, s, st, call, env);
    assert e == Send(lib, s, st, cmd, f, env);
    hide Dispatch;
    if e.resp.cmdType == CMD_QUERY_RESP {
      AskedRowsAreClean(lib, st, cmd, f, env.cursor);
      ParseOfSerializeCourses(Ask(st.courses, RowsAsked(lib, st, cmd, f), env.cursor).1);
    } else if e.resp.cmdType == CMD_ADMIN_LIST_RESP {
      ListedNamesAreClean(st, env.cursor);
      ParseOfSerializeNames(ListUsernames(st.admins, env.cursor).1);
    }
    hide CleanStore;
    hide Ask;
    hide RowsAsked;
    hide ListUsernames;
    hide SerializeCourses;
    hide SerializeNames;
    hide ParseCourses;
    hide ParseNames;
    hide Clean;
  }

  lemma RowsAskedAreClean(lib: Library, st: Store, cmd: uint32, f: seq<Text>)
    requires CleanTables(st.courses.tables)
    ensures forall c :: c in RowsAsked(lib, st, cmd, f) ==> Clean(c)
  {
    hide CleanTables;
    hide Rows;
    hide Clean;
    hide PageBounds;
    hide QueryOf;
    var t := st.courses.tables;
    if cmd == CMD_VIEW_ALL_PAGE_REQ {
      CleanRows(lib.like, t, All);
      SliceIsInside(Rows(lib.like, t, All), PageBounds(f).0, PageBounds(f).1);
      hide Slice;
    } else if QueryOf(cmd, f).Some? {
      CleanRows(lib.like, t, QueryOf(cmd, f).value);
    }
  }

  lemma SliceIsInside<T>(rows: seq<T>, offset: nat, limit: nat)
    ensures forall x :: x in Slice(rows, offset, limit) ==> x in rows
  {
  }

  lemma AskedRowsAreClean(lib: Library, st: Store, cmd: uint32, f: seq<Text>, cur: Cursor)
    requires CleanStore(st)
    ensures forall c :: c in Ask(st.courses, RowsAsked(lib, st, cmd, f), cur).1 ==> Clean(c)
  {
    hide RowsAsked;
    hide Collected;
    hide CleanTables;
    hide CleanNames;
    hide Clean;
    var rows := RowsAsked(lib, st, cmd, f);
    RowsAskedAreClean(lib, st, cmd, f);
    CollectedRows(rows, cur);
  }

  lemma ListedNamesAreClean(st: Store, cur: Cursor)
    requires CleanStore(st)
    ensures AllFree(ListUsernames(st.admins, cur).1, RECORD_SEP)
  {
    NamesAreTheAccounts(st.admins.table);
    CollectedRows(SortedNames(st.admins.table), cur);
    hide SortedNames;
    hide Collected;
    hide CleanTables;
    forall u | u in ListUsernames(st.admins, cur).1 ensures u in st.admins.table.Keys {
      assert u in SortedNames(st.admins.table);
    }
  }

  // ---- the whole stack ----

  /** What the handlers run directly would report for each call, on the state the calls before it left. */
  function DirectResponses(lib: Library, s: Session, st: Store, calls: seq<C.Call>, o: Oracle,
      k: nat): (r: seq<C.ClientResponse>)
    ensures |r| == |calls|
    decreases |calls|
  {
    hide DispatchCall;
    hide DirectResponse;
    if calls == [] then [] else
      var e := DispatchCall(lib, s, st, calls[0], o.env(k));
      [DirectResponse(lib, st, calls[0], e, o.env(k))] + DirectResponses(lib, e.session, e.store, calls[1..], o, k + 1)
  }

  /** Whatever the engine makes of numeric days, it is a number. */
  ghost predicate EnginesLawful(o: Oracle) { forall k: nat :: NumericAffinity(o.env(k).engine.day) }

  predicate CleanCalls(calls: seq<C.Call>) {
    forall call :: call in calls ==> CleanFields(C.RequestFields(call))
  }

  lemma {:induction false} RepliesReadDirectly(lib: Library, s: Session, st: Store, calls: seq<C.Call>, o: Oracle,
      k: nat, id: uint32)
    requires CleanStore(st) && CleanCalls(calls) && EnginesLawful(o) && IvsWork(o, k, |calls|)
    ensures var ys := Replies(DirectRun(lib, s, st, calls, o, k), o, k, id);
      forall i :: 0 <= i < |calls| ==> C.ReadInto(C.EMPTY_RESPONSE, ys[i].m) == DirectResponses(lib, s, st, calls, o,
          k)[i]
    decreases |calls|
  {
    hide DispatchCall;
    hide CleanStore;
    hide CleanFields;
    hide C.ReadInto;
    hide DirectResponse;
    hide ReplyBody;
    if calls != [] {
      var effects := DirectRun(lib, s, st, calls, o, k);
      var e := effects[0];
      var ys := Replies(effects, o, k, id);
      assert calls[0] in calls;
      FirstReadsDirectly(lib, s, st, calls[0], o, k, id);
      RepliesReadDirectly(lib, e.session, e.store, calls[1..], o, k + 1, NextId(id));
      assert effects[1..] == DirectRun(lib, e.session, e.store, calls[1..], o, k + 1);
      assert ys[1..] == Replies(effects[1..], o, k + 1, NextId(id));
      forall i | 0 <= i < |calls|
        ensures C.ReadInto(C.EMPTY_RESPONSE, ys[i].m) == DirectResponses(lib, s, st, calls, o, k)[i]
      {
        if i > 0 { assert ys[i] == ys[1..][i - 1]; }
      }
    }
  }

  /** One reply, and the store it leaves. */
  lemma FirstReadsDirectly(lib: Library, s: Session, st: Store, call: C.Call, o: Oracle, k: nat, id: uint32)
    requires CleanStore(st) && CleanFields(C.RequestFields(call)) && EnginesLawful(o)
    ensures var e := DispatchCall(lib, s, st, call, o.env(k));
      && CleanStore(e.store)
      && C.ReadInto(C.EMPTY_RESPONSE, ReplyBody(e.resp, id, o.now(k))) == DirectResponse(lib, st, call, e, o.env(k))
  {
    hide Dispatch;
    hide CleanStore;
    hide CleanFields;
    hide C.ReadInto;
    hide DirectResponse;
    hide ReplyBody;
    hide RegisterAll;
    ReplyReadsAsDirectResponse(lib, s, st, call, o.env(k), id, o.now(k));
    DispatchKeepsClean(lib, s, st, C.CmdOf(call), C.RequestFields(call), o.env(k));
  }

  lemma CanAnswerMeans(w: Wiring, o: Oracle, p: Progress, effects: seq<Effect>)
    requires ServerCanAnswer(w, o, p, effects)
    ensures IvsWork(o, p.dispatched, |effects|) && AllSendable(w.c, w.key, Replies(effects, o, p.dispatched, p.nextId))
  {
    hide AllSendable;
    hide Replies;
  }

  /** A server that is sent exactly the calls answers each once, and stops at the end of the stream. */
  lemma ServerAnswersAll(w: Wiring, lib: Library, o: Oracle, p: Progress, calls: seq<C.Call>, co: ClientOracle,
      id: uint32)
    requires Lawful(w.c) && AllSendable(w.c, w.key, Requests(calls, co, 0, id))
    requires p.conn.incoming == Wire(w.c, w.key, Requests(calls, co, 0, id))
    requires ServerCanAnswer(w, o, p, DirectRun(lib, p.session, p.store, calls, o, p.dispatched))
    ensures var effects := DirectRun(lib, p.session, p.store, calls, o, p.dispatched);
      var r := Serve(w, lib, SERVER_TABLE, o, p);
      && r.dispatched - p.dispatched == r.answered - p.answered == |calls|
      && r.session == LastSession(p.session, effects) && r.store == LastStore(p.store, effects)
      && IvsWork(o, p.dispatched, |effects|)
      && r.conn.outgoing == p.conn.outgoing + Wire(w.c, w.key, Replies(effects, o, p.dispatched, p.nextId))
  {
    hide Dispatch;
    hide DirectRun;
    hide FrameOf;
    hide Wire;
    hide AllSendable;
    hide ServeOne;
    var effects := DirectRun(lib, p.session, p.store, calls, o, p.dispatched);
    assert p.conn.incoming == Wire(w.c, w.key, Requests(calls, co, 0, id)) + [];
    ServeFollowsDirectRun(w, lib, o, p, calls, co, 0, id, []);
    StopsAtBadStream(w, lib, o, Advanced(w, o, p, effects, []));
    hide Replies;
    hide Serve;
  }

  /**
   * End to end: for any calls on one connection, with no transport error and every frame within the receiver's limit,
   * the client's k-th result is success with exactly the direct response of the k-th call; server and client agree on
   * the octets between them; and the server's session and store are those of the direct run.
   */
  lemma ClientSeesDirectResponses(w: Wiring, lib: Library, st: Store, calls: seq<C.Call>, co: ClientOracle, o: Oracle,
                                  clientId: uint32, serverId: uint32, serverRoom: nat, clientRoom: nat)
    requires Lawful(w.c) && CleanStore(st) && CleanCalls(calls) && EnginesLawful(o)
    requires var xs := Requests(calls, co, 0, clientId);
      AllSendable(w.c, w.key, xs) && |Wire(w.c, w.key, xs)| <= clientRoom
      && ServerCanAnswer(w, o, Accepted(Conn(Wire(w.c, w.key, xs), serverRoom, []), st, serverId),
                         DirectRun(lib, FRESH_SESSION, st, calls, o, 0))
    ensures var xs := Requests(calls, co, 0, clientId);
      var effects := DirectRun(lib, FRESH_SESSION, st, calls, o, 0);
      var server := Serve(w, lib, SERVER_TABLE, o, Accepted(Conn(Wire(w.c, w.key, xs), serverRoom, []), st, serverId));
      var client := ClientRun(w, Conn(server.conn.outgoing, clientRoom, []), calls, co, 0, clientId);
      && client.0.outgoing == Wire(w.c, w.key, xs)
      && server.dispatched == server.answered == |calls|
      && server.session == LastSession(FRESH_SESSION, effects) && server.store == LastStore(st, effects)
      && forall k :: 0 <= k < |calls| ==> client.1[k] == (SUCCESS,
            DirectResponses(lib, FRESH_SESSION, st, calls, o, 0)[k])
  {
    hide Dispatch;
    hide CleanStore;
    hide CleanFields;
    hide C.ReadInto;
    hide C.Exchange;
    hide ServeOne;
    hide FrameOf;
    hide Wire;
    hide AllSendable;
    hide ServerCanAnswer;
    hide DirectRun;
    hide DirectResponses;
    var xs := Requests(calls, co, 0, clientId);
    var effects := DirectRun(lib, FRESH_SESSION, st, calls, o, 0);
    var p := Accepted(Conn(Wire(w.c, w.key, xs), serverRoom, []), st, serverId);
    CanAnswerMeans(w, o, p, effects);
    ServerAnswersAll(w, lib, o, p, calls, co, clientId);
    var ys := Replies(effects, o, 0, serverId);
    ClientReadsReplies(w, Conn(Wire(w.c, w.key, ys), clientRoom, []), calls, co, 0, clientId, ys);
    RepliesReadDirectly(lib, FRESH_SESSION, st, calls, o, 0, serverId);
    assert [] + Wire(w.c, w.key, xs) == Wire(w.c, w.key, xs);
    assert [] + Wire(w.c, w.key, ys) == Wire(w.c, w.key, ys);
    hide Requests;
    hide Replies;
    hide Serve;
    hide ClientRun;
  }
}
