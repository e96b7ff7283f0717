/**
 * Client and server taking turns over streams that hold nothing but what the other side has already sent: no call waits
 * for octets that do not come.
 */
module InStep {
  import opened Bytes
  import opened MessagePb
  import opened Handlers
  import opened Sockets
  import opened Protocol
  import opened ServerLoop
  import opened CleanRuns
  import opened EndToEnd
  import C = Client

  /** A connection between turns: what each side still has to read, and whether the server's loop goes on. */
  datatype Joint = Joint(server: Progress, serving: bool, client: Conn, id: uint32)

  /**
   * The client sends its k-th request; the server, if still serving, turns its loop once; the client reads what came
   * back.
   */
  function Turn(w: Wiring, lib: Library, o: Oracle, co: ClientOracle, j: Joint, k: nat, call: C.Call): (Joint,
      (ErrorCode, C.ClientResponse)) {
    var request := MsgBody(C.CmdOf(call), j.id, co.now(k), Some(C.RequestFields(call)));
    var sent := SendOver(w.c, w.key, j.client.(outgoing := []), request, Some(co.iv(k)));
    var reached := j.server.(conn := Conn(j.server.conn.incoming + sent.0.outgoing, j.server.conn.room, []));
    var one := if j.serving then ServeOne(w, lib, SERVER_TABLE, o, reached) else (reached, false);
    var got := Receive(w.c, w.key, sent.0.incoming + one.0.conn.outgoing);
    if sent.1 != SUCCESS then (Joint(one.0, one.1, sent.0.(incoming := sent.0.incoming + one.0.conn.outgoing),
        NextId(j.id)), (sent.1, C.EMPTY_RESPONSE))
    else (Joint(one.0, one.1, sent.0.(incoming := got.rest), NextId(j.id)),
          (got.err, if got.err == SUCCESS then C.ReadInto(C.EMPTY_RESPONSE, got.body) else C.EMPTY_RESPONSE))
  }

  function Turns(w: Wiring, lib: Library, o: Oracle, co: ClientOracle, j: Joint, k: nat, calls: seq<C.Call>):
    (r: (Joint, seq<(ErrorCode, C.ClientResponse)>))
    ensures |r.1| == |calls|
    decreases |calls|
  {
    if calls == [] then (j, []) else
      var t := Turn(w, lib, o, co, j, k, calls[0]);
      var more := Turns(w, lib, o, co, t.0, k + 1, calls[1..]);
      (more.0, [t.1] + more.1)
  }

  /** One turn with nothing in flight before it: nothing is in flight after it. */
  lemma TurnWorks(w: Wiring, lib: Library, o: Oracle, co: ClientOracle, j: Joint, k: nat, calls: seq<C.Call>)
    requires Lawful(w.c) && calls != [] && j.serving && j.server.conn.incoming == [] && j.client.incoming == []
    requires var xs := Requests(calls, co, k, j.id);
      AllSendable(w.c, w.key, xs) && |Wire(w.c, w.key, xs)| <= j.client.room
    requires ServerCanAnswer(w, o, j.server,
        DirectRun(lib, j.server.session, j.server.store, calls, o, j.server.dispatched))
    ensures var t := Turn(w, lib, o, co, j, k, calls[0]);
      var e := DispatchCall(lib, j.server.session, j.server.store, calls[0], o.env(j.server.dispatched));
      && t.1 == (SUCCESS, C.ReadInto(C.EMPTY_RESPONSE, ReplyBody(e.resp, j.server.nextId, o.now(j.server.dispatched))))
      && t.0.serving && t.0.server.conn.incoming == [] && t.0.client.incoming == [] && t.0.id == NextId(j.id)
      && t.0.server.session == e.session && t.0.server.store == e.store
            && t.0.server.dispatched == j.server.dispatched + 1
      && ServerCanAnswer(w, o, t.0.server, DirectRun(lib, e.session, e.store, calls[1..], o, j.server.dispatched + 1))
      && |Wire(w.c, w.key, Requests(calls[1..], co, k + 1, NextId(j.id)))| <= t.0.client.room
  {
    hide Dispatch;
    hide FrameOf;
    hide Sendable;
    hide ServeOne;
    hide SendOver;
    hide Receive;
    hide ReplyBody;
    hide ServerCanAnswer;
    hide Advanced;
    hide C.ReadInto;
    hide C.CmdOf;
    hide C.RequestFields;
    var xs := Requests(calls, co, k, j.id);
    var x := xs[0];
    FirstIsSendable(w, xs);
    FirstOnWire(w, xs);
    hide Wire;
    hide AllSendable;
    assert xs[1..] == Requests(calls[1..], co, k + 1, NextId(j.id));
    var frame := FrameOf(w.c, w.key, x);
    SendAppendsFrame(w.c, w.key, j.client.(outgoing := []), x);
    assert [] + frame == frame;
    var p := j.server.(conn := Conn(frame, j.server.conn.room, []));
    var effects := DirectRun(lib, p.session, p.store, calls, o, p.dispatched);
    SameAnswers(w, o, j.server, p, effects);
    assert frame + [] == frame;
    FirstThenRest(w, o, p, effects, [], []);
    FirstIsAnswered(w, lib, o, p, calls, x, [], co, k, j.id);
    var y := Sent(ReplyBody(effects[0].resp, p.nextId, o.now(p.dispatched)), o.iv(p.dispatched).value);
    assert [] + FrameOf(w.c, w.key, y) == FrameOf(w.c, w.key, y)
        && FrameOf(w.c, w.key, y) + [] == FrameOf(w.c, w.key, y);
    FrameIsReceived(w.c, w.key, y, []);
  }

  /** Whether the server can answer does not depend on what it has read and written. */
  lemma SameAnswers(w: Wiring, o: Oracle, p: Progress, q: Progress, effects: seq<Effect>)
    requires p.dispatched == q.dispatched && p.nextId == q.nextId && p.conn.room == q.conn.room
    ensures ServerCanAnswer(w, o, p, effects) == ServerCanAnswer(w, o, q, effects)
  {
    hide AllSendable;
    hide Wire;
    hide Replies;
  }

  /**
   * In step: client and server take turns over two streams that hold nothing but what the other side has sent so far,
   * so neither ever waits for octets that do not come; the results are the direct responses, and nothing is left in
   * flight.
   */
  lemma {:induction false} TurnsGiveDirectResponses(w: Wiring, lib: Library, o: Oracle, co: ClientOracle, j: Joint,
      k: nat, calls: seq<C.Call>)
    requires Lawful(w.c) && CleanStore(j.server.store) && CleanCalls(calls) && EnginesLawful(o)
    requires j.serving && j.server.conn.incoming == [] && j.client.incoming == []
    requires var xs := Requests(calls, co, k, j.id);
      AllSendable(w.c, w.key, xs) && |Wire(w.c, w.key, xs)| <= j.client.room
    requires ServerCanAnswer(w, o, j.server,
        DirectRun(lib, j.server.session, j.server.store, calls, o, j.server.dispatched))
    ensures var effects := DirectRun(lib, j.server.session, j.server.store, calls, o, j.server.dispatched);
      var responses := DirectResponses(lib, j.server.session, j.server.store, calls, o, j.server.dispatched);
      var r := Turns(w, lib, o, co, j, k, calls);
      && (forall i :: 0 <= i < |calls| ==> r.1[i] == (SUCCESS, responses[i]))
      && r.0.serving && r.0.server.conn.incoming == [] && r.0.client.incoming == []
      && r.0.server.session == LastSession(j.server.session, effects)
            && r.0.server.store == LastStore(j.server.store, effects)
    decreases |calls|
  {
    hide Turn;
    hide Dispatch;
    hide ServerCanAnswer;
    hide CleanStore;
    hide CleanFields;
    hide C.ReadInto;
    hide C.CmdOf;
    hide C.RequestFields;
    hide DirectResponse;
    hide Wire;
    hide Sendable;
    if calls != [] {
      var s, st, d := j.server.session, j.server.store, j.server.dispatched;
      var e := DispatchCall(lib, s, st, calls[0], o.env(d));
      var xs := Requests(calls, co, k, j.id);
      var t := Turn(w, lib, o, co, j, k, calls[0]);
      TurnWorks(w, lib, o, co, j, k, calls);
      assert calls[0] in calls;
      ReplyReadsAsDirectResponse(lib, s, st, calls[0], o.env(d), j.server.nextId, o.now(d));
      DispatchKeepsClean(lib, s, st, C.CmdOf(calls[0]), C.RequestFields(calls[0]), o.env(d));
      hide DispatchCall;
      assert xs[1..] == Requests(calls[1..], co, k + 1, NextId(j.id));
      TurnsGiveDirectResponses(w, lib, o, co, t.0, k + 1, calls[1..]);
    }
  }
}
