/**
 * Every history of SocketHandler objects: wrapping descriptors, move construction, move assignment and destruction,
 * each as the corresponding member of Sockets.SocketHandler does it.
 */
module Ownership {
  import opened Sockets

  /** The live SocketHandler objects by identity, and the operating system. */
  datatype World = World(handlers: map<nat, SocketFields>, os: OsState)

  datatype Event =
    | Wrap(id: nat, h: SocketFields, conn: Conn)
    | MoveConstruct(id: nat, from: nat)
    | MoveAssign(id: nat, from: nat)
    | Destroy(id: nat)

  const EMPTY_WORLD := World(map[], OsState(map[], multiset{}, multiset{}, 0))

  /** accept and connect hand out either INVALID_SOCKET or a descriptor that is not open; C++ allows the rest. */
  predicate Enabled(w: World, e: Event) {
    match e
    case Wrap(id, h, _) => id !in w.handlers && |h.ip| == IP_LENGTH && h.socket !in w.os.conns
    case MoveConstruct(id, from) => id !in w.handlers && from in w.handlers && |w.handlers[from].ip| == IP_LENGTH
    case MoveAssign(id, from) => id in w.handlers && from in w.handlers && |w.handlers[from].ip| == IP_LENGTH
    case Destroy(id) => id in w.handlers
  }

  function Release(os: OsState, s: int): OsState {
    if s == INVALID_SOCKET then os else CloseSocket(os, s)
  }

  function Step(w: World, e: Event): World
    requires Enabled(w, e)
  {
    match e
    case Wrap(id, h, conn) =>
      World(w.handlers[id := h],
            if h.socket == INVALID_SOCKET then w.os
            else w.os.(conns := w.os.conns[h.socket := conn], granted := w.os.granted + multiset{h.socket}))
    case MoveConstruct(id, from) =>
      w.(handlers := w.handlers[id := w.handlers[from]][from := Emptied(w.handlers[from])])
    case MoveAssign(id, from) =>
      if id == from then w else
        World(w.handlers[id := w.handlers[from]][from := Emptied(w.handlers[from])],
              Release(w.os, w.handlers[id].socket))
    case Destroy(id) =>
      World(w.handlers - {id}, Release(w.os, w.handlers[id].socket))
  }

  /** Some sequence of enabled events leads to w. */
  ghost predicate Run(events: seq<Event>, w: World) {
    if events == [] then w == EMPTY_WORLD else
      var last := events[|events| - 1];
      exists before :: Run(events[..|events| - 1], before) && Enabled(before, last) && w == Step(before, last)
  }

  predicate Owns(w: World, id: nat, s: int) {
    id in w.handlers && w.handlers[id].socket == s
  }

  ghost predicate Linear(w: World) {
    && (forall id :: id in w.handlers ==> |w.handlers[id].ip| == IP_LENGTH)
    && (forall id :: id in w.handlers && w.handlers[id].socket != INVALID_SOCKET ==>
          w.handlers[id].socket in w.os.conns)
    && (forall s :: s in w.os.conns ==> exists id :: Owns(w, id, s))
    && (forall i, j, s :: s in w.os.conns && Owns(w, i, s) && Owns(w, j, s) ==> i == j)
    && INVALID_SOCKET !in w.os.conns
    && w.os.granted == w.os.closed + multiset(w.os.conns.Keys)
    && w.os.badCloses == 0
  }

  lemma CloseKeepsBalance(os: OsState, s: int)
    requires s in os.conns && os.granted == os.closed + multiset(os.conns.Keys)
    ensures var os' := CloseSocket(os, s); os'.granted == os'.closed + multiset(os'.conns.Keys)
  {
    var os' := CloseSocket(os, s);
    assert os'.conns.Keys == os.conns.Keys - {s};
    assert multiset(os.conns.Keys) == multiset(os.conns.Keys - {s}) + multiset{s};
  }

  lemma GrantKeepsBalance(open: set<int>, s: int)
    requires s !in open
    ensures multiset(open + {s}) == multiset(open) + multiset{s}
  {
  }

  lemma WrapKeepsLinear(w: World, id: nat, h: SocketFields, conn: Conn)
    requires Linear(w) && Enabled(w, Wrap(id, h, conn))
    ensures Linear(Step(w, Wrap(id, h, conn)))
  {
    var w' := Step(w, Wrap(id, h, conn));
    if h.socket != INVALID_SOCKET {
      assert w'.os.conns.Keys == w.os.conns.Keys + {h.socket};
      GrantKeepsBalance(w.os.conns.Keys, h.socket);
      assert Owns(w', id, h.socket);
    }
    forall s | s in w.os.conns ensures exists i :: Owns(w', i, s) {
      var i :| Owns(w, i, s);
      assert Owns(w', i, s);
    }
    forall i, j, s | s in w'.os.conns && Owns(w', i, s) && Owns(w', j, s) ensures i == j {
      assert i != id ==> Owns(w, i, s);
      assert j != id ==> Owns(w, j, s);
    }
  }

  /** Dropping one handler and closing what it held. */
  lemma DropKeepsLinear(w: World, id: nat)
    requires Linear(w) && id in w.handlers
    ensures Linear(Step(w, Destroy(id)))
  {
    var w' := Step(w, Destroy(id));
    var mine := w.handlers[id].socket;
    assert Owns(w, id, mine);
    if mine != INVALID_SOCKET { CloseKeepsBalance(w.os, mine); }
    forall s | s in w'.os.conns ensures exists i :: Owns(w', i, s) {
      var i :| Owns(w, i, s);
      assert Owns(w', i, s);
    }
    forall i, j, s | s in w'.os.conns && Owns(w', i, s) && Owns(w', j, s) ensures i == j {
      assert Owns(w, i, s) && Owns(w, j, s);
    }
    forall i | i in w'.handlers && w'.handlers[i].socket != INVALID_SOCKET
      ensures w'.handlers[i].socket in w'.os.conns
    {
      assert Owns(w, i, w'.handlers[i].socket);
    }
  }

  /** Handing one handler's fields to an identity that is not live. */
  lemma HandOverKeepsLinear(w: World, id: nat, from: nat)
    requires Linear(w) && Enabled(w, MoveConstruct(id, from))
    ensures Linear(Step(w, MoveConstruct(id, from)))
  {
    var w' := Step(w, MoveConstruct(id, from));
    forall s | s in w'.os.conns ensures exists i :: Owns(w', i, s) {
      var i :| Owns(w, i, s);
      assert Owns(w', if i == from then id else i, s);
    }
    forall i, j, s | s in w'.os.conns && Owns(w', i, s) && Owns(w', j, s) ensures i == j {
      assert Owns(w, if i == id then from else i, s);
      assert Owns(w, if j == id then from else j, s);
    }
  }

  lemma StepKeepsLinear(w: World, e: Event)
    requires Linear(w) && Enabled(w, e)
    ensures Linear(Step(w, e))
  {
    match e
    case Wrap(id, h, conn) => WrapKeepsLinear(w, id, h, conn);
    case MoveConstruct(id, from) => HandOverKeepsLinear(w, id, from);
    case Destroy(id) => DropKeepsLinear(w, id);
    case MoveAssign(id, from) =>
      if id != from {
        var w1 := Step(w, Destroy(id));
        DropKeepsLinear(w, id);
        HandOverKeepsLinear(w1, id, from);
        assert Step(w, e).handlers == Step(w1, MoveConstruct(id, from)).handlers;
      }
  }

  /**
   * In every history: each open socket has exactly one owner, a handler that holds a descriptor holds an open one,
   * no close ever hits a socket that is not open, and sockets closed plus sockets open are the sockets granted.
   */
  lemma {:induction false} OwnershipIsLinear(events: seq<Event>, w: World)
    requires Run(events, w)
    ensures Linear(w)
  {
    if events == [] {
      assert multiset(w.os.conns.Keys) == multiset{};
    } else {
      var last := events[|events| - 1];
      var before :| Run(events[..|events| - 1], before) && Enabled(before, last) && w == Step(before, last);
      OwnershipIsLinear(events[..|events| - 1], before);
      StepKeepsLinear(before, last);
    }
  }

  lemma OpenMeansOwned(w: World, s: int)
    requires Linear(w)
    ensures s in w.os.conns.Keys ==> w.handlers.Keys != {}
  {
    if s in w.os.conns.Keys {
      var id :| Owns(w, id, s);
      assert id in w.handlers.Keys;
    }
  }

  lemma BalanceWhenEmpty(os: OsState)
    requires os.granted == os.closed + multiset(os.conns.Keys) && os.conns.Keys == {}
    ensures os.closed == os.granted
  {
  }

  /** When the last handler is gone, every socket ever granted has been closed exactly as often as granted. */
  lemma NothingLeaks(events: seq<Event>, w: World)
    requires Run(events, w) && w.handlers.Keys == {}
    ensures w.os.conns.Keys == {} && w.os.closed == w.os.granted && w.os.badCloses == 0
  {
    OwnershipIsLinear(events, w);
    forall s ensures s !in w.os.conns.Keys {
      OpenMeansOwned(w, s);
    }
    BalanceWhenEmpty(w.os);
  }
}
