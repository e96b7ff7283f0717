/**
 * TCP sockets as the operating system shows them, and SocketHandler, which owns one of them:
 * the loops that turn partial sends and receives into whole ones, and the moves that pass ownership on.
 */
module Sockets {
  import opened Bytes

  const INVALID_SOCKET := -1

  /**
   * An open connection. incoming holds every octet that will still be delivered before the stream ends or breaks,
   * room is how many more octets the system will accept before send fails, outgoing is what it has accepted.
   */
  datatype Conn = Conn(incoming: Text, room: nat, outgoing: Text)

  datatype OsState = OsState(conns: map<int, Conn>, granted: multiset<int>, closed: multiset<int>, badCloses: nat)

  /** closesocket: closing what is not open is an error the program must never commit. */
  function CloseSocket(os: OsState, s: int): OsState {
    if s in os.conns then os.(conns := os.conns - {s}, closed := os.closed + multiset{s})
    else os.(badCloses := os.badCloses + 1)
  }

  /** static_cast<int>(n) */
  function IntCast(n: nat): int {
    var low := n % 0x1_0000_0000;
    if low <= INT_MAX then low else low - 0x1_0000_0000
  }

  /** The cast followed by the test for a positive length: how much one call may still transfer. */
  function Castable(n: nat): (k: nat)
    ensures k <= n
    ensures n <= INT_MAX ==> k == n
    ensures n > INT_MAX ==> k < n
  {
    if IntCast(n) > 0 then IntCast(n) else 0
  }

  /** Once part of that is transferred, the rest is what may still be. */
  lemma CastOfRest(n: nat, k: nat)
    requires 0 < k <= Castable(n)
    ensures Castable(n - k) == Castable(n) - k
  {
    assert (n - k) % 0x1_0000_0000 == n % 0x1_0000_0000 - k;
  }

  function Min(a: nat, b: nat): nat { if a <= b then a else b }

  /** What sending n octets as a whole leaves behind, and whether it succeeds. */
  function Push(c: Conn, data: Text): (r: (Conn, bool))
    ensures r.1 ==> r.0.outgoing == c.outgoing + data
  {
    var k := Min(Castable(|data|), c.room);
    (c.(room := c.room - k, outgoing := c.outgoing + data[..k]), k == |data|)
  }

  /** What receiving n octets as a whole takes from the stream, and whether it succeeds. */
  function Pull(incoming: Text, n: nat): (r: (Text, Text, bool))
    ensures r.0 + r.1 == incoming
    ensures r.2 <==> n <= INT_MAX && n <= |incoming|
    ensures r.2 ==> r.0 == incoming[..n]
  {
    var k := Min(Castable(n), |incoming|);
    (incoming[..k], incoming[k..], k == n)
  }

  lemma CastIsCastable(n: nat)
    ensures IntCast(n) <= n && (IntCast(n) > 0 ==> Castable(n) == IntCast(n)) && (IntCast(n) <= 0 ==> Castable(n) == 0)
  {
  }

  /** The connection after k octets of data have been accepted. */
  function Pushed(c: Conn, data: Text, k: nat): Conn
    requires k <= |data| && k <= c.room
  {
    c.(room := c.room - k, outgoing := c.outgoing + data[..k])
  }

  lemma PushedFurther(c: Conn, data: Text, k: nat, more: nat)
    requires k + more <= |data| && k + more <= c.room
    ensures Pushed(c, data, k + more) == c.(room := c.room - k - more,
        outgoing := c.outgoing + data[..k] + data[k..k + more])
  {
    assert (c.outgoing + data[..k]) + data[k..k + more] == c.outgoing + data[..k + more];
  }

  /** A sequence of sends that stopped after k octets, all of them or as many as could be. */
  lemma PushEnds(c: Conn, data: Text, k: nat)
    requires k <= |data| && k <= c.room && k <= Castable(|data|)
    requires k == |data| || k == Castable(|data|) || k == c.room
    ensures Push(c, data) == (Pushed(c, data, k), k == |data|)
  {
  }

  lemma PulledFurther(incoming: Text, k: nat, more: nat)
    requires k + more <= |incoming|
    ensures incoming[k..][more..] == incoming[k + more..]
        && incoming[..k] + incoming[k..][..more] == incoming[..k + more]
  {
  }

  lemma PullEnds(incoming: Text, n: nat, k: nat)
    requires k <= n && k <= |incoming| && k <= Castable(n)
    requires k == n || k == Castable(n) || k == |incoming|
    ensures Pull(incoming, n) == (incoming[..k], incoming[k..], k == n)
  {
  }

  /** Two sends in a row have the outcome of one send of both pieces. */
  lemma PushTwice(c: Conn, a: Text, b: Text)
    requires |a| <= INT_MAX && |b| <= INT_MAX
    ensures var r1 := Push(c, a);
      var r2 := Push(r1.0, b);
      && (r1.1 <==> c.room >= |a|)
      && (r1.1 && r2.1 <==> c.room >= |a| + |b|)
      && (c.room >= |a| + |b| ==> r2.0 == c.(room := c.room - (|a| + |b|), outgoing := c.outgoing + (a + b)))
      && (c.room < |a| ==> r1.0 == c.(room := 0, outgoing := c.outgoing + (a + b)[..c.room]))
      && (|a| <= c.room < |a| + |b| ==> r2.0 == c.(room := 0, outgoing := c.outgoing + (a + b)[..c.room]))
  {
    var k := c.room;
    if k < |a| {
      assert (a + b)[..k] == a[..k];
    } else {
      assert a[..|a|] == a && b[..|b|] == b;
      assert (c.outgoing + a) + b == c.outgoing + (a + b);
      if k < |a| + |b| {
        assert (a + b)[..k] == a + b[..k - |a|];
        assert (c.outgoing + a) + b[..k - |a|] == c.outgoing + (a + b[..k - |a|]);
      }
    }
  }

  /** The same for a descriptor that may not be open, in which case every call fails. */
  function SendOn(conns: map<int, Conn>, s: int, data: Text): (r: (map<int, Conn>, bool)) {
    if s in conns then (conns[s := Push(conns[s], data).0], Push(conns[s], data).1) else (conns, data == [])
  }

  function RecvOn(conns: map<int, Conn>, s: int, n: nat): (r: (map<int, Conn>, Text, bool)) {
    if s in conns then
      var p := Pull(conns[s].incoming, n);
      (conns[s := conns[s].(incoming := p.1)], p.0, p.2)
    else (conns, [], n == 0)
  }

  predicate AllBelow(open: set<int>, n: nat) { forall s :: s in open ==> s < n }

  lemma {:induction false} SetIsBounded(open: set<int>)
    ensures exists n: nat :: AllBelow(open, n)
  {
    if x :| x in open {
      SetIsBounded(open - {x});
      var n: nat :| AllBelow(open - {x}, n);
      var m: nat := if x < n then n else x + 1;
      forall s | s in open ensures s < m { assert s != x ==> s in open - {x}; }
      assert AllBelow(open, m);
    } else {
      assert AllBelow(open, 0);
    }
  }

  lemma SomeDescriptorIsFree(open: set<int>)
    ensures exists s :: s >= 0 && s !in open
  {
    SetIsBounded(open);
    var n: nat :| AllBelow(open, n);
    assert n !in open;
  }

  class Os {
    var conns: map<int, Conn>
    var granted: multiset<int>
    var closed: multiset<int>
    var badCloses: nat

    function State(): OsState reads this { OsState(conns, granted, closed, badCloses) }

    /** Accepts at least one octet when it accepts any; how many is not the caller's choice. */
    method Send(s: int, data: Text, at: nat, len: int) returns (n: int)
      requires at <= |data| && len <= |data| - at
      modifies `conns
      ensures n <= 0 ==> conns == old(conns)
      ensures n > 0 <==> s in old(conns) && len > 0 && old(conns)[s].room > 0
      ensures n > 0 ==> n <= len && n <= old(conns)[s].room
      ensures n > 0 ==> var c := old(conns)[s];
        conns == old(conns)[s := c.(room := c.room - n, outgoing := c.outgoing + data[at..at + n])]
    {
      if s !in conns || len <= 0 || conns[s].room == 0 { return -1; }
      var c := conns[s];
      var most := Min(len, c.room);
      n :| 1 <= n <= most;
      conns := conns[s := c.(room := c.room - n, outgoing := c.outgoing + data[at..at + n])];
    }

    /** Delivers at least one octet while the stream lasts; n is 0 or negative at its end. */
    method Recv(s: int, len: int) returns (chunk: Text, n: int)
      modifies `conns
      ensures n <= 0 ==> conns == old(conns) && chunk == []
      ensures n > 0 <==> s in old(conns) && len > 0 && old(conns)[s].incoming != []
      ensures n > 0 ==> n <= len && n <= |old(conns)[s].incoming|
      ensures n > 0 ==> var c := old(conns)[s];
        chunk == c.incoming[..n] && conns == old(conns)[s := c.(incoming := c.incoming[n..])]
    {
      if s !in conns || len <= 0 || conns[s].incoming == [] { return [], 0; }
      var c := conns[s];
      var most := Min(len, |c.incoming|);
      n :| 1 <= n <= most;
      chunk := c.incoming[..n];
      conns := conns[s := c.(incoming := c.incoming[n..])];
    }

    /** socket and connect, once they have worked: a descriptor that is not open. */
    method Connect(conn: Conn) returns (s: int)
      modifies this
      ensures s >= 0 && s !in old(conns) && conns == old(conns)[s := conn]
      ensures granted == old(granted) + multiset{s} && closed == old(closed) && badCloses == old(badCloses)
    {
      SomeDescriptorIsFree(conns.Keys);
      s :| s >= 0 && s !in conns;
      conns := conns[s := conn];
      granted := granted + multiset{s};
    }

    method Close(s: int)
      modifies this
      ensures State() == CloseSocket(old(State()), s)
    {
      if s in conns {
        conns := conns - {s};
        closed := closed + multiset{s};
      } else {
        badCloses := badCloses + 1;
      }
    }
  }

  /** The fields of a SocketHandler; ip is the buffer of INET_ADDRSTRLEN octets. */
  datatype SocketFields = SocketFields(socket: int, ip: Text, port: int)

  const IP_LENGTH := 22

  function Emptied(h: SocketFields): SocketFields
    requires |h.ip| == IP_LENGTH
  {
    SocketFields(INVALID_SOCKET, h.ip[0 := 0], -1)
  }

  class SocketHandler {
    var socket: int
    var ip: Text
    var port: int

    ghost predicate Valid() reads this { |ip| == IP_LENGTH }

    function State(): SocketFields reads this { SocketFields(socket, ip, port) }

    constructor (clientSock: int, clientIp: Text, clientPort: int)
      requires |clientIp| == IP_LENGTH
      ensures Valid() && State() == SocketFields(clientSock, clientIp, clientPort)
    {
      socket, ip, port := clientSock, clientIp, clientPort;
    }

    /** The move constructor takes the socket over. */
    constructor Move(other: SocketHandler)
      requires other.Valid()
      modifies other
      ensures Valid() && other.Valid()
      ensures State() == old(other.State()) && other.State() == Emptied(old(other.State()))
    {
      socket, port, ip := other.socket, other.port, other.ip;
      new;
      other.socket := INVALID_SOCKET;
      other.ip := other.ip[0 := 0];
      other.port := -1;
    }

    /** operator=(SocketHandler&&): self-move does nothing; otherwise the old socket is closed first. */
    method MoveAssign(os: Os, other: SocketHandler)
      requires Valid() && other.Valid()
      modifies this, other, os
      ensures Valid() && other.Valid()
      ensures this == other ==> State() == old(State()) && os.State() == old(os.State())
      ensures this != other ==> State() == old(other.State()) && other.State() == Emptied(old(other.State()))
      ensures this != other ==>
        os.State() == if old(socket) == INVALID_SOCKET then old(os.State())
                         else CloseSocket(old(os.State()), old(socket))
    {
      if this == other { return; }
      if socket != INVALID_SOCKET { os.Close(socket); }
      socket := other.socket;
      port := other.port;
      ip := other.ip;
      other.socket := INVALID_SOCKET;
      other.ip := other.ip[0 := 0];
      other.port := -1;
    }

    /** The destructor. */
    method Destroy(os: Os)
      modifies os
      ensures os.State() == if socket == INVALID_SOCKET then old(os.State()) else CloseSocket(old(os.State()), socket)
    {
      if socket != INVALID_SOCKET { os.Close(socket); }
    }

    /** Loops until everything is accepted; whatever the sizes of the pieces, the outcome is that of Push. */
    method SocketSend(os: Os, data: Text) returns (ok: bool)
      modifies os`conns
      ensures (os.conns, ok) == SendOn(old(os.conns), socket, data)
    {
      hide IntCast;
      hide Castable;
      hide Push;
      ghost var c0 := if socket in os.conns then os.conns[socket] else Conn([], 0, []);
      ghost var m0 := os.conns;
      var total := 0;
      assert Pushed(c0, data, 0) == c0;
      while total < |data|
        invariant 0 <= total <= |data| && total <= c0.room && total <= Castable(|data|)
        invariant Castable(|data| - total) == Castable(|data|) - total
        invariant socket in m0 ==> os.conns == m0[socket := Pushed(c0, data, total)]
        invariant socket !in m0 ==> os.conns == m0 && total == 0
      {
        var rest := |data| - total;
        CastIsCastable(rest);
        var sent := os.Send(socket, data, total, IntCast(rest));
        if sent <= 0 {
          if socket in m0 { PushEnds(c0, data, total); }
          return false;
        }
        CastOfRest(rest, sent);
        PushedFurther(c0, data, total, sent);
        total := total + sent;
      }
      if socket in m0 { PushEnds(c0, data, total); }
      return true;
    }

    /** Loops until everything has arrived; the outcome is that of Pull. */
    method SocketRecv(os: Os, n: nat) returns (data: Text, ok: bool)
      modifies os`conns
      ensures (os.conns, data, ok) == RecvOn(old(os.conns), socket, n)
    {
      hide IntCast;
      hide Castable;
      hide Pull;
      ghost var c0 := if socket in os.conns then os.conns[socket] else Conn([], 0, []);
      ghost var m0 := os.conns;
      data := [];
      while |data| < n
        invariant |data| <= n && |data| <= |c0.incoming| && |data| <= Castable(n) && data == c0.incoming[..|data|]
        invariant Castable(n - |data|) == Castable(n) - |data|
        invariant if socket in m0 then os.conns == m0[socket := c0.(incoming := c0.incoming[|data|..])]
            else os.conns == m0
      {
        var rest := n - |data|;
        CastIsCastable(rest);
        var chunk, got := os.Recv(socket, IntCast(rest));
        if got <= 0 {
          if socket in m0 { PullEnds(c0.incoming, n, |data|); }
          return data, false;
        }
        CastOfRest(rest, got);
        PulledFurther(c0.incoming, |data|, got);
        data := data + chunk;
      }
      if socket in m0 { PullEnds(c0.incoming, n, |data|); }
      return data, true;
    }
  }
}
