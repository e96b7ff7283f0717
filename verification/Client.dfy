/** The client's calls: build the request, send it, wait for the answer, take it apart. */
module Client {
  import opened Bytes
  import opened Decimal
  import opened MessagePb
  import opened Commands
  import opened CourseTables
  import opened ListCodec
  import opened Sockets
  import opened Protocol

  datatype ClientResponse = ClientResponse(cmdType: uint32, text: Text, courses: seq<Course>, admins: seq<Text>)

  const EMPTY_RESPONSE := ClientResponse(0, [], [], [])

  predicate IsError(r: ClientResponse) { r.cmdType in {CMD_ERROR, CMD_PERMISSION_ERR, CMD_SERVER_ERROR} }
  predicate IsData(r: ClientResponse) { r.cmdType == CMD_QUERY_RESP }
  predicate IsAdminList(r: ClientResponse) { r.cmdType == CMD_ADMIN_LIST_RESP }

  /** The client_* functions. */
  datatype Call =
    | Login(user: Text, pass: Text)
    | Logout
    | QueryCode(code: Text)
    | QueryInstructor(name: Text)
    | QuerySemester(sem: Text)
    | ViewAll
    | ViewAllPage(offset: int, limit: int)
    | Add(c: Course)
    | Update(c: Course)
    | Delete(code: Text, section: Text)
    | AdminList
    | AdminCreate(user: Text, pass: Text)
    | AdminUpdate(oldUser: Text, newUser: Text, newPass: Text)
    | AdminDelete(user: Text)

  function CmdOf(call: Call): uint32 {
    match call
    case Login(_, _) => CMD_LOGIN_REQ
    case Logout => CMD_LOGOUT_REQ
    case QueryCode(_) => CMD_QUERY_BY_CODE_REQ
    case QueryInstructor(_) => CMD_QUERY_BY_INSTRUCTOR_REQ
    case QuerySemester(_) => CMD_QUERY_BY_SEMESTER_REQ
    case ViewAll => CMD_VIEW_ALL_REQ
    case ViewAllPage(_, _) => CMD_VIEW_ALL_PAGE_REQ
    case Add(_) => CMD_ADD_REQ
    case Update(_) => CMD_UPDATE_REQ
    case Delete(_, _) => CMD_DELETE_REQ
    case AdminList => CMD_ADMIN_LIST_REQ
    case AdminCreate(_, _) => CMD_ADMIN_CREATE_REQ
    case AdminUpdate(_, _, _) => CMD_ADMIN_UPDATE_REQ
    case AdminDelete(_) => CMD_ADMIN_DELETE_REQ
  }

  function RequestFields(call: Call): seq<Text> {
    match call
    case Login(user, pass) => [user, pass]
    case Logout => []
    case QueryCode(code) => [code]
    case QueryInstructor(name) => [name]
    case QuerySemester(sem) => [sem]
    case ViewAll => []
    case ViewAllPage(offset, limit) => [ToText(offset), ToText(limit)]
    case Add(c) => FieldsOf(c)
    case Update(c) => FieldsOf(c)
    case Delete(code, section) => [code, section]
    case AdminList => []
    case AdminCreate(user, pass) => [user, pass]
    case AdminUpdate(oldUser, newUser, newPass) => [oldUser, newUser, newPass]
    case AdminDelete(user) => [user]
  }

  /** What an answer adds to the response object it is read into. */
  function ReadInto(out: ClientResponse, m: MsgBody): ClientResponse {
    var text := if |m.Fields()| > 0 then m.Fields()[0] else [];
    ClientResponse(m.cmdType, text,
                   if m.cmdType == CMD_QUERY_RESP then ParseCourses(text) else out.courses,
                   if m.cmdType == CMD_ADMIN_LIST_RESP then out.admins + ParseNames(text) else out.admins)
  }

  /** Of an answer only the first field counts, and one without fields says nothing; names are added to those there. */
  lemma FirstFieldIsRead(out: ClientResponse, cmd: uint32, id: uint32, now: uint32, f: Text, more: seq<Text>)
    ensures var r := ReadInto(out, MsgBody(cmd, id, now, Some([f] + more)));
      && r.cmdType == cmd && r.text == f
      && r.courses == (if cmd == CMD_QUERY_RESP then ParseCourses(f) else out.courses)
      && r.admins == (if cmd == CMD_ADMIN_LIST_RESP then out.admins + ParseNames(f) else out.admins)
    ensures ReadInto(out, MsgBody(CMD_QUERY_RESP, id, now, None)) == ClientResponse(CMD_QUERY_RESP, [], [], out.admins)
  {
    hide ParseNames;
    hide CoursesIn;
  }

  /** One call over an open connection. */
  function Exchange(c: Crypto, key: Key, conn: Conn, request: MsgBody, iv: Option<Iv>, out: ClientResponse): (Conn,
      ErrorCode, ClientResponse) {
    var sent := SendOver(c, key, conn, request, iv);
    if sent.1 != SUCCESS then (sent.0, sent.1, out)
    else
      var got := Receive(c, key, sent.0.incoming);
      (sent.0.(incoming := got.rest), got.err, if got.err == SUCCESS then ReadInto(out, got.body) else out)
  }

  /** A reply that is refused, or a request that cannot be sent, is reported as it failed and tells nothing. */
  lemma FailedExchangeTellsNothing(c: Crypto, key: Key, conn: Conn, request: MsgBody, iv: Option<Iv>,
      out: ClientResponse)
    ensures var sent := SendOver(c, key, conn, request, iv).1;
      var r := Exchange(c, key, conn, request, iv, out);
      && (r.1 == SUCCESS <==> sent == SUCCESS && Receive(c, key, conn.incoming).err == SUCCESS)
      && (sent != SUCCESS ==> r.1 == sent)
      && (sent == SUCCESS ==> r.1 == Receive(c, key, conn.incoming).err)
      && (r.1 != SUCCESS ==> r.2 == out)
  {
    hide SendOver;
    hide Receive;
    hide ReadInto;
  }

  method SendAndRecv(c: Crypto, key: Key, sh: SocketHandler, os: Os, ids: RequestCounter,
                       fields: seq<Text>, cmd: uint32, now: uint32, iv: Option<Iv>, out0: ClientResponse)
    returns (e: ErrorCode, out: ClientResponse)
    requires sh.socket in os.conns
    modifies os`conns, ids
    ensures ids.next == (old(ids.next) + 1) % 0x1_0000_0000
    ensures var r := Exchange(c, key, old(os.conns)[sh.socket], MsgBody(cmd, old(ids.next), now, Some(fields)), iv,
        out0);
      os.conns == old(os.conns)[sh.socket := r.0] && e == r.1 && out == r.2
  {
    hide SendOver;
    hide Receive;
    ghost var m0 := os.conns;
    out := out0;
    e := PackageSendFields(c, key, sh, os, ids, fields, cmd, now, iv);
    if e != SUCCESS { return; }
    var resp;
    e, resp := PackageReceive(c, key, sh, os);
    assert os.conns == m0[sh.socket := os.conns[sh.socket]];
    if e != SUCCESS { return; }
    var p := resp.Fields();
    out := out.(cmdType := resp.cmdType, text := if |p| > 0 then p[0] else []);
    if out.cmdType == CMD_QUERY_RESP {
      var courses := ReadCourses(out.text);
      out := out.(courses := courses);
    } else if out.cmdType == CMD_ADMIN_LIST_RESP {
      var names := ReadNames(out.text);
      out := out.(admins := out.admins + names);
    }
  }
}
