/**
 * The framed message protocol: a 56-octet header (version, body length, IV, MAC over the plaintext body)
 * followed by the encrypted, serialized MsgBody.
 */
module Protocol {
  import opened Bytes
  import opened MessagePb
  import opened Sockets

  type Key = k: Text | |k| == 32 witness seq(32, _ => 0)
  type Iv = v: Text | |v| == 16 witness seq(16, _ => 0)
  type Mac = m: Text | |m| == 32 witness seq(32, _ => 0)

  datatype ErrorCode = SUCCESS | SEND_ERR | RECV_ERR | MAC_CALC_ERR | MAC_CHECK_ERR | IV_CALC_ERR | ENCRYPT_ERR
      | DECRYPT_ERR | PROTO_PARSE_ERR
    | DISPATCH_ERR | CMD_ERR

  /** AES-256-CBC and HMAC-SHA256, as the library provides them; an empty ciphertext or no code reports failure. */
  datatype Crypto = Crypto(
    encrypt: (Text, Key, Iv) -> Text,
    decrypt: (Text, Key, Iv) -> Text,
    hmac: (Key, Text) -> Option<Mac>)

  /** Padding makes a ciphertext longer than its plaintext, and decryption undoes encryption. */
  ghost predicate Lawful(c: Crypto) {
    forall p: Text, k: Key, v: Iv :: c.encrypt(p, k, v) != [] ==>
      |c.encrypt(p, k, v)| > |p| && c.decrypt(c.encrypt(p, k, v), k, v) == p
  }

  /** An instance that is no protection at all: one octet of padding, one code for everything. */
  function Padding(mac: Mac): Crypto {
    Crypto((p: Text, k: Key, v: Iv) => p + [0],
           (t: Text, k: Key, v: Iv) => if t == [] then [] else t[..|t| - 1],
           (k: Key, d: Text) => Some(mac))
  }

  /** The laws can be met. */
  lemma LawsAreConsistent(mac: Mac)
    ensures Lawful(Padding(mac)) && forall p: Text, k: Key, v: Iv :: Padding(mac).encrypt(p, k, v) != []
  {
    var c := Padding(mac);
    forall p: Text, k: Key, v: Iv ensures c.decrypt(c.encrypt(p, k, v), k, v) == p {
      assert (p + [0])[..|p|] == p;
    }
  }

  // ---- the header ----

  const APP_VERSION: uint32 := 1
  const MAX_BODY := 16 * 1024 * 1024
  const HEADER_LENGTH := 56

  datatype Header = Header(version: uint32, bodyLen: uint32, iv: Iv, mac: Mac)

  /** A uint32_t in memory on the little-endian hosts the program runs on. */
  function Le32(n: uint32): (s: Text)
    ensures |s| == 4
  {
    [(n % 256) as byte, (n / 256 % 256) as byte, (n / 65536 % 256) as byte, (n / 16777216) as byte]
  }

  function FromLe32(s: Text): uint32
    requires |s| == 4
  {
    s[0] as int + 256 * (s[1] as int) + 65536 * (s[2] as int) + 16777216 * (s[3] as int)
  }

  lemma Le32ReadsBack(n: uint32)
    ensures FromLe32(Le32(n)) == n
  {
    assert n / 65536 == n / 256 / 256 && n / 16777216 == n / 256 / 256 / 256;
  }

  function HeaderBytes(h: Header): (s: Text)
    ensures |s| == HEADER_LENGTH
  {
    Le32(h.version) + Le32(h.bodyLen) + h.iv + h.mac
  }

  function ParseHeader(s: Text): Header
    requires |s| == HEADER_LENGTH
  {
    Header(FromLe32(s[..4]), FromLe32(s[4..8]), s[8..24], s[24..])
  }

  lemma HeaderReadsBack(h: Header)
    ensures ParseHeader(HeaderBytes(h)) == h
  {
    var s := HeaderBytes(h);
    assert s[..4] == Le32(h.version) && s[4..8] == Le32(h.bodyLen) && s[8..24] == h.iv && s[24..] == h.mac;
    Le32ReadsBack(h.version);
    Le32ReadsBack(h.bodyLen);
  }

  /** Where the fields stand: version and body length with the low octet first, then vector, then code. */
  lemma HeaderLayout(h: Header)
    ensures var s := HeaderBytes(h);
      && h.version == s[0] as int + 0x100 * (s[1] as int) + 0x1_0000 * (s[2] as int) + 0x100_0000 * (s[3] as int)
      && h.bodyLen == s[4] as int + 0x100 * (s[5] as int) + 0x1_0000 * (s[6] as int) + 0x100_0000 * (s[7] as int)
      && s[8..24] == h.iv && s[24..56] == h.mac
  {
    HeaderReadsBack(h);
    assert ParseHeader(HeaderBytes(h)) == h;
    hide HeaderBytes;
  }

  // ---- sending ----

  function Ciphertext(c: Crypto, key: Key, m: MsgBody, iv: Iv): Text {
    c.encrypt(Serialize(m), key, iv)
  }

  /** The code in the header: what was computed, in a buffer of zeros. */
  function MacOf(c: Crypto, key: Key, data: Text): Mac {
    match c.hmac(key, data) case Some(mac) => mac case None => seq(32, _ => 0)
  }

  function HeaderOf(c: Crypto, key: Key, m: MsgBody, iv: Iv): Header {
    Header(APP_VERSION, |Ciphertext(c, key, m, iv)| % 0x1_0000_0000, iv, MacOf(c, key, Serialize(m)))
  }

  function Frame(c: Crypto, key: Key, m: MsgBody, iv: Iv): Text {
    HeaderBytes(HeaderOf(c, key, m, iv)) + Ciphertext(c, key, m, iv)
  }

  /** Header first, then body; the first failure ends the attempt. */
  function SendOver(c: Crypto, key: Key, conn: Conn, m: MsgBody, iv: Option<Iv>): (r: (Conn, ErrorCode))
    ensures r.0.incoming == conn.incoming
  {
    if c.hmac(key, Serialize(m)).None? then (conn, MAC_CALC_ERR)
    else if iv.None? then (conn, IV_CALC_ERR)
    else
      var text := Ciphertext(c, key, m, iv.value);
      if text == [] then (conn, ENCRYPT_ERR)
      else
        var h := Push(conn, HeaderBytes(HeaderOf(c, key, m, iv.value)));
        if !h.1 then (h.0, SEND_ERR)
        else
          var b := Push(h.0, text);
          (b.0, if b.1 then SUCCESS else SEND_ERR)
  }

  /** The same on descriptor s, which may not be open. */
  function SendBody(c: Crypto, key: Key, conns: map<int, Conn>, s: int, m: MsgBody, iv: Option<Iv>): (map<int, Conn>,
      ErrorCode) {
    if s in conns then
      var r := SendOver(c, key, conns[s], m, iv);
      (conns[s := r.0], r.1)
    else (conns, if c.hmac(key, Serialize(m)).None? then MAC_CALC_ERR else if iv.None? then IV_CALC_ERR
                 else if Ciphertext(c, key, m, iv.value) == [] then ENCRYPT_ERR else SEND_ERR)
  }

  /** What comes after a request id. */
  function NextId(id: uint32): uint32 { (id + 1) % 0x1_0000_0000 }

  /** g_req_id_counter. */
  class RequestCounter {
    var next: uint32

    constructor ()
      ensures next == 1
    {
      next := 1;
    }

    method FetchAdd() returns (id: uint32)
      modifies this
      ensures id == old(next) && next == (id + 1) % 0x1_0000_0000
    {
      id := next;
      next := (next + 1) % 0x1_0000_0000;
    }
  }

  method TransmitBody(c: Crypto, key: Key, sh: SocketHandler, os: Os, ids: RequestCounter,
                   cmd: uint32, fields: seq<Text>, now: uint32, iv: Option<Iv>) returns (e: ErrorCode)
    modifies os`conns, ids
    ensures ids.next == (old(ids.next) + 1) % 0x1_0000_0000
    ensures (os.conns, e) == SendBody(c, key, old(os.conns), sh.socket, MsgBody(cmd, old(ids.next), now, Some(fields)),
        iv)
  {
    ghost var m0 := os.conns;
    assert sh.socket in m0 ==> m0[sh.socket := m0[sh.socket]] == m0;
    var id := ids.FetchAdd();
    var body := MsgBody(cmd, id, now, Some(fields));
    var serialized := Serialize(body);
    var mac := c.hmac(key, serialized);
    if mac.None? { return MAC_CALC_ERR; }
    if iv.None? { return IV_CALC_ERR; }
    var ciphertext := c.encrypt(serialized, key, iv.value);
    if ciphertext == [] { return ENCRYPT_ERR; }
    var header := Header(APP_VERSION, |ciphertext| % 0x1_0000_0000, iv.value, mac.value);
    var ok := sh.SocketSend(os, HeaderBytes(header));
    if !ok { return SEND_ERR; }
    ok := sh.SocketSend(os, ciphertext);
    assert sh.socket in m0 ==> os.conns == m0[sh.socket := os.conns[sh.socket]];
    if !ok { return SEND_ERR; }
    return SUCCESS;
  }

  /** The overload that sends one byte string. */
  method PackageSendBytes(c: Crypto, key: Key, sh: SocketHandler, os: Os, ids: RequestCounter,
                            msg: Text, cmd: uint32, now: uint32, iv: Option<Iv>) returns (e: ErrorCode)
    modifies os`conns, ids
    ensures ids.next == (old(ids.next) + 1) % 0x1_0000_0000
    ensures (os.conns, e) == SendBody(c, key, old(os.conns), sh.socket, MsgBody(cmd, old(ids.next), now, Some([msg])),
        iv)
  {
    e := TransmitBody(c, key, sh, os, ids, cmd, [msg], now, iv);
  }

  /** The overload that sends a list of fields. */
  method PackageSendFields(c: Crypto, key: Key, sh: SocketHandler, os: Os, ids: RequestCounter,
                             fields: seq<Text>, cmd: uint32, now: uint32, iv: Option<Iv>) returns (e: ErrorCode)
    modifies os`conns, ids
    ensures ids.next == (old(ids.next) + 1) % 0x1_0000_0000
    ensures (os.conns, e) == SendBody(c, key, old(os.conns), sh.socket, MsgBody(cmd, old(ids.next), now, Some(fields)),
        iv)
  {
    var json: seq<Text> := [];
    for i := 0 to |fields|
      invariant json == fields[..i]
    {
      json := json + [fields[i]];
    }
    assert fields[..|fields|] == fields;
    e := TransmitBody(c, key, sh, os, ids, cmd, json, now, iv);
  }

  // ---- receiving ----

  datatype Received = Received(err: ErrorCode, body: MsgBody, rest: Text)

  function Receive(c: Crypto, key: Key, incoming: Text): (r: Received)
    ensures r.err.SUCCESS? ==> |r.rest| < |incoming|
  {
    var p := Pull(incoming, HEADER_LENGTH);
    if !p.2 then Received(RECV_ERR, DEFAULT_BODY, p.1)
    else
      var h := ParseHeader(p.0);
      if h.version != APP_VERSION || h.bodyLen == 0 || h.bodyLen > MAX_BODY then Received(RECV_ERR, DEFAULT_BODY, p.1)
      else
        var q := Pull(p.1, h.bodyLen);
        if !q.2 then Received(RECV_ERR, DEFAULT_BODY, q.1)
        else
          var plain := c.decrypt(q.0, key, h.iv);
          if plain == [] then Received(DECRYPT_ERR, DEFAULT_BODY, q.1)
          else if c.hmac(key, plain).None? then Received(MAC_CALC_ERR, DEFAULT_BODY, q.1)
          else if c.hmac(key, plain).value != h.mac then Received(MAC_CHECK_ERR, DEFAULT_BODY, q.1)
          else match Parse(plain)
            case None => Received(PROTO_PARSE_ERR, DEFAULT_BODY, q.1)
            case Some(m) => Received(SUCCESS, m, q.1)
  }

  method PackageReceive(c: Crypto, key: Key, sh: SocketHandler, os: Os) returns (e: ErrorCode, body: MsgBody)
    modifies os`conns
    ensures sh.socket !in old(os.conns) ==> os.conns == old(os.conns) && e == RECV_ERR
    ensures sh.socket in old(os.conns) ==>
      var conn := old(os.conns)[sh.socket];
      var r := Receive(c, key, conn.incoming);
      e == r.err && body == r.body && os.conns == old(os.conns)[sh.socket := conn.(incoming := r.rest)]
  {
    body := DEFAULT_BODY;
    var headerBytes, ok := sh.SocketRecv(os, HEADER_LENGTH);
    if !ok { return RECV_ERR, body; }
    var header := ParseHeader(headerBytes);
    if header.version != APP_VERSION { return RECV_ERR, body; }
    if header.bodyLen == 0 || header.bodyLen > MAX_BODY { return RECV_ERR, body; }
    var buffer;
    buffer, ok := sh.SocketRecv(os, header.bodyLen);
    if !ok { return RECV_ERR, body; }
    var plaintext := c.decrypt(buffer, key, header.iv);
    if plaintext == [] { return DECRYPT_ERR, body; }
    var mac := c.hmac(key, plaintext);
    if mac.None? { return MAC_CALC_ERR, body; }
    if mac.value != header.mac { return MAC_CHECK_ERR, body; }
    match Parse(plaintext) {
      case None => return PROTO_PARSE_ERR, body;
      case Some(m) => return SUCCESS, m;
    }
  }

  // ---- what the two ends agree on ----

  /** A message on its way: Package_send always sets a payload; the receiver accepts at most MAX_BODY octets. */
  datatype Sent = Sent(m: MsgBody, iv: Iv)

  predicate Sendable(c: Crypto, key: Key, x: Sent) {
    var n := |Ciphertext(c, key, x.m, x.iv)|;
    x.m.payload.Some? && c.hmac(key, Serialize(x.m)).Some? && 0 < n <= MAX_BODY
  }

  predicate AllSendable(c: Crypto, key: Key, xs: seq<Sent>) {
    forall x :: x in xs ==> Sendable(c, key, x)
  }

  function FrameOf(c: Crypto, key: Key, x: Sent): Text {
    Frame(c, key, x.m, x.iv)
  }

  /** Steps 3 to 6 of a receive: what is inside the ciphertext comes back out. */
  lemma CiphertextOpens(c: Crypto, key: Key, x: Sent)
    requires Lawful(c) && Sendable(c, key, x)
    ensures var plain := c.decrypt(Ciphertext(c, key, x.m, x.iv), key, x.iv);
      plain != [] && plain == Serialize(x.m) && Parse(plain) == Some(x.m)
  {
    SerializedIsNotEmpty(x.m);
    ParseOfSerialize(x.m);
  }

  lemma FrameIsReceived(c: Crypto, key: Key, x: Sent, rest: Text)
    requires Lawful(c) && Sendable(c, key, x)
    ensures Receive(c, key, FrameOf(c, key, x) + rest) == Received(SUCCESS, x.m, rest)
  {
    var h := HeaderOf(c, key, x.m, x.iv);
    var text := Ciphertext(c, key, x.m, x.iv);
    assert FrameOf(c, key, x) + rest == HeaderBytes(h) + (text + rest);
    assert Pull(HeaderBytes(h) + (text + rest), HEADER_LENGTH) == (HeaderBytes(h), text + rest, true);
    HeaderReadsBack(h);
    assert h.bodyLen == |text|;
    assert Pull(text + rest, |text|) == (text, rest, true);
    CiphertextOpens(c, key, x);
    hide HeaderBytes;
    hide ParseHeader;
    hide Ciphertext;
    hide Serialize;
    hide Parse;
    hide Pull;
    hide FrameOf;
  }

  /** A stream that ends anywhere inside a frame yields a receive error, never a message. */
  lemma CutFrameIsRefused(c: Crypto, key: Key, x: Sent, k: nat)
    requires Lawful(c) && Sendable(c, key, x) && k < |FrameOf(c, key, x)|
    ensures Receive(c, key, FrameOf(c, key, x)[..k]).err == RECV_ERR
  {
    var h := HeaderOf(c, key, x.m, x.iv);
    var text := Ciphertext(c, key, x.m, x.iv);
    var incoming := FrameOf(c, key, x)[..k];
    if k >= HEADER_LENGTH {
      assert incoming == HeaderBytes(h) + text[..k - HEADER_LENGTH];
      var p := Pull(incoming, HEADER_LENGTH);
      assert p.0 == HeaderBytes(h);
      HeaderReadsBack(h);
      assert h.bodyLen == |text|;
    }
  }

  // ---- streams nobody need have sent ----

  lemma HeaderIsPulled(h: Header, tail: Text)
    ensures Pull(HeaderBytes(h) + tail, HEADER_LENGTH) == (HeaderBytes(h), tail, true)
    ensures ParseHeader(HeaderBytes(h)) == h
  {
    HeaderReadsBack(h);
    hide HeaderBytes;
    hide ParseHeader;
    assert (HeaderBytes(h) + tail)[..HEADER_LENGTH] == HeaderBytes(h);
    assert (HeaderBytes(h) + tail)[HEADER_LENGTH..] == tail;
  }

  lemma BodyIsPulled(text: Text, rest: Text)
    requires |text| <= MAX_BODY
    ensures Pull(text + rest, |text|) == (text, rest, true)
  {
    assert (text + rest)[..|text|] == text && (text + rest)[|text|..] == rest;
  }

  /**
   * Any header and as many octets as it announces, genuine or not: which error each failing check gives, in the order
   * of the checks, and where the stream is left.
   */
  lemma ReceiveAnswers(c: Crypto, key: Key, h: Header, text: Text, rest: Text)
    requires h.bodyLen == |text|
    ensures var r := Receive(c, key, HeaderBytes(h) + (text + rest));
      var plain := c.decrypt(text, key, h.iv);
      var accepted := h.version == 1 && 0 < |text| <= 16_777_216;
      && (!accepted ==> r == Received(RECV_ERR, DEFAULT_BODY, text + rest))
      && (accepted ==> r.rest == rest)
      && (accepted && plain == [] ==> r.err == DECRYPT_ERR)
      && (accepted && plain != [] && c.hmac(key, plain).None? ==> r.err == MAC_CALC_ERR)
      && (accepted && plain != [] && c.hmac(key, plain).Some? && c.hmac(key, plain) != Some(h.mac) ==>
            r.err == MAC_CHECK_ERR)
      && (accepted && plain != [] && c.hmac(key, plain) == Some(h.mac) && Parse(plain).None? ==>
            r.err == PROTO_PARSE_ERR)
      && (r.err != SUCCESS ==> r.body == DEFAULT_BODY)
  {
    HeaderIsPulled(h, text + rest);
    if 0 < |text| <= MAX_BODY { BodyIsPulled(text, rest); }
    hide HeaderBytes;
    hide ParseHeader;
    hide Parse;
    hide Pull;
  }

  /** And exactly what decrypts, carries the code of its plaintext and parses is received, as what it parses to. */
  lemma AuthenticIsReceived(c: Crypto, key: Key, h: Header, text: Text, rest: Text)
    requires h.bodyLen == |text|
    ensures var r := Receive(c, key, HeaderBytes(h) + (text + rest));
      var plain := c.decrypt(text, key, h.iv);
      && (r.err == SUCCESS <==>
            && h.version == 1 && 0 < |text| <= 16_777_216 && plain != []
            && c.hmac(key, plain) == Some(h.mac) && Parse(plain).Some?)
      && (r.err == SUCCESS ==> r == Received(SUCCESS, Parse(plain).value, rest))
  {
    HeaderIsPulled(h, text + rest);
    if 0 < |text| <= MAX_BODY { BodyIsPulled(text, rest); }
    hide HeaderBytes;
    hide ParseHeader;
    hide Parse;
    hide Pull;
  }

  /** A stream that ends inside the header, or with fewer octets than the header announces, gives no message. */
  lemma ShortStreamIsRefused(c: Crypto, key: Key, h: Header, tail: Text, k: nat)
    requires k < HEADER_LENGTH
    ensures Receive(c, key, HeaderBytes(h)[..k]).err == RECV_ERR
    ensures |tail| < h.bodyLen ==> Receive(c, key, HeaderBytes(h) + tail).err == RECV_ERR
  {
    HeaderIsPulled(h, tail);
    hide HeaderBytes;
    hide ParseHeader;
    hide Parse;
  }

  /** A genuine frame whose code was changed on the way. */
  lemma AlteredCodeIsRefused(c: Crypto, key: Key, x: Sent, mac: Mac, rest: Text)
    requires Lawful(c) && Sendable(c, key, x) && Some(mac) != c.hmac(key, Serialize(x.m))
    ensures var h := HeaderOf(c, key, x.m, x.iv).(mac := mac);
      Receive(c, key, HeaderBytes(h) + (Ciphertext(c, key, x.m, x.iv) + rest)) ==
          Received(MAC_CHECK_ERR, DEFAULT_BODY, rest)
  {
    hide Receive;
    hide HeaderBytes;
    hide Serialize;
    hide Parse;
    CiphertextOpens(c, key, x);
    ReceiveAnswers(c, key, HeaderOf(c, key, x.m, x.iv).(mac := mac), Ciphertext(c, key, x.m, x.iv), rest);
  }

  /** A genuine frame of another version: refused before its body is read. */
  lemma OtherVersionIsRefused(c: Crypto, key: Key, x: Sent, version: uint32, rest: Text)
    requires Sendable(c, key, x) && version != 1
    ensures var h := HeaderOf(c, key, x.m, x.iv).(version := version);
      var text := Ciphertext(c, key, x.m, x.iv);
      Receive(c, key, HeaderBytes(h) + (text + rest)) == Received(RECV_ERR, DEFAULT_BODY, text + rest)
  {
    hide Receive;
    hide HeaderBytes;
    hide Serialize;
    hide Parse;
    ReceiveAnswers(c, key, HeaderOf(c, key, x.m, x.iv).(version := version), Ciphertext(c, key, x.m, x.iv), rest);
  }

  /** How a send ends: exactly when with which error, and when with success; what fails before sending sends nothing. */
  lemma SendAnswers(c: Crypto, key: Key, conn: Conn, m: MsgBody, iv: Option<Iv>)
    ensures var r := SendOver(c, key, conn, m, iv);
      var coded := c.hmac(key, Serialize(m)).Some?;
      var text := if iv.Some? then Ciphertext(c, key, m, iv.value) else [];
      && (r.1 == MAC_CALC_ERR <==> !coded)
      && (r.1 == IV_CALC_ERR <==> coded && iv.None?)
      && (r.1 == ENCRYPT_ERR <==> coded && iv.Some? && text == [])
      && (r.1 == SUCCESS <==> coded && iv.Some? && 0 < |text| <= INT_MAX && 56 + |text| <= conn.room)
      && (r.1 in {MAC_CALC_ERR, IV_CALC_ERR, ENCRYPT_ERR, SUCCESS, SEND_ERR})
      && (!coded || iv.None? || text == [] ==> r.0 == conn)
  {
    if iv.Some? {
      hide HeaderOf;
      hide HeaderBytes;
      hide Ciphertext;
      hide Serialize;
    }
  }

  // ---- bodies beyond the receiver's limit ----

  /** A body the receiver finds too long: refused after the header, with the whole body still in the stream. */
  lemma LargeFrameIsRefused(c: Crypto, key: Key, x: Sent, rest: Text)
    requires MAX_BODY < |Ciphertext(c, key, x.m, x.iv)| < 0x1_0000_0000
    ensures Receive(c, key, FrameOf(c, key, x) + rest) ==
        Received(RECV_ERR, DEFAULT_BODY, Ciphertext(c, key, x.m, x.iv) + rest)
  {
    var h := HeaderOf(c, key, x.m, x.iv);
    var text := Ciphertext(c, key, x.m, x.iv);
    assert FrameOf(c, key, x) + rest == HeaderBytes(h) + (text + rest);
    assert Pull(HeaderBytes(h) + (text + rest), HEADER_LENGTH) == (HeaderBytes(h), text + rest, true);
    HeaderReadsBack(h);
  }

  /** A send that succeeds has put exactly one frame on the wire, with a body that fits an int. */
  lemma SuccessfulSend(c: Crypto, key: Key, conn: Conn, x: Sent)
    requires SendOver(c, key, conn, x.m, Some(x.iv)).1 == SUCCESS
    ensures SendOver(c, key, conn, x.m, Some(x.iv)).0.outgoing == conn.outgoing + FrameOf(c, key, x)
    ensures 0 < |Ciphertext(c, key, x.m, x.iv)| <= INT_MAX && c.hmac(key, Serialize(x.m)).Some?
  {
    var header, text := HeaderBytes(HeaderOf(c, key, x.m, x.iv)), Ciphertext(c, key, x.m, x.iv);
    assert conn.outgoing + header + text == conn.outgoing + (header + text);
    hide HeaderOf;
    hide HeaderBytes;
    hide Ciphertext;
  }

  /**
   * Package_send does not look at the size, so it can report success for a message that is never received: a message
   * sent with success is received if and only if its ciphertext has at most MAX_BODY octets. When it has more, the
   * receiver stops at the first octet of the body, and everything behind is lost with it.
   */
  lemma SentIsReceivedIfSmall(c: Crypto, key: Key, conn: Conn, x: Sent, rest: Text)
    requires Lawful(c) && x.m.payload.Some? && SendOver(c, key, conn, x.m, Some(x.iv)).1 == SUCCESS
    ensures var r := Receive(c, key, FrameOf(c, key, x) + rest);
      var n := |Ciphertext(c, key, x.m, x.iv)|;
      && (r == Received(SUCCESS, x.m, rest) <==> n <= MAX_BODY)
      && (r.err == SUCCESS <==> n <= MAX_BODY)
      && (n > MAX_BODY ==> r == Received(RECV_ERR, DEFAULT_BODY, Ciphertext(c, key, x.m, x.iv) + rest))
  {
    SuccessfulSend(c, key, conn, x);
    hide Receive;
    hide FrameOf;
    hide SendOver;
    if |Ciphertext(c, key, x.m, x.iv)| <= MAX_BODY {
      FrameIsReceived(c, key, x, rest);
    } else {
      LargeFrameIsRefused(c, key, x, rest);
    }
  }

  /**
   * The largest payload that any encryption of this kind could still bring over is below MAX_BODY: one longer field is
   * lost.
   */
  lemma LongFieldIsLost(c: Crypto, key: Key, conn: Conn, cmd: uint32, id: uint32, now: uint32, field: Text, iv: Iv,
      rest: Text)
    requires Lawful(c) && |field| >= MAX_BODY
    requires SendOver(c, key, conn, MsgBody(cmd, id, now, Some([field])), Some(iv)).1 == SUCCESS
    ensures var x := Sent(MsgBody(cmd, id, now, Some([field])), iv);
      Receive(c, key, FrameOf(c, key, x) + rest).err == RECV_ERR
  {
    var x := Sent(MsgBody(cmd, id, now, Some([field])), iv);
    FieldIsInside(cmd, id, now, field);
    SuccessfulSend(c, key, conn, x);
    SentIsReceivedIfSmall(c, key, conn, x, rest);
    hide Receive;
    hide FrameOf;
    hide SendOver;
    hide Serialize;
  }

  lemma FieldIsInside(cmd: uint32, id: uint32, now: uint32, field: Text)
    ensures |Serialize(MsgBody(cmd, id, now, Some([field])))| >= |field|
  {
    assert SerializePayload([field]) == Delimited(0x0A, field) + SerializePayload([field][1..]);
  }

  /** And such a send does succeed, with an encryption that meets the laws and a connection with room for the frame. */
  lemma LongFieldIsSent(mac: Mac, key: Key, conn: Conn, cmd: uint32, id: uint32, now: uint32, field: Text, iv: Iv)
    requires var text := Serialize(MsgBody(cmd, id, now, Some([field])));
      |text| < INT_MAX && conn.room >= HEADER_LENGTH + |text| + 1
    ensures SendOver(Padding(mac), key, conn, MsgBody(cmd, id, now, Some([field])), Some(iv)).1 == SUCCESS
  {
    var c := Padding(mac);
    var m := MsgBody(cmd, id, now, Some([field]));
    PushTwice(conn, HeaderBytes(HeaderOf(c, key, m, iv)), Ciphertext(c, key, m, iv));
    hide HeaderOf;
    hide HeaderBytes;
    hide Serialize;
  }

  // ---- sequences of messages ----

  function Wire(c: Crypto, key: Key, xs: seq<Sent>): Text {
    if xs == [] then [] else FrameOf(c, key, xs[0]) + Wire(c, key, xs[1..])
  }

  function Bodies(xs: seq<Sent>): (r: seq<MsgBody>)
    ensures |r| == |xs|
  {
    if xs == [] then [] else [xs[0].m] + Bodies(xs[1..])
  }

  /** Package_receive again and again until it fails. */
  function ReceiveAll(c: Crypto, key: Key, incoming: Text): (seq<MsgBody>, ErrorCode)
    decreases |incoming|
  {
    var r := Receive(c, key, incoming);
    if r.err != SUCCESS then ([], r.err)
    else
      var more := ReceiveAll(c, key, r.rest);
      ([r.body] + more.0, more.1)
  }

  lemma ReceiveAllStep(c: Crypto, key: Key, x: Sent, rest: Text)
    requires Lawful(c) && Sendable(c, key, x)
    ensures var more := ReceiveAll(c, key, rest);
      ReceiveAll(c, key, FrameOf(c, key, x) + rest) == ([x.m] + more.0, more.1)
  {
    FrameIsReceived(c, key, x, rest);
  }

  /**
   * Lossless and prefix-safe: whatever was sent whole is received, in order and once,
   * and a tail that stops short of a whole frame (possibly at its very start) is never turned into a message.
   */
  lemma {:induction false} FramingIsLossless(c: Crypto, key: Key, xs: seq<Sent>, last: Sent, k: nat)
    requires Lawful(c) && AllSendable(c, key, xs) && Sendable(c, key, last) && k < |FrameOf(c, key, last)|
    ensures ReceiveAll(c, key, Wire(c, key, xs) + FrameOf(c, key, last)[..k]) == (Bodies(xs), RECV_ERR)
  {
    hide Receive;
    hide FrameOf;
    var tail := FrameOf(c, key, last)[..k];
    if xs == [] {
      assert Wire(c, key, xs) + tail == tail;
      CutFrameIsRefused(c, key, last, k);
    } else {
      var rest := Wire(c, key, xs[1..]) + tail;
      assert Wire(c, key, xs) + tail == FrameOf(c, key, xs[0]) + rest;
      ReceiveAllStep(c, key, xs[0], rest);
      FramingIsLossless(c, key, xs[1..], last, k);
    }
  }

  /**
   * A send succeeds exactly when there is room for the frame, and appends it; otherwise a part of it is left behind.
   */
  lemma SendAppendsFrame(c: Crypto, key: Key, conn: Conn, x: Sent)
    requires Sendable(c, key, x)
    ensures var r := SendOver(c, key, conn, x.m, Some(x.iv));
      var frame := FrameOf(c, key, x);
      var fits := conn.room >= |frame|;
      && (r.1 == SUCCESS <==> fits)
      && (fits ==> r.0 == conn.(room := conn.room - |frame|, outgoing := conn.outgoing + frame))
      && (!fits ==> r.0 == conn.(room := 0, outgoing := conn.outgoing + frame[..conn.room]))
  {
    PushTwice(conn, HeaderBytes(HeaderOf(c, key, x.m, x.iv)), Ciphertext(c, key, x.m, x.iv));
  }
}
