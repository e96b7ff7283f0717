/**
 * The body of a message, in the proto3 wire format: MsgBody has three uint32 fields (tags 0x08, 0x10, 0x18)
 * and an optional Payload sub-message (tag 0x22), which is a list of byte strings (tag 0x0A).
 */
module MessagePb {
  import opened Bytes

  type uint32 = n: nat | n < 0x1_0000_0000

  datatype MsgBody = MsgBody(cmdType: uint32, reqId: uint32, timestamp: uint32, payload: Option<seq<Text>>) {
    /** payload().json(): the empty list when no payload was ever set. */
    function Fields(): seq<Text> {
      if payload.Some? then payload.value else []
    }
  }

  const DEFAULT_BODY := MsgBody(0, 0, 0, None)

  function Varint(n: nat): (s: Text)
    ensures s != []
  {
    if n < 128 then [n as byte] else [(128 + n % 128) as byte] + Varint(n / 128)
  }

  /** Reads at most room octets. */
  function ReadVarint(s: Text, room: nat): (r: Option<(nat, Text)>)
    ensures r.Some? ==> |r.value.1| < |s|
  {
    if s == [] || room == 0 then None
    else if s[0] < 128 then Some((s[0] as int, s[1..]))
    else match ReadVarint(s[1..], room - 1)
      case None => None
      case Some(p) => Some((s[0] as int - 128 + 128 * p.0, p.1))
  }

  const VARINT_ROOM := 10

  function Delimited(tag: byte, s: Text): Text {
    [tag] + Varint(|s|) + s
  }

  /** A length prefix and that many octets. */
  function ReadDelimited(s: Text): (r: Option<(Text, Text)>)
    ensures r.Some? ==> |r.value.1| < |s|
  {
    match ReadVarint(s, VARINT_ROOM)
    case None => None
    case Some(p) => if p.0 > |p.1| then None else Some((p.1[..p.0], p.1[p.0..]))
  }

  /** Skips the value of a field this version does not know; the wire type is in the low three bits. */
  function SkipValue(tag: nat, s: Text): (r: Option<Text>)
    ensures r.Some? ==> |r.value| <= |s|
  {
    if tag / 8 == 0 then None
    else if tag % 8 == 0 then (match ReadVarint(s, VARINT_ROOM) case None => None case Some(p) => Some(p.1))
    else if tag % 8 == 1 then (if |s| < 8 then None else Some(s[8..]))
    else if tag % 8 == 2 then (match ReadDelimited(s) case None => None case Some(p) => Some(p.1))
    else if tag % 8 == 5 then (if |s| < 4 then None else Some(s[4..]))
    else None
  }

  function ScalarField(tag: byte, v: uint32): Text {
    if v == 0 then [] else [tag] + Varint(v)
  }

  function SerializePayload(fields: seq<Text>): Text {
    if fields == [] then [] else Delimited(0x0A, fields[0]) + SerializePayload(fields[1..])
  }

  function Serialize(m: MsgBody): Text {
    ScalarField(0x08, m.cmdType) + (ScalarField(0x10, m.reqId) + (ScalarField(0x18, m.timestamp)
      + (if m.payload.None? then [] else Delimited(0x22, SerializePayload(m.payload.value)))))
  }

  /** Fields may come in any order; a byte string is appended to those already read. */
  function ParsePayload(s: Text, acc: seq<Text>): Option<seq<Text>>
    decreases |s|
  {
    if s == [] then Some(acc) else
      match ReadVarint(s, VARINT_ROOM)
      case None => None
      case Some(t) =>
        if t.0 == 0x0A then
          match ReadDelimited(t.1)
          case None => None
          case Some(d) => ParsePayload(d.1, acc + [d.0])
        else
          match SkipValue(t.0, t.1)
          case None => None
          case Some(rest) => ParsePayload(rest, acc)
  }

  /** Scalars: the last occurrence wins. Sub-message: occurrences are merged. */
  function ParseBody(s: Text, acc: MsgBody): Option<MsgBody>
    decreases |s|
  {
    if s == [] then Some(acc) else
      match ReadVarint(s, VARINT_ROOM)
      case None => None
      case Some(t) =>
        if t.0 == 0x08 || t.0 == 0x10 || t.0 == 0x18 then
          match ReadVarint(t.1, VARINT_ROOM)
          case None => None
          case Some(v) =>
            var n: uint32 := v.0 % 0x1_0000_0000;
            ParseBody(v.1, if t.0 == 0x08 then acc.(cmdType := n)
                           else if t.0 == 0x10 then acc.(reqId := n) else acc.(timestamp := n))
        else if t.0 == 0x22 then
          match ReadDelimited(t.1)
          case None => None
          case Some(d) =>
            match ParsePayload(d.0, acc.Fields())
            case None => None
            case Some(fields) => ParseBody(d.1, acc.(payload := Some(fields)))
        else
          match SkipValue(t.0, t.1)
          case None => None
          case Some(rest) => ParseBody(rest, acc)
  }

  /** ParseFromArray. */
  function Parse(s: Text): Option<MsgBody> {
    ParseBody(s, DEFAULT_BODY)
  }

  // ---- reading back what was written ----

  function Bound(room: nat): nat {
    if room == 0 then 1 else 128 * Bound(room - 1)
  }

  lemma SeptetSplit(n: nat, b: nat)
    requires n < 128 * b
    ensures n / 128 < b && n == n % 128 + 128 * (n / 128)
  {
  }

  lemma {:induction false} VarintReadsBack(n: nat, rest: Text, room: nat)
    requires room > 0 && n < Bound(room)
    ensures ReadVarint(Varint(n) + rest, room) == Some((n, rest))
  {
    if n < 128 {
      assert (Varint(n) + rest)[1..] == rest;
    } else {
      BoundShrinks(n, room);
      hide Bound;
      VarintReadsBack(n / 128, rest, room - 1);
      VarintStep(n, rest, room);
      hide Varint;
      hide ReadVarint;
    }
  }

  lemma BoundShrinks(n: nat, room: nat)
    requires room > 0 && 128 <= n < Bound(room)
    ensures room > 1 && n / 128 < Bound(room - 1)
  {
    assert Bound(1) == 128;
    assert Bound(room) == 128 * Bound(room - 1);
    SeptetSplit(n, Bound(room - 1));
    hide Bound;
  }

  /** One more septet in front. */
  lemma VarintStep(n: nat, rest: Text, room: nat)
    requires n >= 128 && room > 1 && ReadVarint(Varint(n / 128) + rest, room - 1) == Some((n / 128, rest))
    ensures ReadVarint(Varint(n) + rest, room) == Some((n, rest))
  {
    var s := Varint(n) + rest;
    assert s[0] == (128 + n % 128) as byte;
    assert s[1..] == Varint(n / 128) + rest;
    hide Varint;
  }

  lemma TenSeptets()
    ensures Bound(10) > 0x1_0000_0000_0000_0000
  {
    assert Bound(3) == 2097152;
    assert Bound(5) == 128 * (128 * Bound(3));
    assert Bound(7) == 128 * (128 * Bound(5));
    assert Bound(9) == 128 * (128 * Bound(7));
  }

  /** Lengths and values the format can carry: below 2^32, well inside ten septets. */
  lemma ReadsBack(n: nat, rest: Text)
    requires n < 0x1_0000_0000
    ensures ReadVarint(Varint(n) + rest, VARINT_ROOM) == Some((n, rest))
  {
    TenSeptets();
    VarintReadsBack(n, rest, VARINT_ROOM);
  }

  lemma TagReadsBack(tag: byte, rest: Text)
    requires tag < 128
    ensures ReadVarint([tag] + rest, VARINT_ROOM) == Some((tag as int, rest))
  {
    assert ([tag] + rest)[1..] == rest;
  }

  lemma DelimitedReadsBack(tag: byte, s: Text, rest: Text)
    requires tag < 128 && |s| < 0x1_0000_0000
    ensures ReadVarint(Delimited(tag, s) + rest, VARINT_ROOM) == Some((tag as int, Varint(|s|) + s + rest))
    ensures ReadDelimited(Varint(|s|) + s + rest) == Some((s, rest))
  {
    assert Delimited(tag, s) + rest == [tag] + (Varint(|s|) + s + rest);
    TagReadsBack(tag, Varint(|s|) + s + rest);
    assert Varint(|s|) + s + rest == Varint(|s|) + (s + rest);
    ReadsBack(|s|, s + rest);
    assert (s + rest)[..|s|] == s && (s + rest)[|s|..] == rest;
  }

  lemma ByteStringStep(f: Text, rest: Text, acc: seq<Text>)
    requires |f| < 0x1_0000_0000
    ensures ParsePayload(Delimited(0x0A, f) + rest, acc) == ParsePayload(rest, acc + [f])
  {
    DelimitedReadsBack(0x0A, f, rest);
  }

  lemma PayloadStep(fields: seq<Text>, acc: MsgBody)
    requires |SerializePayload(fields)| < 0x1_0000_0000 && acc.payload.None?
    ensures ParseBody(Delimited(0x22, SerializePayload(fields)), acc) == Some(acc.(payload := Some(fields)))
  {
    PayloadsAreMerged(fields, [], acc);
    assert Delimited(0x22, SerializePayload(fields)) + [] == Delimited(0x22, SerializePayload(fields));
    assert [] + fields == fields;
  }

  lemma NothingToParse(acc: seq<Text>)
    ensures ParsePayload([], acc) == Some(acc)
  {
  }

  lemma {:induction false} PayloadReadsBack(fields: seq<Text>, acc: seq<Text>)
    requires |SerializePayload(fields)| < 0x1_0000_0000
    ensures ParsePayload(SerializePayload(fields), acc) == Some(acc + fields)
  {
    hide ParsePayload;
    if fields == [] {
      assert acc + fields == acc;
      NothingToParse(acc);
    } else {
      var rest := SerializePayload(fields[1..]);
      assert |Delimited(0x0A, fields[0])| > |fields[0]|;
      ByteStringStep(fields[0], rest, acc);
      PayloadReadsBack(fields[1..], acc + [fields[0]]);
      assert (acc + [fields[0]]) + fields[1..] == acc + fields;
    }
  }

  lemma ScalarReadsBack(tag: byte, v: uint32, rest: Text, acc: MsgBody)
    requires tag in {0x08, 0x10, 0x18}
    ensures ParseBody(ScalarField(tag, v) + rest, acc) ==
            ParseBody(rest, if v == 0 then acc else if tag == 0x08 then acc.(cmdType := v)
                            else if tag == 0x10 then acc.(reqId := v) else acc.(timestamp := v))
  {
    hide ReadVarint;
    hide SkipValue;
    hide ParsePayload;
    hide ReadDelimited;
    if v == 0 {
      assert ScalarField(tag, v) + rest == rest;
    } else {

      assert ScalarField(tag, v) + rest == [tag] + (Varint(v) + rest);
      TagReadsBack(tag, Varint(v) + rest);
      ReadsBack(v, rest);
    }
  }

  /** A field with a number this version does not know is passed over, whatever its value, wherever it stands. */
  lemma UnknownFieldIsSkipped(tag: byte, v: nat, s: Text, rest: Text, acc: MsgBody)
    requires 32 < tag as int < 128 && tag as int / 8 > 4 && v < 0x1_0000_0000 && |s| < 0x1_0000_0000
    ensures tag % 8 == 0 ==> ParseBody([tag] + (Varint(v) + rest), acc) == ParseBody(rest, acc)
    ensures tag % 8 == 1 && |s| == 8 ==> ParseBody([tag] + (s + rest), acc) == ParseBody(rest, acc)
    ensures tag % 8 == 2 ==> ParseBody(Delimited(tag, s) + rest, acc) == ParseBody(rest, acc)
    ensures tag % 8 == 5 && |s| == 4 ==> ParseBody([tag] + (s + rest), acc) == ParseBody(rest, acc)
  {
    TagReadsBack(tag, Varint(v) + rest);
    TagReadsBack(tag, s + rest);
    ReadsBack(v, rest);
    DelimitedReadsBack(tag, s, rest);
    assert (s + rest)[|s|..] == rest;
    hide ReadVarint;
    hide ReadDelimited;
    hide Varint;
    hide Delimited;
    hide ParsePayload;
  }

  /** Numbers go seven bits at a time, the low ones first, with the top bit set on all octets but the last. */
  lemma VarintOctets(n: nat)
    ensures n < 128 ==> Varint(n) == [n as byte]
    ensures 128 <= n < 16384 ==> Varint(n) == [(128 + n % 128) as byte, (n / 128) as byte]
    ensures 16384 <= n < 2097152 ==>
      Varint(n) == [(128 + n % 128) as byte, (128 + n / 128 % 128) as byte, (n / 16384) as byte]
  {
    assert n >= 128 ==> Varint(n) == [(128 + n % 128) as byte] + Varint(n / 128);
    assert n >= 16384 ==> Varint(n / 128) == [(128 + n / 128 % 128) as byte] + Varint(n / 128 / 128);
    assert n / 128 / 128 == n / 16384;
  }

  /** The octets of a small message with one short field, as any implementation of the format writes them. */
  lemma SmallMessageOctets(cmd: byte, id: byte, now: byte, field: Text)
    requires 0 < cmd < 128 && 0 < id < 128 && 0 < now < 128 && |field| < 126
    ensures Serialize(MsgBody(cmd as int, id as int, now as int, Some([field]))) ==
      [0x08, cmd, 0x10, id, 0x18, now, 0x22, (|field| + 2) as byte, 0x0A, |field| as byte] + field
  {
    assert SerializePayload([field]) == Delimited(0x0A, field) + SerializePayload([field][1..]);
    assert SerializePayload([field]) == [0x0A, |field| as byte] + field;
  }

  /** Of a scalar given twice the last counts. */
  lemma LastScalarCounts(tag: byte, v: uint32, w: uint32, rest: Text, acc: MsgBody)
    requires tag in {0x08, 0x10, 0x18} && v != 0 && w != 0
    ensures ParseBody(ScalarField(tag, v) + (ScalarField(tag, w) + rest), acc) ==
      ParseBody(ScalarField(tag, w) + rest, acc)
  {
    ScalarReadsBack(tag, v, ScalarField(tag, w) + rest, acc);
    ScalarReadsBack(tag, w, rest, acc);
    ScalarReadsBack(tag, w, rest, if tag == 0x08 then acc.(cmdType := v)
                                  else if tag == 0x10 then acc.(reqId := v) else acc.(timestamp := v));
    hide ParseBody;
    hide ScalarField;
  }

  /** A number beyond 32 bits counts modulo 2^32. */
  lemma WideScalarIsCut(tag: byte, v: nat, rest: Text, acc: MsgBody)
    requires tag in {0x08, 0x10, 0x18} && v < 0x1_0000_0000_0000_0000
    ensures var n: uint32 := v % 0x1_0000_0000;
      ParseBody([tag] + (Varint(v) + rest), acc) ==
        ParseBody(rest, if tag == 0x08 then acc.(cmdType := n)
                        else if tag == 0x10 then acc.(reqId := n) else acc.(timestamp := n))
  {
    hide SkipValue;
    hide ParsePayload;
    hide ReadDelimited;
    TagReadsBack(tag, Varint(v) + rest);
    TenSeptets();
    VarintReadsBack(v, rest, VARINT_ROOM);
    hide ReadVarint;
    hide Varint;
    hide Bound;
  }

  /** A payload given in several parts is the parts put together. */
  lemma PayloadsAreMerged(fields: seq<Text>, rest: Text, acc: MsgBody)
    requires |SerializePayload(fields)| < 0x1_0000_0000
    ensures ParseBody(Delimited(0x22, SerializePayload(fields)) + rest, acc) ==
      ParseBody(rest, acc.(payload := Some((if acc.payload.Some? then acc.payload.value else []) + fields)))
  {
    var p := SerializePayload(fields);
    DelimitedReadsBack(0x22, p, rest);
    PayloadReadsBack(fields, acc.Fields());
    hide ParsePayload;
    hide SerializePayload;
    hide ReadVarint;
    hide ReadDelimited;
    hide SkipValue;
  }

  /** parse(serialize(m)) == m, for every body a four-byte length can describe. */
  lemma ParseOfSerialize(m: MsgBody)
    requires |Serialize(m)| < 0x1_0000_0000
    ensures Parse(Serialize(m)) == Some(m)
  {
    var tail := if m.payload.None? then [] else Delimited(0x22, SerializePayload(m.payload.value));
    var s3 := ScalarField(0x18, m.timestamp) + tail;
    var s2 := ScalarField(0x10, m.reqId) + s3;
    ScalarReadsBack(0x08, m.cmdType, s2, DEFAULT_BODY);
    var a1 := DEFAULT_BODY.(cmdType := m.cmdType);
    ScalarReadsBack(0x10, m.reqId, s3, a1);
    var a2 := a1.(reqId := m.reqId);
    ScalarReadsBack(0x18, m.timestamp, tail, a2);
    var a3 := a2.(timestamp := m.timestamp);
    if m.payload.Some? {
      assert |tail| > |SerializePayload(m.payload.value)|;
      PayloadStep(m.payload.value, a3);
    }
  }

  /** Both Package_send overloads call mutable_payload, so what they serialize is never empty. */
  lemma SerializedIsNotEmpty(m: MsgBody)
    ensures Serialize(m) == [] <==> m == DEFAULT_BODY
  {
  }
}
