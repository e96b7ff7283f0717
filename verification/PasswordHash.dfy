/** PasswordHash: pbkdf2$<iterations>$<salt in hex>$<derived key in hex>. */
module PasswordHash {
  import opened Bytes
  import opened Decimal

  const KEY_LENGTH := 32
  const SALT_LENGTH := 16
  const ITERATIONS := 120000

  type DerivedKey = k: Text | |k| == KEY_LENGTH witness seq(KEY_LENGTH, _ => 0)
  type Salt = s: Text | |s| == SALT_LENGTH witness seq(SALT_LENGTH, _ => 0)

  /** PBKDF2-HMAC-SHA256: password, salt, iteration count; None when the library reports failure. */
  type Kdf = (Text, Text, int) -> Option<DerivedKey>

  const PREFIX := Ascii("pbkdf2$")

  // ---- hexadecimal ----

  function HexDigit(n: nat): (b: byte)
    requires n < 16
    ensures HexValue(b) == Some(n) && b != DOLLAR
  {
    if n < 10 then (48 + n) as byte else (87 + n) as byte
  }

  function HexValue(b: byte): Option<nat> {
    if 48 <= b <= 57 then Some(b as int - 48)
    else if 97 <= b <= 102 then Some(b as int - 87)
    else if 65 <= b <= 70 then Some(b as int - 55)
    else None
  }

  /** Two lower-case digits an octet. */
  function Hex(data: Text): (r: Text)
    ensures DOLLAR !in r
  {
    if data == [] then []
    else Hex(data[..|data| - 1]) + [HexDigit(data[|data| - 1] as int / 16), HexDigit(data[|data| - 1] as int % 16)]
  }

  method ToHex(data: Text) returns (os: Text)
    ensures os == Hex(data)
  {
    os := [];
    for i := 0 to |data|
      invariant os == Hex(data[..i])
    {
      assert data[..i + 1][..i] == data[..i];
      os := os + [HexDigit(data[i] as int / 16), HexDigit(data[i] as int % 16)];
    }
    assert data[..|data|] == data;
  }

  /** The octets a hexadecimal text stands for: None for an odd length or a character that is no digit. */
  function FromHex(hex: Text): (r: Option<Text>)
    ensures r.Some? ==> 2 * |r.value| == |hex|
  {
    if hex == [] then Some([])
    else if |hex| == 1 then None
    else
      var n := |hex| - 2;
      match (FromHex(hex[..n]), HexValue(hex[n]), HexValue(hex[n + 1]))
      case (Some(front), Some(h), Some(l)) => Some(front + [(16 * h + l) as byte])
      case _ => None
  }

  lemma {:induction false} BadPairSpoilsAll(hex: Text, i: nat)
    requires 2 * i + 1 < |hex| && |hex| % 2 == 0
    requires HexValue(hex[2 * i]).None? || HexValue(hex[2 * i + 1]).None?
    ensures FromHex(hex).None?
  {
    var n := |hex| - 2;
    if 2 * i < n {
      BadPairSpoilsAll(hex[..n], i);
    }
  }

  lemma {:induction false} OddSpoilsAll(hex: Text)
    requires |hex| % 2 != 0
    ensures FromHex(hex).None?
  {
    if |hex| > 1 { OddSpoilsAll(hex[..|hex| - 2]); }
  }

  method ReadHex(hex: Text) returns (ok: bool, out: Text)
    ensures ok == FromHex(hex).Some?
    ensures ok ==> out == FromHex(hex).value
  {
    out := [];
    if |hex| % 2 != 0 { OddSpoilsAll(hex); return false, out; }
    var size := |hex| / 2;
    for i := 0 to size
      invariant FromHex(hex[..2 * i]) == Some(out)
    {
      var h, l := HexValue(hex[2 * i]), HexValue(hex[2 * i + 1]);
      if h.None? || l.None? { BadPairSpoilsAll(hex, i); return false, out; }
      assert hex[..2 * (i + 1)][..2 * i] == hex[..2 * i];
      out := out + [(16 * h.value + l.value) as byte];
    }
    assert hex[..2 * size] == hex;
    return true, out;
  }

  lemma PairReadsBack(hex: Text, front: Text, b: byte)
    requires FromHex(hex) == Some(front)
    ensures FromHex(hex + [HexDigit(b as int / 16), HexDigit(b as int % 16)]) == Some(front + [b])
  {
    var whole := hex + [HexDigit(b as int / 16), HexDigit(b as int % 16)];
    assert whole[..|whole| - 2] == hex;
  }

  lemma {:induction false} HexReadsBack(data: Text)
    ensures FromHex(Hex(data)) == Some(data)
  {
    if data != [] {
      var front, b := data[..|data| - 1], data[|data| - 1];
      HexReadsBack(front);
      PairReadsBack(Hex(front), front, b);
      assert Hex(data) == Hex(front) + [HexDigit(b as int / 16), HexDigit(b as int % 16)];
      assert front + [b] == data;
    }
  }

  // ---- comparing in constant time ----

  /** Bitwise exclusive or. */
  function Xor(a: nat, b: nat): nat
    decreases a + b
  {
    if a == 0 && b == 0 then 0 else (if a % 2 != b % 2 then 1 else 0) + 2 * Xor(a / 2, b / 2)
  }

  /** Bitwise or. */
  function Or(a: nat, b: nat): nat
    decreases a + b
  {
    if a == 0 && b == 0 then 0 else (if a % 2 != 0 || b % 2 != 0 then 1 else 0) + 2 * Or(a / 2, b / 2)
  }

  lemma {:induction false} XorVanishes(a: nat, b: nat)
    ensures Xor(a, b) == 0 <==> a == b
    decreases a + b
  {
    if a != 0 || b != 0 { XorVanishes(a / 2, b / 2); }
  }

  lemma {:induction false} OrVanishes(a: nat, b: nat)
    ensures Or(a, b) == 0 <==> a == 0 && b == 0
    decreases a + b
  {
    if a != 0 || b != 0 { OrVanishes(a / 2, b / 2); }
  }

  /** Looks at every octet whatever it finds, and still decides equality. */
  method ConstEq(a: Text, b: Text) returns (same: bool)
    ensures same <==> a == b
  {
    if |a| != |b| { return false; }
    var diff: nat := 0;
    for i := 0 to |a|
      invariant diff == 0 <==> a[..i] == b[..i]
    {
      OrVanishes(diff, Xor(a[i] as int, b[i] as int));
      XorVanishes(a[i] as int, b[i] as int);
      assert a[..i + 1] == a[..i] + [a[i]] && b[..i + 1] == b[..i] + [b[i]];
      diff := Or(diff, Xor(a[i] as int, b[i] as int));
    }
    assert a[..|a|] == a && b[..|b|] == b;
    return diff == 0;
  }

  // ---- make and verify ----

  predicate IsEncoded(s: Text) { PREFIX <= s }

  function Encode(iterations: int, salt: Text, key: Text): Text {
    PREFIX + ToText(iterations) + [DOLLAR] + Hex(salt) + [DOLLAR] + Hex(key)
  }

  /** The empty text reports failure: no random salt, or no derived key. */
  function Make(kdf: Kdf, password: Text, iterations: int, salt: Option<Salt>): Text {
    if salt.None? then []
    else match kdf(password, salt.value, iterations)
      case None => []
      case Some(key) => Encode(iterations, salt.value, key)
  }

  method MakeEncoding(kdf: Kdf, password: Text, iterations: int, salt: Option<Salt>) returns (os: Text)
    ensures os == Make(kdf, password, iterations, salt)
  {
    if salt.None? { return []; }
    var key := kdf(password, salt.value, iterations);
    if key.None? { return []; }
    var saltHex := ToHex(salt.value);
    var keyHex := ToHex(key.value);
    os := PREFIX + ToText(iterations) + [DOLLAR] + saltHex + [DOLLAR] + keyHex;
  }

  /** std::string::find for one character. */
  function Find(s: Text, b: byte, from: nat): (r: Option<nat>)
    ensures r.Some? ==> from <= r.value < |s| && s[r.value] == b && b !in s[from..r.value]
    ensures r.None? ==> from > |s| || b !in s[from..]
    decreases |s| - from
  {
    if from >= |s| then None else if s[from] == b then Some(from) else Find(s, b, from + 1)
  }

  datatype Encoded = Encoded(iterations: int, salt: Text, key: Text)

  /** The three parts of an encoding, if it has them. */
  function Decode(encoded: Text): Option<Encoded> {
    var p1 := Find(encoded, DOLLAR, 7);
    if !IsEncoded(encoded) || p1.None? then None else
    var p2 := Find(encoded, DOLLAR, p1.value + 1);
    if p2.None? then None else DecodeParts(encoded[7..p1.value], encoded[p1.value + 1..p2.value],
        encoded[p2.value + 1..])
  }

  function DecodeParts(iterations: Text, salt: Text, key: Text): Option<Encoded> {
    if Stoi(iterations).None? || FromHex(salt).None? || FromHex(key).None? then None
    else Some(Encoded(Stoi(iterations).value, FromHex(salt).value, FromHex(key).value))
  }

  predicate Accepts(kdf: Kdf, password: Text, e: Encoded) {
    && e.iterations > 0 && |e.key| == KEY_LENGTH
    && kdf(password, e.salt, e.iterations).Some? && kdf(password, e.salt, e.iterations).value == e.key
  }

  function Verify(kdf: Kdf, password: Text, encoded: Text): bool {
    Decode(encoded).Some? && Accepts(kdf, password, Decode(encoded).value)
  }

  method VerifyEncoding(kdf: Kdf, password: Text, encoded: Text) returns (ok: bool)
    ensures ok == Verify(kdf, password, encoded)
  {
    hide FromHex;
    hide Stoi;
    hide Find;
    if !IsEncoded(encoded) { return false; }
    var p1 := Find(encoded, DOLLAR, 7);
    if p1.None? { return false; }
    var p2 := Find(encoded, DOLLAR, p1.value + 1);
    if p2.None? { return false; }
    var iterText, saltText, keyText := encoded[7..p1.value], encoded[p1.value + 1..p2.value], encoded[p2.value + 1..];
    assert Decode(encoded) == DecodeParts(iterText, saltText, keyText);
    var iter := Stoi(iterText);
    if iter.None? || iter.value <= 0 { return false; }
    var saltOk, salt := ReadHex(saltText);
    if !saltOk { return false; }
    var wantedOk, wanted := ReadHex(keyText);
    if !wantedOk || |wanted| != KEY_LENGTH { return false; }
    var got := kdf(password, salt, iter.value);
    if got.None? { return false; }
    ok := ConstEq(got.value, wanted);
  }

  lemma {:induction false} FindFirst(s: Text, b: byte, from: nat, at: nat)
    requires from <= at < |s| && s[at] == b && forall i :: from <= i < at ==> s[i] != b
    ensures Find(s, b, from) == Some(at)
    decreases at - from
  {
    if from < at { FindFirst(s, b, from + 1, at); }
  }

  lemma FindAfter(s: Text, a: Text, b: Text, c: Text)
    requires s == a + b + [DOLLAR] + c && DOLLAR !in b
    ensures Find(s, DOLLAR, |a|) == Some(|a| + |b|)
  {
    forall i | |a| <= i < |a| + |b| ensures s[i] != DOLLAR {
      assert s[i] == b[i - |a|];
    }
    FindFirst(s, DOLLAR, |a|, |a| + |b|);
  }

  /** Where the two later dollar signs are, and what lies between them. */
  lemma PartsOfEncoding(d: Text, h: Text, k: Text)
    requires DOLLAR !in d && DOLLAR !in h
    ensures var s := PREFIX + d + [DOLLAR] + h + [DOLLAR] + k;
      IsEncoded(s) && Decode(s) == DecodeParts(d, h, k)
  {
    hide Find;
    hide DecodeParts;
    var s := PREFIX + d + [DOLLAR] + h + [DOLLAR] + k;
    var p1 := 7 + |d|;
    var p2 := p1 + 1 + |h|;
    assert s == PREFIX + d + [DOLLAR] + (h + [DOLLAR] + k);
    FindAfter(s, PREFIX, d, h + [DOLLAR] + k);
    FindAfter(s, PREFIX + d + [DOLLAR], h, k);
    assert s[7..p1] == d;
    assert s[p1 + 1..p2] == h;
    assert s[p2 + 1..] == k;
  }

  /** Taking an encoding apart gives back its three parts. */
  lemma DecodeOfEncode(iterations: int, salt: Text, key: Text)
    requires INT_MIN <= iterations <= INT_MAX
    ensures Decode(Encode(iterations, salt, key)) == Some(Encoded(iterations, salt, key))
  {
    PartsOfEncoding(ToText(iterations), Hex(salt), Hex(key));
    HexReadsBack(salt);
    HexReadsBack(key);
    StoiOfToText(iterations);
  }

  /** An encoding made from p accepts q exactly when the derivations of q and p agree. */
  lemma VerifyOfMake(kdf: Kdf, p: Text, q: Text, iterations: int, salt: Salt)
    requires INT_MIN <= iterations <= INT_MAX
    ensures Verify(kdf, q, Make(kdf, p, iterations, Some(salt))) <==>
            iterations > 0 && kdf(q, salt, iterations).Some? && kdf(q, salt, iterations) == kdf(p, salt, iterations)
  {
    if kdf(p, salt, iterations).Some? {
      DecodeOfEncode(iterations, salt, kdf(p, salt, iterations).value);
    }
  }

  /** Which texts are hexadecimal, and for which octets: pairs of digits, the high one first. */
  lemma {:induction false} FromHexMeans(hex: Text)
    ensures FromHex(hex).Some? <==> |hex| % 2 == 0 && forall i :: 0 <= i < |hex| ==> HexValue(hex[i]).Some?
    ensures FromHex(hex).Some? ==> forall i :: 0 <= i < |hex| / 2 ==>
      FromHex(hex).value[i] as int == 16 * HexValue(hex[2 * i]).value + HexValue(hex[2 * i + 1]).value
  {
    if |hex| >= 2 {
      var n := |hex| - 2;
      FromHexMeans(hex[..n]);
      assert forall i :: 0 <= i < n ==> hex[..n][i] == hex[i];
      assert |hex| / 2 == n / 2 + 1;
    }
  }

  function LowerCase(hex: Text): (r: Text)
    ensures |r| == |hex|
  {
    seq(|hex|, i requires 0 <= i < |hex| => if 65 <= hex[i] <= 90 then hex[i] + 32 else hex[i])
  }

  /** Capital digits count like small ones. */
  lemma {:induction false} CaseIsIgnored(hex: Text)
    ensures FromHex(LowerCase(hex)) == FromHex(hex)
  {
    if |hex| >= 2 {
      var n := |hex| - 2;
      CaseIsIgnored(hex[..n]);
      assert LowerCase(hex)[..n] == LowerCase(hex[..n]);
    }
  }

  /** A text in three parts behind the prefix is accepted exactly if they can be read and the derivation agrees. */
  lemma PartsAreVerified(kdf: Kdf, q: Text, d: Text, h: Text, k: Text)
    requires DOLLAR !in d && DOLLAR !in h
    ensures Verify(kdf, q, Ascii("pbkdf2$") + d + [DOLLAR] + h + [DOLLAR] + k) <==>
      && Stoi(d).Some? && Stoi(d).value > 0 && FromHex(h).Some? && FromHex(k).Some? && |FromHex(k).value| == 32
      && kdf(q, FromHex(h).value, Stoi(d).value).Some?
      && kdf(q, FromHex(h).value, Stoi(d).value).value == FromHex(k).value
  {
    PartsOfEncoding(d, h, k);
    hide Decode;
    hide FromHex;
    hide Stoi;
    hide Ascii;
  }

  /** And nothing is accepted that does not have them. */
  lemma AcceptedHasParts(kdf: Kdf, q: Text, s: Text) returns (d: Text, h: Text, k: Text)
    requires Verify(kdf, q, s)
    ensures DOLLAR !in d && DOLLAR !in h && s == Ascii("pbkdf2$") + d + [DOLLAR] + h + [DOLLAR] + k
  {
    hide FromHex;
    hide Stoi;
    hide Find;
    var p1 := Find(s, DOLLAR, 7).value;
    var p2 := Find(s, DOLLAR, p1 + 1).value;
    d, h, k := s[7..p1], s[p1 + 1..p2], s[p2 + 1..];
    assert s[..7] == PREFIX;
    assert s == s[..7] + s[7..p1] + [s[p1]] + s[p1 + 1..p2] + [s[p2]] + s[p2 + 1..];
  }

  lemma {:induction false} HexHasNoNul(data: Text)
    ensures Free(Hex(data), NUL)
  {
    if data != [] { HexHasNoNul(data[..|data| - 1]); }
  }

  /** What make produces can be bound as it is. */
  lemma MakeHasNoNul(kdf: Kdf, p: Text, iterations: int, salt: Option<Salt>)
    ensures Free(Make(kdf, p, iterations, salt), NUL)
  {
    if salt.Some? && kdf(p, salt.value, iterations).Some? {
      HexHasNoNul(salt.value);
      HexHasNoNul(kdf(p, salt.value, iterations).value);
      PrefixHasNoNul();
      hide Hex;
      hide ToText;
    }
  }

  lemma PrefixHasNoNul()
    ensures Free(PREFIX, NUL)
  {
  }

  /** Cutting at a NUL leaves an encoding an encoding. */
  lemma CutStaysEncoded(s: Text)
    requires IsEncoded(s)
    ensures IsEncoded(CString(s))
  {
    PrefixHasNoNul();
    PrefixSurvives(PREFIX, s);
  }

  lemma {:induction false} PrefixSurvives(a: Text, s: Text)
    requires Free(a, NUL) && a <= s
    ensures a <= CString(s)
  {
    if a != [] { PrefixSurvives(a[1..], s[1..]); }
  }

  /** What make produces, when it produces anything, is recognized as encoded. */
  lemma MakeIsEncoded(kdf: Kdf, p: Text, iterations: int, salt: Option<Salt>)
    ensures Make(kdf, p, iterations, salt) != [] ==> IsEncoded(Make(kdf, p, iterations, salt))
  {
  }
}
