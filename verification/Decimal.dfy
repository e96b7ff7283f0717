/** Decimal text: ostream << n and std::to_string on one side, std::stoi on the other. */
module Decimal {
  import opened Bytes

  predicate IsDigit(b: byte) { 48 <= b <= 57 }

  predicate AllDigits(s: Text) { forall i :: 0 <= i < |s| ==> IsDigit(s[i]) }

  function Digits(n: nat): (s: Text)
    ensures s != [] && AllDigits(s)
  {
    if n < 10 then [(48 + n) as byte] else Digits(n / 10) + [(48 + n % 10) as byte]
  }

  function ToText(n: int): (s: Text)
    ensures s != []
    ensures forall b :: b in s ==> IsDigit(b) || b == 45
  {
    if n < 0 then [45] + Digits(-n) else Digits(n)
  }

  function Value(s: Text): nat
    requires AllDigits(s)
  {
    if s == [] then 0 else 10 * Value(s[..|s| - 1]) + (s[|s| - 1] as int - 48)
  }

  lemma {:induction false} ValueOfDigits(n: nat)
    ensures Value(Digits(n)) == n
  {
    if n >= 10 {
      ValueOfDigits(n / 10);
      var d := [(48 + n % 10) as byte];
      assert (Digits(n / 10) + d)[..|Digits(n / 10) + d| - 1] == Digits(n / 10);
    }
  }

  predicate IsSpace(b: byte) { b == 32 || 9 <= b <= 13 }

  function SkipSpace(s: Text): (r: Text)
    ensures r == [] || !IsSpace(r[0])
  {
    if s != [] && IsSpace(s[0]) then SkipSpace(s[1..]) else s
  }

  /** The longest prefix made of digits. */
  function LeadingDigits(s: Text): (r: Text)
    ensures AllDigits(r) && r <= s
    ensures |r| < |s| ==> !IsDigit(s[|r|])
  {
    if s != [] && IsDigit(s[0]) then
      var rest := LeadingDigits(s[1..]);
      assert s == [s[0]] + s[1..];
      [s[0]] + rest
    else []
  }

  function AfterSign(s: Text): Text {
    if s != [] && (s[0] == 43 || s[0] == 45) then s[1..] else s
  }

  function AfterDigits(s: Text): Text { s[|LeadingDigits(s)|..] }

  predicate OnlySpace(s: Text) { SkipSpace(s) == [] }

  /** Nothing, or e, a sign perhaps, and digits; then blanks. */
  predicate EndsNumber(s: Text) {
    if s != [] && (s[0] == 101 || s[0] == 69) then
      var e := AfterSign(s[1..]);
      LeadingDigits(e) != [] && OnlySpace(AfterDigits(e))
    else OnlySpace(s)
  }

  /** An integer or real literal between blanks: what a column of numeric affinity stores as a number. */
  predicate LooksNumeric(s: Text) {
    var whole := AfterSign(SkipSpace(s));
    var rest := AfterDigits(whole);
    if rest != [] && rest[0] == 46 then
      (LeadingDigits(whole) != [] || LeadingDigits(rest[1..]) != []) && EndsNumber(AfterDigits(rest[1..]))
    else LeadingDigits(whole) != [] && EndsNumber(rest)
  }

  /** The value of an integer literal between blanks, if the text is one. */
  function IntegerIn(s: Text): Option<int> {
    var t := SkipSpace(s);
    var digits := LeadingDigits(AfterSign(t));
    if digits == [] || !OnlySpace(AfterDigits(AfterSign(t))) then None
    else Some(if t[0] == 45 then 0 - Value(digits) else Value(digits))
  }

  /** An integer literal that fits 64 bits. */
  predicate Whole(s: Text) {
    IntegerIn(s).Some? && -0x8000_0000_0000_0000 <= IntegerIn(s).value <= 0x7FFF_FFFF_FFFF_FFFF
  }

  lemma WholeLooksNumeric(s: Text)
    requires IntegerIn(s).Some?
    ensures LooksNumeric(s)
  {
    var rest := AfterDigits(AfterSign(SkipSpace(s)));
    assert rest != [] ==> IsSpace(rest[0]);
  }

  /** A number as it is printed: a zero, or digits that do not start with one, behind a minus sign perhaps. */
  predicate Printed(s: Text) {
    var digits := if s != [] && s[0] == 45 then s[1..] else s;
    s == [48] || (digits != [] && AllDigits(digits) && digits[0] != 48)
  }

  lemma TenTimes(v: nat, c: nat)
    requires c < 10
    ensures (10 * v + c) / 10 == v && (10 * v + c) % 10 == c
  {
  }

  lemma DigitsSnoc(v: nat, c: nat)
    requires v > 0 && c < 10
    ensures Digits(10 * v + c) == Digits(v) + [(48 + c) as byte]
  {
    TenTimes(v, c);
  }

  lemma {:induction false} DigitsOfValue(d: Text)
    requires AllDigits(d) && d != [] && d[0] != 48
    ensures Digits(Value(d)) == d && Value(d) > 0
  {
    var n := |d| - 1;
    assert d == d[..n] + [d[n]];
    if n > 0 {
      DigitsOfValue(d[..n]);
      DigitsSnoc(Value(d[..n]), d[n] as int - 48);
      hide Digits;
    } else {
      assert Value(d[..0]) == 0;
    }
  }

  lemma {:induction false} DigitsLead(n: nat)
    requires n > 0
    ensures Digits(n)[0] != 48
  {
    if n >= 10 { DigitsLead(n / 10); }
  }

  /** Exactly the printed texts are what their value is printed as. */
  lemma PrintedReadsBack(s: Text)
    ensures Printed(s) ==> IntegerIn(s).Some?
    ensures IntegerIn(s).Some? ==> (ToText(IntegerIn(s).value) == s <==> Printed(s))
  {
    if Printed(s) {
      PrintedValue(s);
    } else if IntegerIn(s).Some? {
      PrintedForm(IntegerIn(s).value);
    }
  }

  lemma PrintedForm(n: int)
    ensures Printed(ToText(n))
  {
    if n != 0 { DigitsLead(if n < 0 then -n else n); }
    if n < 0 { assert ToText(n)[1..] == Digits(-n); }
  }

  lemma DigitsAreRead(d: Text)
    requires AllDigits(d) && d != [] && (d == [48] || d[0] != 48)
    ensures LeadingDigits(d) == d && AfterDigits(d) == [] && OnlySpace([]) && Digits(Value(d)) == d
    ensures Value(d) > 0 || d == [48]
  {
    LeadingDigitsOfDigits(d);
    if d == [48] { assert Value(d[..0]) == 0; } else { DigitsOfValue(d); }
  }

  lemma PrintedValue(s: Text)
    requires Printed(s)
    ensures IntegerIn(s).Some? && ToText(IntegerIn(s).value) == s
  {
    assert SkipSpace(s) == s;
    hide SkipSpace;
    hide LeadingDigits;
    hide AfterDigits;
    hide OnlySpace;
    hide Digits;
    hide Value;
    if s[0] == 45 {
      DigitsAreRead(s[1..]);
      assert s == [45] + s[1..];
    } else {
      DigitsAreRead(s);
    }
  }

  /** std::stoi: None stands for either exception, nothing converted or out of range. */
  function Stoi(s: Text): Option<int> {
    var t := SkipSpace(s);
    var negative := t != [] && t[0] == 45;
    var u := if t != [] && (t[0] == 45 || t[0] == 43) then t[1..] else t;
    var digits := LeadingDigits(u);
    if digits == [] then None else
      var v: int := if negative then 0 - Value(digits) else Value(digits);
      if INT_MIN <= v <= INT_MAX then Some(v) else None
  }

  lemma {:induction false} SkipsSpace(a: Text, s: Text)
    requires (forall b :: b in a ==> IsSpace(b)) && (s == [] || !IsSpace(s[0]))
    ensures SkipSpace(a + s) == s
  {
    if a == [] {
      assert a + s == s;
    } else {
      assert (a + s)[1..] == a[1..] + s;
      SkipsSpace(a[1..], s);
    }
  }

  lemma LeadingDigitsOf(d: Text, rest: Text)
    requires AllDigits(d) && (rest == [] || !IsDigit(rest[0]))
    ensures LeadingDigits(d + rest) == d
  {
    var s := d + rest;
    assert s[..|d|] == d && (rest != [] ==> s[|d|] == rest[0]);
    assert |LeadingDigits(s)| == |d|;
  }

  lemma FirstIsNoSpace(sign: Text, digits: Text, rest: Text)
    requires sign in {[], [43], [45]} && AllDigits(digits)
    requires digits == [] && sign == [] ==> rest == [] || (!IsSpace(rest[0]) && rest[0] != 43 && rest[0] != 45)
    ensures var t := sign + (digits + rest);
      && (t == [] || !IsSpace(t[0]))
      && (sign == [] ==> t == digits + rest && (t == [] || (t[0] != 43 && t[0] != 45)))
      && (sign != [] ==> t[0] == sign[0] && t[1..] == digits + rest)
  {
    var t := sign + (digits + rest);
    if sign == [] {
      assert t == digits + rest;
      if digits != [] { assert t[0] == digits[0] && IsDigit(digits[0]); }
    }
  }

  /** Blanks, a sign perhaps, and digits are read up to whatever follows them; without digits there is no number. */
  lemma StoiReads(blanks: Text, sign: Text, digits: Text, rest: Text)
    requires (forall b :: b in blanks ==> IsSpace(b)) && sign in {[], [43], [45]} && AllDigits(digits)
    requires rest == [] || !IsDigit(rest[0])
    requires digits == [] && sign == [] ==> rest == [] || (!IsSpace(rest[0]) && rest[0] != 43 && rest[0] != 45)
    ensures var n := if sign == [45] then 0 - Value(digits) else Value(digits);
      Stoi(blanks + (sign + (digits + rest))) ==
        if digits != [] && INT_MIN <= n <= INT_MAX then Some(n) else None
  {
    hide SkipSpace;
    hide LeadingDigits;
    hide Value;
    hide AllDigits;
    var t := sign + (digits + rest);
    assert t == [] || !IsSpace(t[0]) by { FirstIsNoSpace(sign, digits, rest); }
    SkipsSpace(blanks, t);
    LeadingDigitsOf(digits, rest);
    assert (if t != [] && (t[0] == 45 || t[0] == 43) then t[1..] else t) == digits + rest by {
      FirstIsNoSpace(sign, digits, rest);
    }
  }

  lemma {:induction false} LeadingDigitsOfDigits(d: Text)
    requires AllDigits(d)
    ensures LeadingDigits(d) == d
  {
    var r := LeadingDigits(d);
    assert |r| == |d|;
    assert r == d;
  }

  /** std::stoi reads back exactly the ints std::to_string can be given, and throws on larger numbers. */
  lemma StoiOfToText(n: int)
    ensures Stoi(ToText(n)) == if INT_MIN <= n <= INT_MAX then Some(n) else None
  {
    var m: nat := if n < 0 then -n else n;
    var d := Digits(m);
    ValueOfDigits(m);
    LeadingDigitsOfDigits(d);
    assert IsDigit(d[0]);
    if n < 0 {
      assert ([45] + d)[1..] == d;
      assert SkipSpace(ToText(n)) == ToText(n);
    } else {
      assert SkipSpace(d) == d;
    }
  }
}
