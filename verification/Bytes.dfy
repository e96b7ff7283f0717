/** Octets and octet strings: what the system calls std::string, vector<u_char> and repeated bytes. */
module Bytes {

  newtype byte = b: int | 0 <= b < 256

  type Text = seq<byte>

  /** The bounds of int. */
  const INT_MAX := 0x7FFF_FFFF
  const INT_MIN := -0x8000_0000

  datatype Option<+T> = None | Some(value: T)

  /** A string literal of the program, as the octets the compiler stores for it. */
  function Ascii(s: string): (t: Text)
    ensures |t| == |s|
    ensures forall i :: 0 <= i < |s| ==> t[i] as int == s[i] as int % 256
  {
    seq(|s|, i requires 0 <= i < |s| => (s[i] as int % 256) as byte)
  }

  const NUL: byte := 0
  const TAB: byte := 9
  const LF: byte := 10
  const CR: byte := 13
  const RECORD_SEP: byte := 0x1E
  const FIELD_SEP: byte := 0x1F
  const DOLLAR: byte := 36

  predicate Free(s: Text, sep: byte) {
    sep !in s
  }

  predicate AllFree(parts: seq<Text>, sep: byte) {
    forall p :: p in parts ==> Free(p, sep)
  }

  /** What a callee makes of c_str() without a length: the text before the first NUL. */
  function CString(s: Text): (r: Text)
    ensures r <= s && Free(r, NUL)
    ensures r == s <==> Free(s, NUL)
  {
    if s == [] || s[0] == NUL then [] else [s[0]] + CString(s[1..])
  }

  lemma {:induction false} CStringEndsAtNul(a: Text, b: Text)
    requires Free(a, NUL)
    ensures CString(a + [NUL] + b) == a
  {
    if a == [] {
      assert (a + [NUL] + b)[0] == NUL;
    } else {
      assert (a + [NUL] + b)[1..] == a[1..] + [NUL] + b;
      CStringEndsAtNul(a[1..], b);
    }
  }

  predicate NoDuplicates<T(==)>(s: seq<T>) {
    forall i, j :: 0 <= i < j < |s| ==> s[i] != s[j]
  }
}
