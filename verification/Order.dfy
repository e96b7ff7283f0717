/**
 * The order SQLite's BINARY collation puts on text, its extension to cells that hold numbers or texts and to lists of
 * columns, and the ascending enumeration of a finite set of column lists.
 */
module Order {
  import opened Bytes

  /** a sorts at or before b, octet by octet. */
  predicate TextLe(a: Text, b: Text) {
    a == [] || (b != [] && (a[0] < b[0] || (a[0] == b[0] && TextLe(a[1..], b[1..]))))
  }

  /** Octet by octet means: a prefix, or the smaller octet where the two first differ. */
  lemma {:induction false} TextLeMeans(a: Text, b: Text)
    ensures TextLe(a, b) <==>
      a <= b || exists i :: 0 <= i < |a| && i < |b| && a[..i] == b[..i] && a[i] < b[i]
  {
    if a != [] && b != [] && a[0] == b[0] {
      var a', b' := a[1..], b[1..];
      TextLeMeans(a', b');
      assert a == [a[0]] + a' && b == [b[0]] + b';
      assert a <= b <==> a' <= b';
      forall i | 0 <= i < |a'| && i < |b'| && a'[..i] == b'[..i] && a'[i] < b'[i]
        ensures a[..i + 1] == b[..i + 1] && a[i + 1] < b[i + 1]
      {
        assert a[..i + 1] == [a[0]] + a'[..i] && b[..i + 1] == [b[0]] + b'[..i];
      }
      forall i | 0 <= i < |a| && i < |b| && a[..i] == b[..i] && a[i] < b[i]
        ensures i > 0 && a'[..i - 1] == b'[..i - 1] && a'[i - 1] < b'[i - 1]
      {
        assert a'[..i - 1] == a[..i][1..] && b'[..i - 1] == b[..i][1..];
      }
    } else if a != [] && b != [] && a[0] < b[0] {
      assert a[..0] == b[..0];
    } else if a != [] && b != [] {
      forall i | 0 < i < |a| && i < |b| ensures a[..i] != b[..i] {
        assert a[..i][0] != b[..i][0];
      }
    }
  }

  lemma {:induction false} TextLeTotal(a: Text, b: Text)
    ensures TextLe(a, b) || TextLe(b, a)
  {
    if a != [] && b != [] && a[0] == b[0] {
      TextLeTotal(a[1..], b[1..]);
    }
  }

  lemma {:induction false} TextLeAntisymmetric(a: Text, b: Text)
    requires TextLe(a, b) && TextLe(b, a)
    ensures a == b
  {
    if a != [] && b != [] {
      TextLeAntisymmetric(a[1..], b[1..]);
      assert a == [a[0]] + a[1..] && b == [b[0]] + b[1..];
    }
  }

  lemma {:induction false} TextLeTransitive(a: Text, b: Text, c: Text)
    requires TextLe(a, b) && TextLe(b, c)
    ensures TextLe(a, c)
  {
    if a != [] && a[0] == b[0] == c[0] {
      TextLeTransitive(a[1..], b[1..], c[1..]);
    }
  }

  /** What a column holds for a row. */
  datatype Cell = Num(n: int) | Str(t: Text)

  /** Numbers come before texts. */
  predicate CellLe(a: Cell, b: Cell) {
    match (a, b)
    case (Num(n), Num(m)) => n <= m
    case (Num(_), Str(_)) => true
    case (Str(_), Num(_)) => false
    case (Str(t), Str(u)) => TextLe(t, u)
  }

  lemma CellLeTotal(a: Cell, b: Cell)
    ensures CellLe(a, b) || CellLe(b, a)
  {
    if a.Str? && b.Str? { TextLeTotal(a.t, b.t); }
  }

  lemma CellLeAntisymmetric(a: Cell, b: Cell)
    requires CellLe(a, b) && CellLe(b, a)
    ensures a == b
  {
    if a.Str? && b.Str? { TextLeAntisymmetric(a.t, b.t); }
  }

  lemma CellLeTransitive(a: Cell, b: Cell, c: Cell)
    requires CellLe(a, b) && CellLe(b, c)
    ensures CellLe(a, c)
  {
    if a.Str? && b.Str? && c.Str? { TextLeTransitive(a.t, b.t, c.t); }
  }

  /** Column lists compare by their first differing column. */
  predicate ColumnsLe(a: seq<Cell>, b: seq<Cell>) {
    a == [] || (b != [] && (if a[0] == b[0] then ColumnsLe(a[1..], b[1..]) else CellLe(a[0], b[0])))
  }

  lemma {:induction false} ColumnsLeTotal(a: seq<Cell>, b: seq<Cell>)
    ensures ColumnsLe(a, b) || ColumnsLe(b, a)
  {
    if a != [] && b != [] {
      if a[0] == b[0] {
        ColumnsLeTotal(a[1..], b[1..]);
      } else {
        CellLeTotal(a[0], b[0]);
      }
    }
  }

  lemma {:induction false} ColumnsLeAntisymmetric(a: seq<Cell>, b: seq<Cell>)
    requires ColumnsLe(a, b) && ColumnsLe(b, a)
    ensures a == b
  {
    if a != [] && b != [] {
      if a[0] == b[0] {
        ColumnsLeAntisymmetric(a[1..], b[1..]);
        assert a == [a[0]] + a[1..] && b == [b[0]] + b[1..];
      } else {
        CellLeAntisymmetric(a[0], b[0]);
      }
    }
  }

  lemma {:induction false} ColumnsLeTransitive(a: seq<Cell>, b: seq<Cell>, c: seq<Cell>)
    requires ColumnsLe(a, b) && ColumnsLe(b, c)
    ensures ColumnsLe(a, c)
  {
    if a != [] {
      if a[0] == b[0] && b[0] == c[0] {
        ColumnsLeTransitive(a[1..], b[1..], c[1..]);
      } else if a[0] != b[0] && b[0] != c[0] {
        CellLeTransitive(a[0], b[0], c[0]);
        if a[0] == c[0] {
          CellLeAntisymmetric(a[0], b[0]);
        }
      }
    }
  }

  ghost predicate IsLeast(m: seq<Cell>, s: set<seq<Cell>>) {
    m in s && forall x :: x in s ==> ColumnsLe(m, x)
  }

  lemma {:induction false} HasLeast(s: set<seq<Cell>>)
    requires s != {}
    ensures exists m :: IsLeast(m, s)
  {
    var x :| x in s;
    var rest := s - {x};
    ColumnsLeTotal(x, x);
    if rest == {} {
      assert s == {x};
      assert IsLeast(x, s);
    } else {
      HasLeast(rest);
      var m :| IsLeast(m, rest);
      ColumnsLeTotal(x, m);
      if ColumnsLe(x, m) {
        forall y | y in s ensures ColumnsLe(x, y) {
          if y != x { ColumnsLeTransitive(x, m, y); }
        }
        assert IsLeast(x, s);
      } else {
        assert IsLeast(m, s);
      }
    }
  }

  lemma LeastIsUnique(s: set<seq<Cell>>, m: seq<Cell>, m': seq<Cell>)
    requires IsLeast(m, s) && IsLeast(m', s)
    ensures m == m'
  {
    ColumnsLeAntisymmetric(m, m');
  }

  function Least(s: set<seq<Cell>>): (m: seq<Cell>)
    requires s != {}
    ensures IsLeast(m, s)
  {
    assert exists m :: m in s && (forall x :: x in s ==> ColumnsLe(m, x)) by {
      HasLeast(s);
      var m :| IsLeast(m, s);
    }
    assert forall m, m' |
      m in s && m' in s && (forall x :: x in s ==> ColumnsLe(m, x)) && (forall x :: x in s ==> ColumnsLe(m', x))
      :: m == m' by {
      forall m, m' |
        m in s && m' in s && (forall x :: x in s ==> ColumnsLe(m, x)) && (forall x :: x in s ==> ColumnsLe(m', x))
        ensures m == m'
      {
        LeastIsUnique(s, m, m');
      }
    }
    var m :| m in s && forall x :: x in s ==> ColumnsLe(m, x);
    m
  }

  /** The members of s, smallest first. */
  function Ascending(s: set<seq<Cell>>): (r: seq<seq<Cell>>)
    ensures |r| == |s|
    ensures forall x :: x in r <==> x in s
  {
    if s == {} then [] else
      var m := Least(s);
      assert s == {m} + (s - {m});
      [m] + Ascending(s - {m})
  }

  /** ORDER BY: nothing repeated, and every element at or before every later one. */
  lemma {:induction false} AscendingIsSorted(s: set<seq<Cell>>)
    ensures var r := Ascending(s);
      NoDuplicates(r) && forall i, j :: 0 <= i < j < |r| ==> ColumnsLe(r[i], r[j])
  {
    if s != {} {
      var m := Least(s);
      var rest := Ascending(s - {m});
      AscendingIsSorted(s - {m});
      hide Ascending;
      FirstOfSorted(m, rest);
    }
  }

  lemma FirstOfSorted(m: seq<Cell>, rest: seq<seq<Cell>>)
    requires NoDuplicates(rest) && forall i, j :: 0 <= i < j < |rest| ==> ColumnsLe(rest[i], rest[j])
    requires forall x :: x in rest ==> x != m && ColumnsLe(m, x)
    ensures var r := [m] + rest; NoDuplicates(r) && forall i, j :: 0 <= i < j < |r| ==> ColumnsLe(r[i], r[j])
  {
    var r := [m] + rest;
    forall i, j | 0 <= i < j < |r| ensures r[i] != r[j] && ColumnsLe(r[i], r[j]) {
      assert r[j] == rest[j - 1] && rest[j - 1] in rest;
      assert i > 0 ==> r[i] == rest[i - 1];
    }
  }
}
