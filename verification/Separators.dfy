/** Separator-delimited text, and the loop both clients use to take it apart. */
module Separators {
  import opened Bytes

  /** One more octet: a separator opens a new piece, anything else extends the last one. */
  function Feed(pieces: seq<Text>, c: byte, sep: byte): (r: seq<Text>)
    requires pieces != []
    ensures r != []
  {
    if c == sep then pieces + [[]] else pieces[..|pieces| - 1] + [pieces[|pieces| - 1] + [c]]
  }

  /** The pieces of s between occurrences of sep; always at least one. */
  function Split(s: Text, sep: byte): (parts: seq<Text>)
    ensures parts != []
  {
    if s == [] then [[]] else Feed(Split(s[..|s| - 1], sep), s[|s| - 1], sep)
  }

  method SplitText(s: Text, sep: byte) returns (out: seq<Text>)
    ensures out == Split(s, sep)
  {
    out := [];
    var cur: Text := [];
    var i := 0;
    while i < |s|
      invariant 0 <= i <= |s|
      invariant out + [cur] == Split(s[..i], sep)
    {
      var c := s[i];
      assert s[..i + 1][..i] == s[..i];
      ghost var before := out + [cur];
      assert before[..|before| - 1] == out;
      if c == sep { out := out + [cur]; cur := []; }
      else { cur := cur + [c]; }
      i := i + 1;
    }
    assert s[..i] == s;
    out := out + [cur];
  }

  /** The parts with sep between neighbours. */
  function Join(parts: seq<Text>, sep: byte): Text
    requires parts != []
  {
    if |parts| == 1 then parts[0] else parts[0] + [sep] + Join(parts[1..], sep)
  }

  lemma {:induction false} SplitFree(s: Text, sep: byte)
    requires Free(s, sep)
    ensures Split(s, sep) == [s]
  {
    if s != [] {
      SplitFree(s[..|s| - 1], sep);
      assert s == s[..|s| - 1] + [s[|s| - 1]];
    }
  }

  lemma SplitSnoc(s: Text, c: byte, sep: byte)
    ensures Split(s + [c], sep) == Feed(Split(s, sep), c, sep)
  {
    assert (s + [c])[..|s + [c]| - 1] == s;
  }

  lemma FeedAppend(a: seq<Text>, b: seq<Text>, c: byte, sep: byte)
    requires b != []
    ensures Feed(a + b, c, sep) == a + Feed(b, c, sep)
  {
    if c == sep {
      assert (a + b) + [[]] == a + (b + [[]]);
    } else {
      assert (a + b)[..|a + b| - 1] == a + b[..|b| - 1];
    }
  }

  lemma {:induction false} SplitAt(a: Text, b: Text, sep: byte)
    ensures Split(a + [sep] + b, sep) == Split(a, sep) + Split(b, sep)
  {
    if b == [] {
      assert a + [sep] + b == a + [sep];
      SplitSnoc(a, sep, sep);
    } else {
      var b', c := b[..|b| - 1], b[|b| - 1];
      assert a + [sep] + b == (a + [sep] + b') + [c];
      SplitAt(a, b', sep);
      SplitSnoc(a + [sep] + b', c, sep);
      FeedAppend(Split(a, sep), Split(b', sep), c, sep);
    }
  }

  /** Splitting undoes joining, for parts that do not contain the separator ... */
  lemma {:induction false} SplitOfJoin(parts: seq<Text>, sep: byte)
    requires parts != [] && AllFree(parts, sep)
    ensures Split(Join(parts, sep), sep) == parts
  {
    SplitFree(parts[0], sep);
    if |parts| > 1 {
      SplitAt(parts[0], Join(parts[1..], sep), sep);
      SplitOfJoin(parts[1..], sep);
      assert parts == [parts[0]] + parts[1..];
    }
  }

  lemma {:induction false} JoinSnoc(parts: seq<Text>, p: Text, sep: byte)
    requires parts != []
    ensures Join(parts + [p], sep) == Join(parts, sep) + [sep] + p
  {
    assert (parts + [p])[1..] == parts[1..] + [p];
    if |parts| > 1 {
      JoinSnoc(parts[1..], p, sep);
    }
  }

  lemma {:induction false} JoinGrowLast(parts: seq<Text>, p: Text, x: byte, sep: byte)
    ensures Join(parts + [p + [x]], sep) == Join(parts + [p], sep) + [x]
  {
    if parts == [] {
      assert parts + [p + [x]] == [p + [x]] && parts + [p] == [p];
    } else {
      assert (parts + [p + [x]])[1..] == parts[1..] + [p + [x]];
      assert (parts + [p])[1..] == parts[1..] + [p];
      JoinGrowLast(parts[1..], p, x, sep);
    }
  }

  /** ... and joining always undoes splitting, whose pieces never contain the separator. */
  lemma {:induction false} JoinOfSplit(s: Text, sep: byte)
    ensures Join(Split(s, sep), sep) == s
    ensures AllFree(Split(s, sep), sep)
  {
    if s != [] {
      var s', last := s[..|s| - 1], s[|s| - 1];
      JoinOfSplit(s', sep);
      var before := Split(s', sep);
      assert s == s' + [last];
      if last == sep {
        JoinSnoc(before, [], sep);
      } else {
        var front, p := before[..|before| - 1], before[|before| - 1];
        assert before == front + [p];
        JoinGrowLast(front, p, last, sep);
        assert Free(p, sep);
      }
    }
  }
}
