// Splitting and joining text, as its UTF-8 bytes, at an ASCII separator.
module Text {
  import opened Bytes

  const SLASH: Byte := 47
  const NEWLINE: Byte := 10
  const BAR: Byte := 124

  /** The pieces between separators; always at least one. */
  function Split(s: Bytes, sep: Byte): (r: seq<Bytes>)
    ensures |r| >= 1
  {
    if s == [] then [[]]
    else if s[0] == sep then [[]] + Split(s[1..], sep)
    else
      var rest := Split(s[1..], sep);
      [[s[0]] + rest[0]] + rest[1..]
  }

  function Join(parts: seq<Bytes>, sep: Byte): Bytes {
    if parts == [] then []
    else if |parts| == 1 then parts[0]
    else parts[0] + [sep] + Join(parts[1..], sep)
  }

  ghost predicate Free(parts: seq<Bytes>, sep: Byte) {
    forall i :: 0 <= i < |parts| ==> sep !in parts[i]
  }

  lemma {:induction false} SplitFree(s: Bytes, sep: Byte)
    ensures Free(Split(s, sep), sep)
  {
    if s != [] {
      SplitFree(s[1..], sep);
    }
  }

  /** A piece without the separator, then the separator, then anything. */
  lemma {:induction false} SplitAfterPiece(piece: Bytes, rest: Bytes, sep: Byte)
    requires sep !in piece
    ensures Split(piece + [sep] + rest, sep) == [piece] + Split(rest, sep)
  {
    var s := piece + [sep] + rest;
    if piece == [] {
      assert s[1..] == rest;
    } else {
      assert s[1..] == piece[1..] + [sep] + rest;
      SplitAfterPiece(piece[1..], rest, sep);
      assert piece == [piece[0]] + piece[1..];
    }
  }

  lemma {:induction false} SplitPiece(piece: Bytes, sep: Byte)
    requires sep !in piece
    ensures Split(piece, sep) == [piece]
  {
    if piece != [] {
      SplitPiece(piece[1..], sep);
      assert piece == [piece[0]] + piece[1..];
    }
  }

  /** Splitting inverts joining when no piece holds the separator. */
  lemma {:induction false} SplitOfJoin(parts: seq<Bytes>, sep: Byte)
    requires parts != [] && Free(parts, sep)
    ensures Split(Join(parts, sep), sep) == parts
  {
    if |parts| == 1 {
      SplitPiece(parts[0], sep);
    } else {
      SplitOfJoin(parts[1..], sep);
      SplitAfterPiece(parts[0], Join(parts[1..], sep), sep);
      assert parts == [parts[0]] + parts[1..];
    }
  }

  lemma {:induction false} JoinSnoc(parts: seq<Bytes>, last: Bytes, sep: Byte)
    requires parts != []
    ensures Join(parts + [last], sep) == Join(parts, sep) + [sep] + last
  {
    if |parts| == 1 {
      assert (parts + [last])[1..] == [last];
    } else {
      assert (parts + [last])[1..] == parts[1..] + [last];
      JoinSnoc(parts[1..], last, sep);
    }
  }

  /** Cutting and joining bring in no other character. */
  lemma {:induction false} SplitWithout(s: Bytes, sep: Byte, b: Byte)
    requires b !in s
    ensures Free(Split(s, sep), b)
  {
    if s != [] {
      SplitWithout(s[1..], sep, b);
    }
  }

  lemma {:induction false} JoinWithout(parts: seq<Bytes>, sep: Byte, b: Byte)
    requires Free(parts, b) && b != sep
    ensures b !in Join(parts, sep)
  {
    if |parts| > 1 {
      JoinWithout(parts[1..], sep, b);
    }
  }

  lemma {:induction false} SplitConcat(a: Bytes, b: Bytes, sep: Byte)
    ensures Split(a + [sep] + b, sep) == Split(a, sep) + Split(b, sep)
  {
    var s := a + [sep] + b;
    if a == [] {
      assert s[1..] == b;
    } else {
      assert s[0] == a[0] && s[1..] == a[1..] + [sep] + b;
      SplitConcat(a[1..], b, sep);
      GrowFirst(a[0], Split(a[1..], sep), Split(b, sep));
    }
  }

  lemma GrowFirst(c: Byte, pieces: seq<Bytes>, more: seq<Bytes>)
    requires pieces != []
    ensures [[c] + (pieces + more)[0]] + (pieces + more)[1..] == [[c] + pieces[0]] + pieces[1..] + more
    ensures [[]] + (pieces + more) == [[]] + pieces + more
  {
    assert (pieces + more)[1..] == pieces[1..] + more;
  }

  // ------------------------------------------------------------ the last separator

  /** What lies after the last separator; all of `s` when there is none. */
  function AfterLast(s: Bytes, sep: Byte): (r: Bytes)
    ensures |r| <= |s|
  {
    if s == [] || s[|s| - 1] == sep then [] else AfterLast(s[..|s| - 1], sep) + [s[|s| - 1]]
  }

  /** What lies before it. */
  function BeforeLast(s: Bytes, sep: Byte): Bytes {
    s[..if |AfterLast(s, sep)| == |s| then 0 else |s| - |AfterLast(s, sep)| - 1]
  }

  lemma {:induction false} AfterLastOf(front: Bytes, name: Bytes, sep: Byte)
    requires sep !in name
    ensures AfterLast(front + [sep] + name, sep) == name
    ensures BeforeLast(front + [sep] + name, sep) == front
  {
    var s := front + [sep] + name;
    if name != [] {
      var n := |name| - 1;
      assert s[..|s| - 1] == front + [sep] + name[..n];
      assert name == name[..n] + [name[n]];
      AfterLastOf(front, name[..n], sep);
    }
    assert s[..|front|] == front;
  }
}
