// Trimming and directory indexes, spelled out.
module IndexAnswers {
  import opened Bytes
  import opened Text
  import opened DirectoryIndex

  /** A code point below 2^16 in UTF-8. */
  function Utf8(c: nat): Bytes
    requires c < 0x1_0000
  {
    if c < 0x80 then [c]
    else if c < 0x800 then [0xC0 + c / 64, 0x80 + c % 64]
    else [0xE0 + c / 4096, 0x80 + c / 64 % 64, 0x80 + c % 64]
  }

  /** ECMAScript's white space and line terminators. */
  predicate WhiteSpace(c: nat) {
    || 9 <= c <= 13 || c == 32 || c == 0xA0 || c == 0x1680 || 0x2000 <= c <= 0x200A
    || c == 0x2028 || c == 0x2029 || c == 0x202F || c == 0x205F || c == 0x3000 || c == 0xFEFF
  }

  /** The code point that one, two or three bytes write. */
  function CodePoint(s: Bytes): nat
    requires 1 <= |s| <= 3
  {
    if |s| == 1 then s[0]
    else if |s| == 2 then (s[0] as int % 64) * 64 + s[1] as int % 64
    else (s[0] as int % 16) * 4096 + (s[1] as int % 64) * 64 + s[2] as int % 64
  }

  lemma WhiteIsCodePoint(s: Bytes)
    requires White(s)
    ensures 1 <= |s| <= 3 && CodePoint(s) < 0x1_0000 && WhiteSpace(CodePoint(s))
  {
  }

  lemma CodePointBytes(s: Bytes)
    requires White(s) && 1 <= |s| <= 3 && CodePoint(s) < 0x1_0000
    ensures s == Utf8(CodePoint(s))
  {
    if |s| == 3 {
      ThreeBytes(s[0], s[1], s[2]);
    }
  }

  lemma ThreeBytes(a: Byte, b: Byte, c: Byte)
    requires Wide(a, b, c)
    ensures var n := (a as int % 16) * 4096 + (b as int % 64) * 64 + c as int % 64;
            && 0x800 <= n < 0x1_0000
            && 0xE0 + n / 4096 == a && 0x80 + n / 64 % 64 == b && 0x80 + n % 64 == c
  {
  }

  lemma CodePointIsWhite(c: nat)
    requires c < 0x1_0000 && WhiteSpace(c)
    ensures White(Utf8(c))
  {
  }

  /** What trim strips is the white space of the language, as UTF-8. */
  lemma WhiteSpelled(s: Bytes)
    ensures White(s) <==> exists c: nat :: c < 0x1_0000 && WhiteSpace(c) && s == Utf8(c)
  {
    if White(s) {
      WhiteIsCodePoint(s);
      CodePointBytes(s);
    }
    if c: nat :| c < 0x1_0000 && WhiteSpace(c) && s == Utf8(c) {
      CodePointIsWhite(c);
    }
  }

  /** White space, one character after another. */
  ghost predicate AllWhite(s: Bytes)
    decreases |s|
  {
    s == [] || exists k: nat :: 0 < k <= |s| && White(s[..k]) && AllWhite(s[k..])
  }

  lemma {:induction false} WhiteConcat(a: Bytes, b: Bytes)
    requires AllWhite(a) && AllWhite(b)
    ensures AllWhite(a + b)
    decreases |a|
  {
    if a == [] {
      assert a + b == b;
    } else {
      var k: nat :| 0 < k <= |a| && White(a[..k]) && AllWhite(a[k..]);
      WhiteConcat(a[k..], b);
      assert (a + b)[..k] == a[..k] && (a + b)[k..] == a[k..] + b;
    }
  }

  lemma OneWhite(s: Bytes)
    requires White(s)
    ensures AllWhite(s)
  {
    assert s[..|s|] == s && s[|s|..] == [];
  }

  lemma FrontIsWhite(s: Bytes, k: nat)
    requires 0 < k == FrontWhite(s)
    ensures AllWhite(s[..k])
  {
    assert White(s[..k]);
    OneWhite(s[..k]);
  }

  lemma BackIsWhite(s: Bytes, k: nat)
    requires 0 < k == BackWhite(s)
    ensures AllWhite(s[|s| - k..])
  {
    assert White(s[|s| - k..]);
    OneWhite(s[|s| - k..]);
  }

  lemma MoreWhite(s: Bytes, k: nat, n: nat)
    requires k <= n <= |s| && AllWhite(s[..k]) && AllWhite(s[k..][..n - k])
    ensures AllWhite(s[..n])
  {
    WhiteConcat(s[..k], s[k..][..n - k]);
    assert s[..n] == s[..k] + s[k..][..n - k];
  }

  lemma {:induction false} StartWhite(s: Bytes)
    ensures AllWhite(s[..|s| - |TrimStart(s)|])
    decreases |s|
  {
    var k := FrontWhite(s);
    if k > 0 {
      StartWhite(s[k..]);
      FrontIsWhite(s, k);
      MoreWhite(s, k, |s| - |TrimStart(s)|);
    }
  }

  lemma {:induction false} EndWhite(s: Bytes)
    ensures AllWhite(s[|TrimEnd(s)|..])
    decreases |s|
  {
    var k := BackWhite(s);
    if k > 0 {
      var n, m := |s| - k, |TrimEnd(s)|;
      EndWhite(s[..n]);
      BackIsWhite(s, k);
      WhiteConcat(s[..n][m..], s[n..]);
      assert s[m..] == s[..n][m..] + s[n..];
    }
  }

  /** Trimming leaves no white space at either end. */
  lemma TrimIsBare(s: Bytes)
    ensures Bare(Trim(s))
  {
    TrimStartEnds(s);
    TrimEndEnds(TrimStart(s));
    FrontStaysBare(Trim(s), TrimStart(s));
    WhiteSizes(Trim(s));
  }

  lemma CutTwice(s: Bytes, middle: Bytes, inner: Bytes, n: nat)
    requires n <= |s| && middle == s[n..] && |inner| <= |middle| && inner == middle[..|inner|]
    ensures s == s[..n] + inner + middle[|inner|..]
  {
  }

  /** It takes off white space and nothing else. */
  lemma TrimSpelled(s: Bytes) returns (front: Bytes, back: Bytes)
    ensures s == front + Trim(s) + back && AllWhite(front) && AllWhite(back)
  {
    var middle := TrimStart(s);
    TrimStartEnds(s);
    TrimEndEnds(middle);
    CutTwice(s, middle, Trim(s), |s| - |middle|);
    StartWhite(s);
    EndWhite(middle);
    front, back := s[..|s| - |middle|], middle[|Trim(s)|..];
  }

  lemma {:induction false} SortedStays(names: seq<Bytes>)
    requires Ascending(names)
    ensures SortUnique(names) == names
  {
    if names != [] {
      SortedStays(names[1..]);
      assert names == [names[0]] + names[1..];
      if |names| > 1 {
        StrictTotalOrder(names[0], names[1], names[0]);
      }
    }
  }

  /** An index of clean names in order is the names on a line each, if that is at most 4096
      bytes. */
  lemma IndexSpelled(names: seq<Bytes>)
    requires AllClean(names) && Ascending(names)
    ensures EncodeIndex(names) == if |Join(names, 10)| <= 4096 then Some(Join(names, 10)) else None
  {
    TrimmedClean(names);
    SortedStays(names);
  }
}
