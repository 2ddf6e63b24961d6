// The newline-delimited directory index the client computes and the service stores.
module DirectoryIndex {
  import opened Bytes
  import opened Text

  const MAX_INDEX_BYTES := 4096

  // ------------------------------------------------------------------- trimming

  /** At `i` there are `k` bytes that are the UTF-8 form of a character that `trim` strips:
      ECMAScript's white space and line terminators. */
  predicate WhiteAt(s: Bytes, i: nat, k: nat) {
    && i + k <= |s|
    && (|| (k == 1 && (9 <= s[i] <= 13 || s[i] == 32))
        || (k == 2 && s[i] == 0xC2 && s[i + 1] == 0xA0)
        || (k == 3 && Wide(s[i], s[i + 1], s[i + 2])))
  }

  /** U+1680, U+2000 to U+200A, U+2028, U+2029, U+202F, U+205F, U+3000 and U+FEFF. */
  predicate Wide(a: Byte, b: Byte, c: Byte) {
    || (a == 0xE1 && b == 0x9A && c == 0x80)
    || (a == 0xE2 && b == 0x80 && (0x80 <= c <= 0x8A || c == 0xA8 || c == 0xA9 || c == 0xAF))
    || (a == 0xE2 && b == 0x81 && c == 0x9F)
    || (a == 0xE3 && b == 0x80 && c == 0x80)
    || (a == 0xEF && b == 0xBB && c == 0xBF)
  }

  predicate White(c: Bytes) {
    WhiteAt(c, 0, |c|)
  }

  predicate WhiteInFront(s: Bytes, k: nat) {
    WhiteAt(s, 0, k)
  }

  predicate WhiteBehind(s: Bytes, k: nat) {
    k <= |s| && WhiteAt(s, |s| - k, k)
  }

  /** The size of the white space at the front; zero when there is none. */
  function FrontWhite(s: Bytes): (k: nat)
    ensures k <= |s|
  {
    if WhiteInFront(s, 1) then 1 else if WhiteInFront(s, 2) then 2 else if WhiteInFront(s, 3) then 3 else 0
  }

  function BackWhite(s: Bytes): (k: nat)
    ensures k <= |s|
  {
    if WhiteBehind(s, 1) then 1 else if WhiteBehind(s, 2) then 2 else if WhiteBehind(s, 3) then 3 else 0
  }

  /** Nothing to trim. */
  ghost predicate Bare(s: Bytes) {
    && (forall k: nat {:trigger WhiteInFront(s, k)} :: !WhiteInFront(s, k))
    && (forall k: nat {:trigger WhiteBehind(s, k)} :: !WhiteBehind(s, k))
  }

  function TrimStart(s: Bytes): (r: Bytes)
    ensures |r| <= |s|
    decreases |s|
  {
    if FrontWhite(s) > 0 then TrimStart(s[FrontWhite(s)..]) else s
  }

  function TrimEnd(s: Bytes): (r: Bytes)
    ensures |r| <= |s|
    decreases |s|
  {
    if BackWhite(s) > 0 then TrimEnd(s[..|s| - BackWhite(s)]) else s
  }

  function Trim(s: Bytes): Bytes {
    TrimEnd(TrimStart(s))
  }

  /** A name an index can hold: one line, nothing to trim, no slash. */
  ghost predicate CleanName(name: Bytes) {
    name != [] && NEWLINE !in name && SLASH !in name && Bare(name)
  }

  ghost predicate AllClean(names: seq<Bytes>) {
    forall i :: 0 <= i < |names| ==> CleanName(names[i])
  }

  // ------------------------------------------------------------ encode and decode

  /** `map(trim).filter(Boolean)` */
  function Trimmed(names: seq<Bytes>): seq<Bytes> {
    if names == [] then []
    else (if Trim(names[0]) == [] then [] else [Trim(names[0])]) + Trimmed(names[1..])
  }

  function Insert(sorted: seq<Bytes>, name: Bytes): seq<Bytes> {
    if sorted == [] then [name]
    else if sorted[0] == name then sorted
    else if Less(name, sorted[0]) then [name] + sorted
    else [sorted[0]] + Insert(sorted[1..], name)
  }

  /** Set and sort: no duplicates, in ascending order. */
  function SortUnique(names: seq<Bytes>): seq<Bytes> {
    if names == [] then [] else Insert(SortUnique(names[1..]), names[0])
  }

  function EncodeIndex(names: seq<Bytes>): Option<Bytes> {
    var encoded := Join(SortUnique(Trimmed(names)), NEWLINE);
    if |encoded| > MAX_INDEX_BYTES then None else Some(encoded)
  }

  function DecodeIndex(entries: Bytes): seq<Bytes> {
    Trimmed(Split(entries, NEWLINE))
  }

  function Members(names: seq<Bytes>): set<Bytes> {
    set name | name in names
  }

  lemma MembersConcat(a: seq<Bytes>, b: seq<Bytes>)
    ensures Members(a + b) == Members(a) + Members(b)
  {
  }

  lemma MembersOne(name: Bytes)
    ensures Members([name]) == {name} && Members([]) == {}
  {
  }

  predicate Ascending(names: seq<Bytes>) {
    forall i, j :: 0 <= i < j < |names| ==> Less(names[i], names[j])
  }

  lemma {:induction false} InsertMembers(sorted: seq<Bytes>, name: Bytes)
    ensures Members(Insert(sorted, name)) == Members(sorted) + {name}
  {
    MembersOne(name);
    if sorted != [] {
      MembersOne(sorted[0]);
      MembersConcat([name], sorted);
      MembersConcat([sorted[0]], sorted[1..]);
      assert sorted == [sorted[0]] + sorted[1..];
      MembersConcat([sorted[0]], Insert(sorted[1..], name));
      InsertMembers(sorted[1..], name);
    }
  }

  lemma AscendingCons(first: Bytes, rest: seq<Bytes>)
    requires Ascending(rest) && forall name :: name in Members(rest) ==> Less(first, name)
    ensures Ascending([first] + rest)
  {
    var r := [first] + rest;
    forall i, j | 0 <= i < j < |r| ensures Less(r[i], r[j]) {
      assert r[j] == rest[j - 1] && rest[j - 1] in Members(rest);
      if i > 0 { assert r[i] == rest[i - 1]; }
    }
  }

  lemma AscendingHead(sorted: seq<Bytes>, name: Bytes)
    requires Ascending(sorted) && sorted != [] && name in Members(sorted[1..])
    ensures Less(sorted[0], name)
  {
    var j :| 0 <= j < |sorted[1..]| && sorted[1..][j] == name;
    assert Less(sorted[0], sorted[j + 1]);
  }

  lemma {:induction false} InsertSorts(sorted: seq<Bytes>, name: Bytes)
    requires Ascending(sorted)
    ensures Ascending(Insert(sorted, name))
  {
    if sorted != [] && sorted[0] != name {
      var first, rest := sorted[0], sorted[1..];
      StrictTotalOrder(name, first, name);
      if Less(name, first) {
        forall other | other in Members(sorted) ensures Less(name, other) {
          if other != first {
            assert sorted == [first] + rest;
            MembersConcat([first], rest);
            AscendingHead(sorted, other);
            LessTransitive(name, first, other);
          }
        }
        AscendingCons(name, sorted);
      } else {
        InsertSorts(rest, name);
        InsertMembers(rest, name);
        forall other | other in Members(Insert(rest, name)) ensures Less(first, other) {
          if other != name { AscendingHead(sorted, other); }
        }
        AscendingCons(first, Insert(rest, name));
      }
    }
  }

  lemma {:induction false} SortUniqueSorts(names: seq<Bytes>)
    ensures Ascending(SortUnique(names)) && Members(SortUnique(names)) == Members(names)
  {
    if names != [] {
      SortUniqueSorts(names[1..]);
      InsertSorts(SortUnique(names[1..]), names[0]);
      InsertMembers(SortUnique(names[1..]), names[0]);
      assert Members(names) == {names[0]} + Members(names[1..]);
    }
  }

  lemma TrimBare(s: Bytes)
    requires Bare(s)
    ensures Trim(s) == s
  {
    WhiteSizes(s);
  }

  lemma {:induction false} TrimmedClean(names: seq<Bytes>)
    requires AllClean(names)
    ensures Trimmed(names) == names
  {
    if names != [] {
      TrimBare(names[0]);
      TrimmedClean(names[1..]);
      assert names == [names[0]] + names[1..];
    }
  }

  lemma CleanMembers(names: seq<Bytes>, others: seq<Bytes>)
    requires AllClean(names) && Members(others) <= Members(names)
    ensures AllClean(others)
  {
    forall i | 0 <= i < |others| ensures CleanName(others[i]) {
      assert others[i] in Members(others);
      var j :| 0 <= j < |names| && names[j] == others[i];
    }
  }

  /** Reading an index back gives its names, sorted and without repeats. */
  lemma DecodeEncoded(names: seq<Bytes>)
    requires AllClean(names) && EncodeIndex(names).Some?
    ensures DecodeIndex(EncodeIndex(names).value) == SortUnique(names)
    ensures Members(DecodeIndex(EncodeIndex(names).value)) == Members(names)
    ensures AllClean(DecodeIndex(EncodeIndex(names).value))
    ensures Ascending(DecodeIndex(EncodeIndex(names).value))
  {
    var sorted := SortUnique(names);
    TrimmedClean(names);
    SortUniqueSorts(names);
    CleanMembers(names, sorted);
    if sorted == [] {
      assert Split([], NEWLINE) == [[]];
      var empty: Bytes := [];
      assert Trimmed([empty]) == [] + Trimmed([empty][1..]);
    } else {
      forall i | 0 <= i < |sorted| ensures NEWLINE !in sorted[i] {
        assert CleanName(sorted[i]);
      }
      SplitOfJoin(sorted, NEWLINE);
      TrimmedClean(sorted);
    }
  }

  /** `filter((entry) => entry !== name)` */
  function Without(names: seq<Bytes>, name: Bytes): seq<Bytes> {
    if names == [] then []
    else (if names[0] == name then [] else [names[0]]) + Without(names[1..], name)
  }

  lemma {:induction false} WithoutMembers(names: seq<Bytes>, name: Bytes)
    ensures Members(Without(names, name)) == Members(names) - {name}
  {
    if names != [] {
      WithoutMembers(names[1..], name);
      MembersOne(names[0]);
      MembersConcat([names[0]], names[1..]);
      MembersConcat([names[0]], Without(names[1..], name));
      assert names == [names[0]] + names[1..];
      assert names[0] == name ==> Without(names, name) == Without(names[1..], name);
    }
  }

  lemma AppendMembers(names: seq<Bytes>, name: Bytes)
    ensures Members(names + [name]) == Members(names) + {name}
  {
  }

  // ------------------------------------------------- names an index cannot hold

  /** What an index shows for one stored line: its own lines, trimmed, the empty ones dropped. */
  function PiecesOf(line: Bytes): set<Bytes> {
    Members(Trimmed(Split(line, NEWLINE)))
  }

  /** The names an index shows for a name put into it; the name itself when it is clean. */
  function Pieces(name: Bytes): set<Bytes> {
    PiecesOf(Trim(name))
  }

  lemma CleanPieces(name: Bytes)
    requires CleanName(name)
    ensures PiecesOf(name) == {name} && Pieces(name) == {name}
  {
    SplitPiece(name, NEWLINE);
    TrimBare(name);
    TrimmedClean([name]);
    MembersOne(name);
  }

  lemma {:induction false} TrimStartEnds(s: Bytes)
    ensures TrimStart(s) == s[|s| - |TrimStart(s)|..] && FrontWhite(TrimStart(s)) == 0
    decreases |s|
  {
    if FrontWhite(s) > 0 {
      TrimStartEnds(s[FrontWhite(s)..]);
    }
  }

  lemma {:induction false} TrimEndEnds(s: Bytes)
    ensures TrimEnd(s) == s[..|TrimEnd(s)|] && BackWhite(TrimEnd(s)) == 0
    decreases |s|
  {
    if BackWhite(s) > 0 {
      TrimEndEnds(s[..|s| - BackWhite(s)]);
    }
  }

  lemma WhiteSizes(s: Bytes)
    ensures Bare(s) <==> FrontWhite(s) == 0 && BackWhite(s) == 0
  {
    if FrontWhite(s) == 0 && BackWhite(s) == 0 {
      forall k: nat ensures !WhiteInFront(s, k) && !WhiteBehind(s, k) {
        assert k == 1 || k == 2 || k == 3 || k == 0 || k > 3;
      }
    }
  }

  /** A part in front of a text has no white space at its front that the text lacks. */
  lemma FrontStaysBare(front: Bytes, s: Bytes)
    requires front <= s && FrontWhite(s) == 0
    ensures FrontWhite(front) == 0
  {
    PrefixWhite(front, s, 1);
    PrefixWhite(front, s, 2);
    PrefixWhite(front, s, 3);
  }

  lemma PrefixWhite(front: Bytes, s: Bytes, k: nat)
    requires front <= s
    ensures WhiteInFront(front, k) ==> WhiteInFront(s, k)
  {
  }

  lemma WhiteLacks(s: Bytes, i: nat, k: nat, j: nat)
    requires WhiteAt(s, i, k) && i <= j < i + k
    ensures s[j] != SLASH && s[j] != 0 && s[j] != 46
  {
  }

  /** A path whose last name is bare is bare. */
  lemma BarePath(front: Bytes, name: Bytes)
    requires name != [] && Bare(name) && (front != [] ==> front[0] == SLASH)
    ensures Bare(front + [SLASH] + name)
  {
    var path := front + [SLASH] + name;
    assert path[0] == SLASH;
    forall k: nat ensures !WhiteInFront(path, k) && !WhiteBehind(path, k) {
      NoWhiteInFront(path, k);
      NoWhiteBehind(front, name, k);
    }
  }

  lemma NoWhiteInFront(path: Bytes, k: nat)
    requires path != [] && path[0] == SLASH
    ensures !WhiteInFront(path, k)
  {
  }

  lemma TailWhite(s: Bytes, t: Bytes, k: nat)
    requires k <= |s| && k <= |t| && s[|s| - k..] == t[|t| - k..]
    ensures WhiteBehind(s, k) <==> WhiteBehind(t, k)
  {
    var c := s[|s| - k..];
    assert k >= 1 ==> c[0] == s[|s| - k] && c[0] == t[|t| - k];
    assert k >= 2 ==> c[1] == s[|s| - k + 1] && c[1] == t[|t| - k + 1];
    assert k >= 3 ==> c[2] == s[|s| - k + 2] && c[2] == t[|t| - k + 2];
  }

  lemma NoWhiteBehind(front: Bytes, name: Bytes, k: nat)
    requires name != [] && Bare(name)
    ensures !WhiteBehind(front + [SLASH] + name, k)
  {
    var path := front + [SLASH] + name;
    assert !WhiteBehind(name, k);
    if k <= |name| {
      assert path[|path| - k..] == name[|name| - k..];
      TailWhite(path, name, k);
    } else {
      assert path[|front|] == SLASH;
    }
  }

  lemma TrimsFront(white: Bytes, name: Bytes)
    requires White(white) && Bare(name)
    ensures TrimStart(white + name) == name
  {
    var s := white + name;
    assert s[|white|..] == name;
    assert FrontWhite(s) == |white|;
    WhiteSizes(name);
  }

  /** A trimmed line without newline and slash is a clean name, or empty. */
  lemma TrimIsClean(s: Bytes)
    requires NEWLINE !in s && SLASH !in s
    ensures Trim(s) != [] ==> CleanName(Trim(s))
  {
    TrimStartEnds(s);
    TrimEndEnds(TrimStart(s));
    FrontStaysBare(Trim(s), TrimStart(s));
    WhiteSizes(Trim(s));
  }

  lemma {:induction false} TrimmedIsClean(lines: seq<Bytes>)
    requires Free(lines, NEWLINE) && Free(lines, SLASH)
    ensures AllClean(Trimmed(lines))
  {
    if lines != [] {
      TrimIsClean(lines[0]);
      TrimmedIsClean(lines[1..]);
    }
  }

  lemma DecodeIsClean(entries: Bytes)
    requires SLASH !in entries
    ensures AllClean(DecodeIndex(entries))
  {
    SplitFree(entries, NEWLINE);
    SplitWithout(entries, NEWLINE, SLASH);
    TrimmedIsClean(Split(entries, NEWLINE));
  }

  lemma {:induction false} TrimmedConcat(a: seq<Bytes>, b: seq<Bytes>)
    ensures Trimmed(a + b) == Trimmed(a) + Trimmed(b)
  {
    if a == [] {
      assert a + b == b;
    } else {
      assert (a + b)[1..] == a[1..] + b;
      TrimmedConcat(a[1..], b);
    }
  }

  /** Some line shows the name. */
  ghost predicate Shown(lines: seq<Bytes>, name: Bytes) {
    exists i :: 0 <= i < |lines| && name in PiecesOf(lines[i])
  }

  lemma ShownFirst(lines: seq<Bytes>, name: Bytes)
    requires lines != []
    ensures Shown(lines, name) <==> name in PiecesOf(lines[0]) || Shown(lines[1..], name)
  {
    if Shown(lines, name) {
      var i :| 0 <= i < |lines| && name in PiecesOf(lines[i]);
      if i > 0 { assert lines[1..][i - 1] == lines[i]; }
    }
    if Shown(lines[1..], name) {
      var i :| 0 <= i < |lines[1..]| && name in PiecesOf(lines[1..][i]);
      assert lines[i + 1] == lines[1..][i];
    }
  }

  /** Joined lines show exactly what each of them shows. */
  lemma {:induction false} JoinShows(lines: seq<Bytes>, name: Bytes)
    ensures name in PiecesOf(Join(lines, NEWLINE)) <==> Shown(lines, name)
  {
    if lines == [] {
      assert Split([], NEWLINE) == [[]];
      var empty: Bytes := [];
      assert Trimmed([empty]) == [] + Trimmed([empty][1..]);
    } else {
      ShownFirst(lines, name);
      if |lines| > 1 {
        JoinShows(lines[1..], name);
        SplitConcat(lines[0], Join(lines[1..], NEWLINE), NEWLINE);
        TrimmedConcat(Split(lines[0], NEWLINE), Split(Join(lines[1..], NEWLINE), NEWLINE));
        MembersConcat(Trimmed(Split(lines[0], NEWLINE)), Trimmed(Split(Join(lines[1..], NEWLINE), NEWLINE)));
      }
    }
  }

  lemma SameMembersShow(a: seq<Bytes>, b: seq<Bytes>, name: Bytes)
    requires Members(a) == Members(b)
    ensures Shown(a, name) <==> Shown(b, name)
  {
    if Shown(a, name) {
      var i :| 0 <= i < |a| && name in PiecesOf(a[i]);
      assert a[i] in Members(b);
    }
    if Shown(b, name) {
      var i :| 0 <= i < |b| && name in PiecesOf(b[i]);
      assert b[i] in Members(a);
    }
  }

  lemma MemberFirst(names: seq<Bytes>, name: Bytes)
    requires names != []
    ensures name in names <==> name == names[0] || name in names[1..]
  {
    assert names == [names[0]] + names[1..];
  }

  lemma {:induction false} CleanShow(names: seq<Bytes>, name: Bytes)
    requires AllClean(names)
    ensures Shown(names, name) <==> name in names
  {
    if names != [] {
      CleanPieces(names[0]);
      ShownFirst(names, name);
      CleanShow(names[1..], name);
      MemberFirst(names, name);
    }
  }

  /** What an index of clean names shows after one more name was put into it. */
  lemma DecodeAdded(names: seq<Bytes>, name: Bytes)
    requires AllClean(names) && EncodeIndex(names + [name]).Some?
    ensures Members(DecodeIndex(EncodeIndex(names + [name]).value)) == Members(names) + Pieces(name)
  {
    var lines := Trimmed(names + [name]);
    var sorted := SortUnique(lines);
    SortUniqueSorts(lines);
    TrimmedConcat(names, [name]);
    TrimmedClean(names);
    var last := Trimmed([name]);
    assert last == if Trim(name) == [] then [] else [Trim(name)];
    forall p ensures p in Members(DecodeIndex(Join(sorted, NEWLINE))) <==> p in Members(names) + Pieces(name) {
      JoinShows(sorted, p);
      SameMembersShow(sorted, lines, p);
      ShownConcat(names, last, p);
      CleanShow(names, p);
      LastShows(name, p);
    }
  }

  lemma LastShows(name: Bytes, p: Bytes)
    ensures Shown(Trimmed([name]), p) <==> p in Pieces(name)
  {
    if Trim(name) == [] {
      assert Trimmed([name]) == [] + Trimmed([name][1..]);
      JoinShows([], p);
    } else {
      assert Trimmed([name]) == [Trim(name)] + Trimmed([name][1..]);
      assert Trimmed([name]) == [Trim(name)];
      ShownFirst([Trim(name)], p);
    }
  }

  lemma ShownConcat(a: seq<Bytes>, b: seq<Bytes>, name: Bytes)
    ensures Shown(a + b, name) <==> Shown(a, name) || Shown(b, name)
  {
    if Shown(a + b, name) {
      var i :| 0 <= i < |a + b| && name in PiecesOf((a + b)[i]);
      if i >= |a| { assert (a + b)[i] == b[i - |a|]; }
    }
    if Shown(a, name) {
      var i :| 0 <= i < |a| && name in PiecesOf(a[i]);
      assert (a + b)[i] == a[i];
    }
    if Shown(b, name) {
      var i :| 0 <= i < |b| && name in PiecesOf(b[i]);
      assert (a + b)[|a| + i] == b[i];
    }
  }

  /** The lines of an index of slash-free names hold no slash. */
  lemma EncodedLacksSlash(names: seq<Bytes>)
    requires Free(names, SLASH) && EncodeIndex(names).Some?
    ensures SLASH !in EncodeIndex(names).value
  {
    var lines := Trimmed(names);
    TrimmedLacks(names, SLASH);
    SortUniqueSorts(lines);
    forall i | 0 <= i < |SortUnique(lines)| ensures SLASH !in SortUnique(lines)[i] {
      assert SortUnique(lines)[i] in Members(lines);
    }
    JoinWithout(SortUnique(lines), NEWLINE, SLASH);
  }

  lemma {:induction false} TrimmedLacks(names: seq<Bytes>, b: Byte)
    requires Free(names, b)
    ensures Free(Trimmed(names), b)
  {
    if names != [] {
      TrimmedLacks(names[1..], b);
      TrimStartEnds(names[0]);
      TrimEndEnds(TrimStart(names[0]));
    }
  }
}
