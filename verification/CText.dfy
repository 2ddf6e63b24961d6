// The C text helpers of the DOOM service: substring search, the key lookups over JSON
// text, and the appending writers.
module CText {
  import opened Bytes
  import opened Text
  import Decimal

  const QUOTE: Byte := 34
  const COLON: Byte := 58
  const COMMA: Byte := 44
  const BACKSLASH: Byte := 92

  /** The C string in a buffer: what precedes its first NUL. */
  function CString(s: Bytes): (r: Bytes)
    ensures |r| <= |s| && r == s[..|r|] && 0 !in r
  {
    if s == [] || s[0] == 0 then [] else [s[0]] + CString(s[1..])
  }

  lemma {:induction false} CStringOfText(s: Bytes)
    requires 0 !in s
    ensures CString(s) == s
  {
    if s != [] {
      CStringOfText(s[1..]);
      assert s == [s[0]] + s[1..];
    }
  }

  // --------------------------------------------------------------------- strstr

  /** The first position at which `needle` occurs. */
  function IndexOf(haystack: Bytes, needle: Bytes): (r: Option<nat>)
    ensures r.Some? ==> r.value + |needle| <= |haystack|
  {
    if needle <= haystack then Some(0)
    else if haystack == [] then None
    else Shift(IndexOf(haystack[1..], needle), 1)
  }

  function Shift(r: Option<nat>, offset: nat): Option<nat> {
    if r.None? then None else Some(r.value + offset)
  }

  lemma CompareStep(haystack: Bytes, needle: Bytes, i: nat, j: nat)
    requires i + j <= |haystack| && j <= |needle| && haystack[i..i + j] == needle[..j]
    requires j == |needle| || i + j == |haystack| || haystack[i + j] != needle[j]
    ensures j == |needle| <==> needle <= haystack[i..]
  {
    var s := haystack[i..];
    assert s[..j] == haystack[i..i + j];
    if j < |needle| && i + j < |haystack| {
      assert s[j] == haystack[i + j];
    }
  }

  /** jam_strstr: the scan with its inner comparison loop; the terminating NUL never matches
      a needle character. */
  method StrStr(haystack: Bytes, needle: Bytes) returns (r: Option<nat>)
    requires 0 !in haystack && 0 !in needle
    ensures r == IndexOf(haystack, needle)
  {
    if |needle| == 0 { return Some(0); }
    var i := 0;
    assert haystack[0..] == haystack;
    while i < |haystack|
      invariant 0 <= i <= |haystack|
      invariant IndexOf(haystack, needle) == Shift(IndexOf(haystack[i..], needle), i)
    {
      var j := MatchLength(haystack, i, needle);
      if j == |needle| { return Some(i); }
      assert haystack[i..][1..] == haystack[i + 1..];
      i := i + 1;
    }
    return None;
  }

  /** The inner loop: how many characters agree from position `i`. */
  method MatchLength(haystack: Bytes, i: nat, needle: Bytes) returns (j: nat)
    requires i <= |haystack|
    ensures j == |needle| <==> needle <= haystack[i..]
  {
    j := 0;
    while j < |needle| && i + j < |haystack| && haystack[i + j] == needle[j]
      invariant 0 <= j <= |needle| && i + j <= |haystack|
      invariant haystack[i..i + j] == needle[..j]
    {
      assert haystack[i..i + j + 1] == haystack[i..i + j] + [haystack[i + j]];
      j := j + 1;
    }
    CompareStep(haystack, needle, i, j);
  }

  /** A piece that lacks the needle's first character is skipped. */
  lemma {:induction false} IndexSkips(piece: Bytes, rest: Bytes, needle: Bytes)
    requires needle != [] && needle[0] !in piece
    ensures IndexOf(piece + rest, needle) == Shift(IndexOf(rest, needle), |piece|)
  {
    if piece == [] {
      assert piece + rest == rest;
    } else {
      var s := piece + rest;
      assert s[0] == piece[0] && s[1..] == piece[1..] + rest;
      assert !(needle <= s);
      IndexSkips(piece[1..], rest, needle);
    }
  }

  // ------------------------------------------------------ text cut at its quotes

  function Quoted(name: Bytes): (r: Bytes)
    ensures |r| == |name| + 2
  {
    [QUOTE] + name + [QUOTE]
  }

  /** The two texts differ at a common position. */
  ghost predicate Clash(a: Bytes, b: Bytes) {
    exists k :: 0 <= k < |a| && k < |b| && a[k] != b[k]
  }

  /** In text cut at its quotes, no quoted piece is `name` with `tail` after its closing quote. */
  ghost predicate Lacks(parts: seq<Bytes>, name: Bytes, tail: Bytes) {
    forall i :: 1 <= i < |parts| && parts[i] == name ==> i + 1 < |parts| && Clash(parts[i + 1], tail)
  }

  lemma FirstQuote(piece: Bytes, after: Bytes)
    requires QUOTE !in piece
    ensures var s := piece + [QUOTE] + after;
            s[|piece|] == QUOTE && (forall i :: 0 <= i < |piece| ==> s[i] != QUOTE)
            && s[..|piece|] == piece && s[|piece| + 1..] == after
  {
    var s := piece + [QUOTE] + after;
    forall i | 0 <= i < |piece| ensures s[i] != QUOTE {
      assert s[i] == piece[i];
    }
  }

  lemma SameUntilQuote(name: Bytes, tail: Bytes, piece: Bytes, after: Bytes)
    requires QUOTE !in name && QUOTE !in piece
    requires name + [QUOTE] + tail <= piece + [QUOTE] + after
    ensures name == piece && tail <= after
  {
    var n, s := name + [QUOTE] + tail, piece + [QUOTE] + after;
    FirstQuote(name, tail);
    FirstQuote(piece, after);
    assert s[|name|] == n[|name|];
    assert |piece| < |n| ==> n[|piece|] == s[|piece|];
    assert n[..|name|] == s[..|name|];
    assert n[|name| + 1..] <= s[|name| + 1..];
  }

  lemma PrefixStep(a: Bytes, b: Bytes)
    requires a != []
    ensures a <= b <==> b != [] && a[0] == b[0] && a[1..] <= b[1..]
  {
    if b != [] && a[0] == b[0] && a[1..] <= b[1..] {
      assert a == [a[0]] + a[1..] && b == [b[0]] + b[1..];
    }
  }

  lemma PrefixHas(a: Bytes, b: Bytes, x: Byte)
    requires x in a && x !in b
    ensures !(a <= b)
  {
    var i :| 0 <= i < |a| && a[i] == x;
    assert i < |b| ==> b[i] != x;
  }

  lemma ClashStops(piece: Bytes, rest: Bytes, tail: Bytes)
    requires Clash(piece, tail)
    ensures !(tail <= piece + rest)
  {
    var k :| 0 <= k < |piece| && k < |tail| && piece[k] != tail[k];
    assert (piece + rest)[k] == piece[k];
  }

  /** What follows the first piece. */
  function AfterFirst(parts: seq<Bytes>): Bytes
    requires parts != []
  {
    if |parts| == 1 then [] else [QUOTE] + Join(parts[1..], QUOTE)
  }

  lemma JoinFirst(parts: seq<Bytes>, rest: Bytes)
    requires parts != []
    ensures Join(parts, QUOTE) + rest == parts[0] + (AfterFirst(parts) + rest)
  {
  }

  lemma SecondPiece(parts: seq<Bytes>, rest: Bytes, tail: Bytes)
    requires |parts| > 1 && Clash(parts[1], tail)
    ensures var after := AfterFirst(parts) + rest;
            after[0] == QUOTE && !(tail <= after[1..])
  {
    var more, after := parts[1..], AfterFirst(parts) + rest;
    JoinFirst(more, rest);
    assert after == [QUOTE] + (Join(more, QUOTE) + rest);
    ClashStops(parts[1], AfterFirst(more) + rest, tail);
  }

  lemma NoMatchAtPiece(piece: Bytes, after: Bytes, name: Bytes, tail: Bytes)
    requires QUOTE !in piece && QUOTE !in name
    requires after == [] || after[0] == QUOTE
    requires piece != name || (after != [] && !(tail <= after[1..]))
    ensures !(name + [QUOTE] + tail <= piece + after)
  {
    var n, s := name + [QUOTE] + tail, piece + after;
    if after == [] {
      assert n[|name|] == QUOTE;
      PrefixHas(n, s, QUOTE);
    } else {
      assert s == piece + [QUOTE] + after[1..];
      if n <= s {
        SameUntilQuote(name, tail, piece, after[1..]);
      }
    }
  }

  /** The text after an opening quote does not begin with `name`, its quote and `tail`. */
  lemma NoMatchHere(parts: seq<Bytes>, rest: Bytes, name: Bytes, tail: Bytes)
    requires parts != [] && Free(parts, QUOTE) && QUOTE !in name
    requires rest == [] || rest[0] == QUOTE
    requires parts[0] == name ==> 1 < |parts| && Clash(parts[1], tail)
    ensures !(name + [QUOTE] + tail <= Join(parts, QUOTE) + rest)
  {
    JoinFirst(parts, rest);
    var after := AfterFirst(parts) + rest;
    assert |parts| == 1 ==> after == rest;
    if parts[0] == name {
      SecondPiece(parts, rest, tail);
    }
    NoMatchAtPiece(parts[0], after, name, tail);
  }

  lemma OneQuote(t: Bytes, name: Bytes, tail: Bytes)
    requires !(name + [QUOTE] + tail <= t)
    ensures IndexOf([QUOTE] + t, Quoted(name) + tail) == Shift(IndexOf(t, Quoted(name) + tail), 1)
  {
    var s, needle := [QUOTE] + t, Quoted(name) + tail;
    assert s[1..] == t;
    assert needle[1..] == name + [QUOTE] + tail;
    PrefixStep(needle, s);
  }

  lemma LacksRest(parts: seq<Bytes>, name: Bytes, tail: Bytes)
    requires |parts| > 1 && Lacks(parts, name, tail)
    ensures Lacks(parts[1..], name, tail)
    ensures parts[1] == name ==> 1 < |parts[1..]| && Clash(parts[1..][1], tail)
  {
    var more := parts[1..];
    forall i | 1 <= i < |more| && more[i] == name ensures i + 1 < |more| && Clash(more[i + 1], tail) {
      assert parts[i + 1] == name;
    }
  }

  /** A piece and the quote behind it are run past. */
  lemma SkipPiece(piece: Bytes, t: Bytes, name: Bytes, tail: Bytes, needle: Bytes)
    requires QUOTE !in piece && !(name + [QUOTE] + tail <= t) && needle == Quoted(name) + tail
    ensures IndexOf(piece + ([QUOTE] + t), needle) == Shift(IndexOf(t, needle), |piece| + 1)
  {
    OneQuote(t, name, tail);
    IndexSkips(piece, [QUOTE] + t, needle);
  }

  lemma JoinPieces(parts: seq<Bytes>, rest: Bytes)
    requires |parts| > 1
    ensures Join(parts, QUOTE) + rest == parts[0] + ([QUOTE] + (Join(parts[1..], QUOTE) + rest))
    ensures |Join(parts, QUOTE)| == |parts[0]| + 1 + |Join(parts[1..], QUOTE)|
  {
  }

  /** Searching for a quoted name runs past text that lacks it. */
  lemma {:induction false} SearchSkips(parts: seq<Bytes>, rest: Bytes, name: Bytes, tail: Bytes)
    requires parts != [] && Free(parts, QUOTE) && QUOTE !in name && Lacks(parts, name, tail)
    requires rest == [] || rest[0] == QUOTE
    ensures IndexOf(Join(parts, QUOTE) + rest, Quoted(name) + tail)
            == Shift(IndexOf(rest, Quoted(name) + tail), |Join(parts, QUOTE)|)
  {
    if |parts| == 1 {
      IndexSkips(parts[0], rest, Quoted(name) + tail);
    } else {
      var more := parts[1..];
      LacksRest(parts, name, tail);
      NoMatchHere(more, rest, name, tail);
      JoinPieces(parts, rest);
      SkipPiece(parts[0], Join(more, QUOTE) + rest, name, tail, Quoted(name) + tail);
      SearchSkips(more, rest, name, tail);
    }
  }

  /** A quoted name is found at its first occurrence, and what follows it is at hand. */
  lemma FoundAfter(parts: seq<Bytes>, name: Bytes, tail: Bytes, rest: Bytes)
    requires parts != [] && Free(parts, QUOTE) && QUOTE !in name && Lacks(parts, name, tail)
    ensures var text := Join(parts, QUOTE) + (Quoted(name) + tail + rest);
            var r := IndexOf(text, Quoted(name) + tail);
            r == Some(|Join(parts, QUOTE)|)
            && r.value + |name| + 2 <= |text| && text[r.value + |name| + 2..] == tail + rest
  {
    var head, found := Join(parts, QUOTE), Quoted(name) + tail + rest;
    SearchSkips(parts, found, name, tail);
    assert found[..|Quoted(name) + tail|] == Quoted(name) + tail;
    assert (head + found)[|head| + |name| + 2..] == tail + rest;
  }

  // --------------------------------------------------- text behind a closing quote

  /** A match across a closing quote has that quote as one of its own two. */
  lemma MatchAcross(x: Bytes, after: Bytes, name: Bytes, tail: Bytes)
    requires x != [] && x[|x| - 1] == QUOTE && QUOTE !in name && QUOTE !in tail
    requires Quoted(name) + tail <= x + after && |name| + 2 + |tail| > |x|
    ensures name + [QUOTE] + tail <= after || (tail != [] && tail <= after)
  {
    var needle, s := Quoted(name) + tail, x + after;
    assert needle[|x| - 1] == s[|x| - 1] == x[|x| - 1];
    assert needle[|x|..] <= s[|x|..] == after;
    if |x| == 1 {
      assert needle[1..] == name + [QUOTE] + tail;
    } else {
      assert needle[|name| + 2..] == tail;
      assert |x| == |name| + 2;
    }
  }

  /** The text behind the quote does not go on as the needle would. */
  predicate Parted(after: Bytes, name: Bytes, tail: Bytes) {
    && QUOTE !in name && QUOTE !in tail
    && !(name + [QUOTE] + tail <= after) && (tail == [] || !(tail <= after))
  }

  /** A quoted name that begins in a text with a closing quote ends there. */
  lemma EndsWithQuote(x: Bytes, after: Bytes, name: Bytes, tail: Bytes)
    requires x != [] && x[|x| - 1] == QUOTE && Parted(after, name, tail)
    ensures Quoted(name) + tail <= x + after <==> Quoted(name) + tail <= x
  {
    var needle, s := Quoted(name) + tail, x + after;
    if |needle| <= |x| {
      assert s[..|needle|] == x[..|needle|];
    } else if needle <= s {
      MatchAcross(x, after, name, tail);
    }
  }

  /** A quoted name is found in a text that ends with its closing quote, or behind it. */
  lemma {:induction false} SearchAcross(x: Bytes, after: Bytes, name: Bytes, tail: Bytes, needle: Bytes)
    requires x != [] && x[|x| - 1] == QUOTE && Parted(after, name, tail) && needle == Quoted(name) + tail
    ensures IndexOf(x + after, needle)
            == if IndexOf(x, needle).Some? then IndexOf(x, needle) else Shift(IndexOf(after, needle), |x|)
  {
    EndsWithQuote(x, after, name, tail);
    if !(needle <= x) {
      NotAtFront(x, after, needle);
      if |x| > 1 {
        SearchAcross(x[1..], after, name, tail, needle);
      }
    }
  }

  lemma NotAtFront(x: Bytes, after: Bytes, needle: Bytes)
    requires x != [] && |needle| > 1 && !(needle <= x) && !(needle <= x + after)
    ensures IndexOf(x + after, needle) == Shift(IndexOf(x[1..] + after, needle), 1)
    ensures IndexOf(x, needle) == Shift(IndexOf(x[1..], needle), 1)
    ensures |x| == 1 ==> IndexOf(x[1..], needle).None? && x[1..] + after == after
  {
    assert (x + after)[1..] == x[1..] + after;
  }

  // ------------------------------------------------------------- number lookups

  predicate Separator(b: Byte) {
    b == COLON || b == 32 || b == 9
  }

  function SkipSeparators(s: Bytes): (r: Bytes)
    ensures |r| <= |s|
  {
    if s != [] && Separator(s[0]) then SkipSeparators(s[1..]) else s
  }

  /** One digit more, in 32-bit arithmetic. */
  function Shifted(result: nat, digit: Byte): (r: nat)
    requires Decimal.Digit(digit)
    ensures r < U32_LIMIT
  {
    (result * 10 + (digit as int - 48)) % U32_LIMIT
  }

  /** The digits at the front. */
  function ReadNumber(s: Bytes, result: nat): (r: nat)
    requires result < U32_LIMIT
    ensures r < U32_LIMIT
  {
    if s == [] || !Decimal.Digit(s[0]) then result
    else ReadNumber(s[1..], Shifted(result, s[0]))
  }

  function NumberAt(s: Bytes, fallback: nat): (r: nat)
    requires fallback < U32_LIMIT
    ensures r < U32_LIMIT
  {
    var t := SkipSeparators(s);
    if t == [] || !Decimal.Digit(t[0]) then fallback else ReadNumber(t, 0)
  }

  lemma {:induction false} SkipStops(s: Bytes, after: Bytes)
    requires after == [] || !Separator(after[0])
    ensures SkipSeparators(s + after) == SkipSeparators(s) + after
  {
    if s == [] {
      assert s + after == after && SkipSeparators(s) + after == after;
    } else {
      assert (s + after)[1..] == s[1..] + after;
      SkipStops(s[1..], after);
    }
  }

  lemma {:induction false} ReadStops(s: Bytes, after: Bytes, result: nat)
    requires result < U32_LIMIT && (after == [] || !Decimal.Digit(after[0]))
    ensures ReadNumber(s + after, result) == ReadNumber(s, result)
  {
    if s == [] {
      assert s + after == after;
    } else if Decimal.Digit(s[0]) {
      assert (s + after)[1..] == s[1..] + after;
      ReadStops(s[1..], after, Shifted(result, s[0]));
    }
  }

  /** A number ends before a character that is no separator and no digit. */
  lemma NumberStops(s: Bytes, after: Bytes, fallback: nat)
    requires fallback < U32_LIMIT
    requires after == [] || !(Separator(after[0]) || Decimal.Digit(after[0]))
    ensures NumberAt(s + after, fallback) == NumberAt(s, fallback)
  {
    var t := SkipSeparators(s);
    SkipStops(s, after);
    if t == [] {
      assert t + after == after;
    } else {
      ReadStops(t, after, 0);
    }
  }

  /** The text after the first quoted `name`. */
  function AfterName(json: Bytes, name: Bytes): Option<Bytes>
  {
    match IndexOf(CString(json), Quoted(name))
    case None => None
    case Some(i) => Some(json[i + |name| + 2..])
  }

  lemma AfterNameAt(json: Bytes, name: Bytes, at: nat)
    requires 0 !in json && IndexOf(json, Quoted(name)) == Some(at)
    ensures AfterName(json, name) == Some(json[at + |name| + 2..])
  {
    CStringOfText(json);
    assert CString(json) == json;
  }

  lemma AfterNameNone(json: Bytes, name: Bytes)
    requires 0 !in json && IndexOf(json, Quoted(name)).None?
    ensures AfterName(json, name).None?
  {
    CStringOfText(json);
    assert CString(json) == json;
  }

  function NumberValue(json: Bytes, name: Bytes, fallback: nat): (r: nat)
    requires fallback < U32_LIMIT
    ensures r < U32_LIMIT
  {
    match AfterName(json, name)
    case None => fallback
    case Some(s) => NumberAt(s, fallback)
  }

  /** The search both lookups share: where the text after the quoted name begins. */
  method ScanName(json: Bytes, name: Bytes) returns (r: Option<nat>)
    requires 0 !in name && |name| + 3 < 64
    ensures r.Some? ==> r.value <= |json|
    ensures AfterName(json, name) == if r.None? then None else Some(json[r.value..])
  {
    var at := StrStr(CString(json), Quoted(name));
    return if at.None? then None else Some(at.value + |name| + 2);
  }

  /** The separator loop both lookups share. */
  method ScanSeparators(json: Bytes, start: nat) returns (cursor: nat)
    requires start <= |json|
    ensures start <= cursor <= |json| && json[cursor..] == SkipSeparators(json[start..])
  {
    cursor := start;
    while cursor < |json| && Separator(json[cursor])
      invariant start <= cursor <= |json|
      invariant SkipSeparators(json[cursor..]) == SkipSeparators(json[start..])
    {
      assert json[cursor..][1..] == json[cursor + 1..];
      cursor := cursor + 1;
    }
  }

  /** number_value: the scan over `json`, with the cursor as an index. */
  method ScanNumber(json: Bytes, name: Bytes, fallback: nat) returns (r: nat)
    requires 0 !in name && |name| + 3 < 64 && fallback < U32_LIMIT
    ensures r == NumberValue(json, name, fallback)
  {
    var after := ScanName(json, name);
    if after.None? { return fallback; }
    var cursor := ScanSeparators(json, after.value);
    var result, found := 0, false;
    ghost var digits := json[cursor..];
    while cursor < |json| && Decimal.Digit(json[cursor])
      invariant cursor <= |json| && 0 <= result < U32_LIMIT
      invariant ReadNumber(json[cursor..], result) == ReadNumber(digits, 0)
      invariant found ==> digits != [] && Decimal.Digit(digits[0])
      invariant !found ==> digits == json[cursor..]
    {
      assert json[cursor..][1..] == json[cursor + 1..];
      result := Shifted(result, json[cursor]);
      cursor := cursor + 1;
      found := true;
    }
    return if found then result else fallback;
  }

  /** Reading inverts printing, whatever follows the digits. */
  lemma {:induction false} ReadPrinted(n: nat, rest: Bytes)
    requires n < U32_LIMIT
    ensures ReadNumber(Decimal.Print(n) + rest, 0) == ReadNumber(rest, n)
  {
    var digit: Byte := 48 + n % 10;
    ReadDigit(n, rest);
    if n >= 10 {
      assert Decimal.Print(n) + rest == Decimal.Print(n / 10) + ([digit] + rest);
      ReadPrinted(n / 10, [digit] + rest);
    }
  }

  lemma ReadDigit(n: nat, rest: Bytes)
    requires n < U32_LIMIT
    ensures ReadNumber([48 + n % 10] + rest, n / 10) == ReadNumber(rest, n)
  {
    var s := [48 + n % 10] + rest;
    assert s[0] == 48 + n % 10 && s[1..] == rest;
    DigitBack(n);
  }

  lemma DigitBack(n: nat)
    requires n < U32_LIMIT
    ensures Shifted(n / 10, 48 + n % 10) == n
  {
  }

  lemma {:induction false} PrintStartsWithDigit(n: nat)
    ensures Decimal.Digit(Decimal.Print(n)[0])
  {
    if n >= 10 {
      PrintStartsWithDigit(n / 10);
    }
  }

  /** A printed number after its colon reads back. */
  lemma NumberAtPrinted(n: nat, fallback: nat, rest: Bytes)
    requires n < U32_LIMIT && fallback < U32_LIMIT
    requires rest == [] || !Decimal.Digit(rest[0])
    ensures NumberAt([COLON] + Decimal.Print(n) + rest, fallback) == n
  {
    var s, t := [COLON] + Decimal.Print(n) + rest, Decimal.Print(n) + rest;
    assert s[1..] == t;
    PrintStartsWithDigit(n);
    assert t[0] == Decimal.Print(n)[0];
    assert SkipSeparators(t) == t && SkipSeparators(s) == t;
    ReadPrinted(n, rest);
    assert ReadNumber(rest, n) == n;
  }

  // ------------------------------------------------------------- string lookups

  /** The text up to the closing quote, each backslash dropped and the next character kept;
      empty when the quote is missing or `capacity` is too small. */
  function Unquote(s: Bytes, capacity: nat, done: Bytes): (r: Bytes)
    decreases |s|
  {
    if s == [] then []
    else if s[0] == QUOTE then done
    else
      var skip := if s[0] == BACKSLASH && |s| > 1 then 1 else 0;
      if |done| + 1 >= capacity then [] else Unquote(s[skip + 1..], capacity, done + [s[skip]])
  }

  function StringAt(s: Bytes, capacity: nat): Bytes {
    var t := SkipSeparators(s);
    if t == [] || t[0] != QUOTE then [] else Unquote(t[1..], capacity, [])
  }

  function StringValue(json: Bytes, name: Bytes, capacity: nat): Bytes {
    match AfterName(json, name)
    case None => []
    case Some(s) => StringAt(s, capacity)
  }

  lemma {:induction false} UnquoteFits(s: Bytes, capacity: nat, done: Bytes)
    requires |done| < capacity
    ensures |Unquote(s, capacity, done)| < capacity
    decreases |s|
  {
    if s != [] && s[0] != QUOTE && |done| + 1 < capacity {
      var skip := if s[0] == BACKSLASH && |s| > 1 then 1 else 0;
      UnquoteFits(s[skip + 1..], capacity, done + [s[skip]]);
    }
  }

  /** string_value: the copying scan. An empty result is its failure return. */
  method ScanString(json: Bytes, name: Bytes, capacity: nat) returns (r: Bytes)
    requires 0 !in name && |name| + 3 < 64
    ensures r == StringValue(json, name, capacity)
  {
    var after := ScanName(json, name);
    if after.None? { return []; }
    var cursor := ScanSeparators(json, after.value);
    if cursor >= |json| || json[cursor] != QUOTE { return []; }
    assert json[cursor..][1..] == json[cursor + 1..];
    cursor := cursor + 1;
    r := CopyUnquoted(json, cursor, capacity);
  }

  /** The copying loop of string_value. */
  method CopyUnquoted(json: Bytes, start: nat, capacity: nat) returns (output: Bytes)
    requires start <= |json|
    ensures output == Unquote(json[start..], capacity, [])
  {
    var cursor := start;
    output := [];
    while cursor < |json| && json[cursor] != QUOTE
      invariant cursor <= |json|
      invariant Unquote(json[cursor..], capacity, output) == Unquote(json[start..], capacity, [])
    {
      ghost var before := cursor;
      if json[cursor] == BACKSLASH && cursor + 1 < |json| { cursor := cursor + 1; }
      assert json[before..][cursor - before] == json[cursor];
      assert json[before..][cursor - before + 1..] == json[cursor + 1..];
      if |output| + 1 >= capacity { return []; }
      output := output + [json[cursor]];
      cursor := cursor + 1;
    }
    if cursor >= |json| { return []; }
    return output;
  }

  predicate Plain(s: Bytes) {
    QUOTE !in s && BACKSLASH !in s
  }

  /** What has been copied stays in front of the result. */
  lemma {:induction false} UnquoteKeeps(s: Bytes, capacity: nat, done: Bytes)
    ensures Unquote(s, capacity, done) == [] || done <= Unquote(s, capacity, done)
    decreases |s|
  {
    if s != [] && s[0] != QUOTE && |done| + 1 < capacity {
      var skip := if s[0] == BACKSLASH && |s| > 1 then 1 else 0;
      UnquoteKeeps(s[skip + 1..], capacity, done + [s[skip]]);
    }
  }

  /** Once a backslash was dropped the copy stays behind: `k` characters are copied, `c` are
      consumed, and all between are backslashes. */
  lemma {:induction false} UnquoteBehind(s: Bytes, rest: Bytes, capacity: nat, k: nat, c: nat)
    requires k < c <= |s| && forall i :: k <= i < c ==> s[i] == BACKSLASH
    ensures Unquote((s + [QUOTE] + rest)[c..], capacity, s[..k]) != s
    decreases |s| - c
  {
    var whole := s + [QUOTE] + rest;
    var t := whole[c..];
    assert t[0] == whole[c];
    if c < |s| && s[c] != QUOTE && k + 1 < capacity {
      var skip := if s[c] == BACKSLASH then 1 else 0;
      assert t[skip] == whole[c + skip] && t[skip + 1..] == whole[c + skip + 1..];
      if whole[c + skip] == s[k] {
        assert s[..k] + [t[skip]] == s[..k + 1];
        assert c + skip < |s| && s[c + skip] == BACKSLASH;
        UnquoteBehind(s, rest, capacity, k + 1, c + skip + 1);
      } else {
        CopiedWrong(s, t[skip + 1..], capacity, k, t[skip]);
      }
    }
  }

  /** A wrong character stays in the result. */
  lemma CopiedWrong(s: Bytes, t: Bytes, capacity: nat, k: nat, b: Byte)
    requires k < |s| && b != s[k]
    ensures Unquote(t, capacity, s[..k] + [b]) != s
  {
    UnquoteKeeps(t, capacity, s[..k] + [b]);
    assert (s[..k] + [b])[k] == b;
  }

  /** A quoted text reads back unchanged exactly when it holds no quote and no backslash. */
  lemma UnquoteExact(s: Bytes, rest: Bytes, capacity: nat, at: nat)
    requires at <= |s| < capacity && Plain(s[..at])
    ensures Unquote((s + [QUOTE] + rest)[at..], capacity, s[..at]) == s <==> Plain(s)
    decreases |s| - at
  {
    var t := (s + [QUOTE] + rest)[at..];
    if at == |s| {
      assert s[..at] == s && t[0] == QUOTE;
    } else {
      assert t[0] == s[at] && |t| > 1;
      if Plain([s[at]]) {
        assert s[..at] + [t[0]] == s[..at + 1] && t[1..] == (s + [QUOTE] + rest)[at + 1..];
        UnquoteExact(s, rest, capacity, at + 1);
      } else if s[at] == BACKSLASH {
        if t[1] == BACKSLASH {
          assert at + 1 < |s| && s[at + 1] == BACKSLASH;
          assert s[..at] + [t[1]] == s[..at + 1] && t[2..] == (s + [QUOTE] + rest)[at + 2..];
          UnquoteBehind(s, rest, capacity, at + 1, at + 2);
        } else {
          CopiedWrong(s, t[2..], capacity, at, t[1]);
        }
      }
    }
  }

  // -------------------------------------------------------------------- writers

  function Appended(offset: nat, size: nat, capacity: nat): nat {
    if offset + size + 1 >= capacity then capacity else offset + size
  }

  /** append_text: all of `text` and a NUL, or nothing and the capacity as the new offset. */
  method AppendText(output: array<Byte>, offset: nat, text: Bytes) returns (r: nat)
    requires offset <= output.Length && 0 !in text
    modifies output
    ensures r == Appended(offset, |text|, output.Length)
    ensures r == if offset + |text| + 1 < output.Length then offset + |text| else output.Length
    ensures r == output.Length ==> output[..] == old(output[..])
    ensures r < output.Length ==> output[..r] == old(output[..offset]) + text && output[r] == 0
  {
    var size := |text|;
    if offset + size + 1 >= output.Length { return output.Length; }
    var i := 0;
    while i < size
      invariant 0 <= i <= size
      invariant output[..offset + i] == old(output[..offset]) + text[..i]
    {
      output[offset + i] := text[i];
      assert output[..offset + i + 1] == output[..offset + i] + [text[i]];
      i := i + 1;
    }
    output[offset + size] := 0;
    assert output[..offset + size] == old(output[..offset]) + text;
    return offset + size;
  }

  function Reversed(s: Bytes): Bytes {
    if s == [] then [] else [s[|s| - 1]] + Reversed(s[..|s| - 1])
  }

  lemma {:induction false} ReversedSnoc(s: Bytes, last: Byte)
    ensures Reversed(s + [last]) == [last] + Reversed(s)
  {
    assert (s + [last])[..|s|] == s;
  }

  lemma PrintSize(n: nat)
    requires n < U32_LIMIT
    ensures |Decimal.Print(n)| <= 10
  {
    assert Decimal.Power(5) == 100000;
    assert Decimal.Power(10) == 10000000000;
    Decimal.PrintLength(n, 10, Decimal.Power(10));
  }

  /** The digits of append_u32, least significant first. */
  method Digits(number: nat) returns (digits: array<Byte>, count: nat)
    requires number < U32_LIMIT
    ensures fresh(digits) && digits.Length == 11 && count <= 10
    ensures Reversed(digits[..count]) == Decimal.Print(number)
  {
    digits := new Byte[11];
    count := 0;
    PrintSize(number);
    var left, more := number, true;
    while more
      invariant count <= 10 && (more ==> count + |Decimal.Print(left)| == |Decimal.Print(number)|)
      invariant more ==> Decimal.Print(left) + Reversed(digits[..count]) == Decimal.Print(number)
      invariant !more ==> Reversed(digits[..count]) == Decimal.Print(number)
      decreases more, left
    {
      ghost var before := digits[..count];
      digits[count] := 48 + left % 10;
      assert digits[..count + 1] == before + [48 + left % 10];
      ReversedSnoc(before, 48 + left % 10);
      count, left := count + 1, left / 10;
      more := left != 0 && count < 11;
    }
  }

  /** append_u32: the decimal digits, or nothing and the capacity as the new offset. */
  method AppendU32(output: array<Byte>, offset: nat, number: nat) returns (r: nat)
    requires offset <= output.Length && number < U32_LIMIT
    modifies output
    ensures r == Appended(offset, |Decimal.Print(number)|, output.Length)
    ensures r == output.Length ==> output[..] == old(output[..])
    ensures r < output.Length ==> output[..r] == old(output[..offset]) + Decimal.Print(number) && output[r] == 0
  {
    var digits, count := Digits(number);
    ReversedLength(digits[..count]);
    if offset + count + 1 >= output.Length { return output.Length; }
    r := CopyReversed(output, offset, digits, count);
    output[r] := 0;
  }

  /** The copying loop of append_u32. */
  method CopyReversed(output: array<Byte>, offset: nat, digits: array<Byte>, size: nat) returns (r: nat)
    requires output != digits && size <= digits.Length && offset + size + 1 < output.Length
    modifies output
    ensures r == offset + size
    ensures output[..r] == old(output[..offset]) + Reversed(digits[..size])
  {
    var count := size;
    r := offset;
    while count > 0
      invariant 0 <= count <= size && r + count == offset + size
      invariant output[..r] + Reversed(digits[..count]) == old(output[..offset]) + Reversed(digits[..size])
    {
      assert digits[..count] == digits[..count - 1] + [digits[count - 1]];
      ReversedSnoc(digits[..count - 1], digits[count - 1]);
      count := count - 1;
      ghost var before := output[..r];
      output[r] := digits[count];
      assert output[..r + 1] == before + [digits[count]];
      r := r + 1;
    }
  }

  lemma {:induction false} ReversedLength(s: Bytes)
    ensures |Reversed(s)| == |s|
  {
    if s != [] {
      ReversedLength(s[..|s| - 1]);
    }
  }
}
