// What the text lookups of the DOOM service find, spelled out.
module TextAnswers {
  import opened Bytes
  import opened Spelling
  import opened CText
  import Decimal

  // ---------------------------------------------------------------------- searching

  ghost predicate OccursAt(text: Bytes, word: Bytes, i: nat) {
    i + |word| <= |text| && text[i..i + |word|] == word
  }

  lemma OccursBehind(text: Bytes, word: Bytes, i: nat)
    requires text != []
    ensures OccursAt(text[1..], word, i) <==> OccursAt(text, word, i + 1)
  {
    if i + 1 + |word| <= |text| {
      assert text[1..][i..i + |word|] == text[i + 1..i + 1 + |word|];
    }
  }

  lemma OccursFirst(text: Bytes, word: Bytes)
    ensures OccursAt(text, word, 0) <==> word <= text
  {
    if |word| <= |text| {
      assert text[0..0 + |word|] == text[..|word|];
    }
  }

  /** The search finds the first occurrence, and finds one whenever there is one. */
  lemma {:induction false} FirstOccurrence(text: Bytes, word: Bytes)
    ensures IndexOf(text, word).Some? ==>
              OccursAt(text, word, IndexOf(text, word).value)
              && forall i: nat :: i < IndexOf(text, word).value ==> !OccursAt(text, word, i)
    ensures IndexOf(text, word).None? ==> forall i: nat :: !OccursAt(text, word, i)
  {
    OccursFirst(text, word);
    if !(word <= text) && text != [] {
      var r := IndexOf(text[1..], word);
      FirstOccurrence(text[1..], word);
      if r.Some? {
        OccursBehind(text, word, r.value);
      }
      forall i: nat | r.None? || i < r.value + 1 ensures !OccursAt(text, word, i) {
        if i > 0 { OccursBehind(text, word, i - 1); }
      }
    }
  }

  /** A C string ends at the first NUL. */
  lemma {:induction false} CStringEnds(s: Bytes)
    ensures |CString(s)| == |s| || s[|CString(s)|] == 0
  {
    if s != [] && s[0] != 0 {
      CStringEnds(s[1..]);
    }
  }

  lemma InsideCString(s: Bytes, k: nat)
    requires k <= |s|
    ensures 0 !in s[..k] <==> k <= |CString(s)|
  {
    CStringEnds(s);
    var c := CString(s);
    if k > |c| {
      assert s[..k][|c|] == 0;
    } else {
      assert s[..k] == c[..k];
    }
  }

  lemma SameOccurrence(s: Bytes, word: Bytes, i: nat)
    ensures OccursAt(CString(s), word, i) <==> OccursAt(s, word, i) && 0 !in s[..i + |word|]
  {
    if i + |word| <= |s| {
      InsideCString(s, i + |word|);
      var c := CString(s);
      if i + |word| <= |c| {
        assert s[..|c|][i..i + |word|] == c[i..i + |word|];
      }
    }
  }

  lemma FoundInText(s: Bytes, word: Bytes)
    ensures IndexOf(CString(s), word).Some?
            <==> exists i: nat :: OccursAt(s, word, i) && 0 !in s[..i + |word|]
  {
    FirstOccurrence(CString(s), word);
    forall i: nat ensures OccursAt(CString(s), word, i) <==> OccursAt(s, word, i) && 0 !in s[..i + |word|] {
      SameOccurrence(s, word, i);
    }
  }

  // ------------------------------------------------------------------------- fields

  /** The name's first occurrence between quotes is at `i`, before any NUL. */
  ghost predicate NamedAt(json: Bytes, name: Bytes, i: nat) {
    && OccursAt(json, Ascii("\"") + name + Ascii("\""), i) && 0 !in json[..i + |name| + 2]
    && forall j: nat :: j < i ==> !OccursAt(json, Ascii("\"") + name + Ascii("\""), j)
  }

  lemma QuoteSpelled()
    ensures Ascii("\"") == [QUOTE]
  {
  }

  lemma NameFound(json: Bytes, name: Bytes, i: nat)
    requires NamedAt(json, name, i)
    ensures AfterName(json, name) == Some(json[i + |name| + 2..])
  {
    QuoteSpelled();
    var c := CString(json);
    SameOccurrence(json, Quoted(name), i);
    FirstOccurrence(c, Quoted(name));
    SameOccurrence(json, Quoted(name), IndexOf(c, Quoted(name)).value);
  }

  lemma NameMissing(json: Bytes, name: Bytes)
    requires forall i: nat :: !NamedAt(json, name, i)
    ensures AfterName(json, name) == None
  {
    QuoteSpelled();
    var c := CString(json);
    FirstOccurrence(c, Quoted(name));
    if IndexOf(c, Quoted(name)).Some? {
      var i := IndexOf(c, Quoted(name)).value;
      SameOccurrence(json, Quoted(name), i);
      forall j: nat | j < i ensures !OccursAt(json, Quoted(name), j) {
        EarlierInside(json, i + |name| + 2, j + |name| + 2);
        SameOccurrence(json, Quoted(name), j);
      }
      assert NamedAt(json, name, i);
    }
  }

  lemma EarlierInside(s: Bytes, n: nat, m: nat)
    requires m <= n <= |s| && 0 !in s[..n]
    ensures 0 !in s[..m]
  {
    assert forall b :: b in s[..m] ==> b in s[..n];
  }

  /** Colons, spaces and tabs are skipped. */
  predicate Gap(s: Bytes) {
    forall i :: 0 <= i < |s| ==> s[i] == ':' as int || s[i] == ' ' as int || s[i] == '\t' as int
  }

  lemma {:induction false} GapSkipped(gap: Bytes, rest: Bytes)
    requires Gap(gap) && (rest == [] || !Gap(rest[..1]))
    ensures SkipSeparators(gap + rest) == rest
  {
    if gap == [] {
      assert gap + rest == rest;
    } else {
      assert (gap + rest)[0] == gap[0] && (gap + rest)[1..] == gap[1..] + rest;
      GapSkipped(gap[1..], rest);
    }
  }

  lemma {:induction false} ReadSnoc(digits: Bytes, last: Byte, result: nat)
    requires result < U32_LIMIT && Decimal.AllDigits(digits) && Decimal.Digit(last)
    ensures ReadNumber(digits + [last], result) == Shifted(ReadNumber(digits, result), last)
  {
    if digits == [] {
      assert digits + [last] == [last];
      assert [last][1..] == [];
    } else {
      assert (digits + [last])[1..] == digits[1..] + [last];
      ReadSnoc(digits[1..], last, Shifted(result, digits[0]));
    }
  }

  lemma ShiftedWraps(n: nat, digit: Byte)
    requires Decimal.Digit(digit)
    ensures Shifted(n % U32_LIMIT, digit) == (10 * n + (digit as int - 48)) % U32_LIMIT
  {
  }

  /** Digits are read as their number, in 32 bits. */
  lemma {:induction false} DigitsRead(digits: Bytes)
    requires Decimal.AllDigits(digits)
    ensures Decimal.Value(digits) >= 0 && ReadNumber(digits, 0) == Decimal.Value(digits) % 0x1_0000_0000
  {
    if digits != [] {
      var n := |digits| - 1;
      DigitsRead(digits[..n]);
      ReadSnoc(digits[..n], digits[n], 0);
      ShiftedWraps(Decimal.Value(digits[..n]), digits[n]);
      assert digits == digits[..n] + [digits[n]];
    }
  }

  /** A number field: behind the quoted name and a gap, the digits up to the first other
      character; the fallback when there are none, or no such name. */
  lemma NumberSpelled(json: Bytes, name: Bytes, i: nat, gap: Bytes, digits: Bytes, rest: Bytes, fallback: nat)
    requires NamedAt(json, name, i) && json[i + |name| + 2..] == gap + (digits + rest) && fallback < U32_LIMIT
    requires Gap(gap) && Decimal.AllDigits(digits) && (rest == [] || !Decimal.Digit(rest[0]))
    requires digits == [] ==> rest == [] || !Gap(rest[..1])
    ensures NumberValue(json, name, fallback)
            == if digits == [] then fallback else Decimal.Value(digits) % 0x1_0000_0000
  {
    NameFound(json, name, i);
    if digits == [] {
      assert digits + rest == rest;
    } else {
      assert (digits + rest)[..1][0] == digits[0];
    }
    GapSkipped(gap, digits + rest);
    ReadStops(digits, rest, 0);
    DigitsRead(digits);
  }

  lemma NumberFallback(json: Bytes, name: Bytes, fallback: nat)
    requires fallback < U32_LIMIT && forall i: nat :: !NamedAt(json, name, i)
    ensures NumberValue(json, name, fallback) == fallback
  {
    NameMissing(json, name);
  }

  /** A text with a backslash before each quote and backslash. */
  function Escaped(s: Bytes): Bytes {
    if s == [] then [] else Escape(s[0]) + Escaped(s[1..])
  }

  lemma UnquoteOne(b: Byte, rest: Bytes, capacity: nat, done: Bytes)
    requires b != QUOTE && b != BACKSLASH
    ensures Unquote([b] + rest, capacity, done)
            == if |done| + 1 >= capacity then [] else Unquote(rest, capacity, done + [b])
  {
    assert ([b] + rest)[1..] == rest;
  }

  lemma UnquoteEscape(b: Byte, rest: Bytes, capacity: nat, done: Bytes)
    ensures Unquote([BACKSLASH, b] + rest, capacity, done)
            == if |done| + 1 >= capacity then [] else Unquote(rest, capacity, done + [b])
  {
    assert ([BACKSLASH, b] + rest)[2..] == rest;
  }

  function Escape(b: Byte): Bytes {
    if b == '"' as int || b == '\\' as int then ['\\' as int, b] else [b]
  }

  lemma UnquoteStep(b: Byte, rest: Bytes, capacity: nat, done: Bytes)
    ensures Unquote(Escape(b) + rest, capacity, done)
            == if |done| + 1 >= capacity then [] else Unquote(rest, capacity, done + [b])
  {
    if b == QUOTE || b == BACKSLASH {
      UnquoteEscape(b, rest, capacity, done);
    } else {
      UnquoteOne(b, rest, capacity, done);
    }
  }

  lemma {:induction false} EscapedReads(s: Bytes, rest: Bytes, capacity: nat, done: Bytes)
    requires |done| < capacity
    ensures Unquote(Escaped(s) + ([QUOTE] + rest), capacity, done)
            == if |done| + |s| < capacity then done + s else []
    decreases s
  {
    if s == [] {
      assert (Escaped(s) + ([QUOTE] + rest))[0] == QUOTE && done + s == done;
    } else {
      var more := Escaped(s[1..]) + ([QUOTE] + rest);
      assert Escaped(s) + ([QUOTE] + rest) == Escape(s[0]) + more;
      UnquoteStep(s[0], more, capacity, done);
      if |done| + 1 < capacity {
        EscapedReads(s[1..], rest, capacity, done + [s[0]]);
        assert done + [s[0]] + s[1..] == done + s;
      }
    }
  }

  /** A text field: behind the quoted name and a gap, the text between quotes, escapes taken
      away, if it is shorter than the buffer. */
  lemma StringSpelled(json: Bytes, name: Bytes, i: nat, gap: Bytes, s: Bytes, rest: Bytes, capacity: nat)
    requires NamedAt(json, name, i) && json[i + |name| + 2..] == gap + ([QUOTE] + (Escaped(s) + ([QUOTE] + rest)))
    requires Gap(gap) && capacity > 0
    ensures StringValue(json, name, capacity) == if |s| < capacity then s else []
  {
    NameFound(json, name, i);
    GapSkipped(gap, [QUOTE] + (Escaped(s) + ([QUOTE] + rest)));
    EscapedReads(s, rest, capacity, []);
  }

  lemma StringFallback(json: Bytes, name: Bytes, capacity: nat)
    requires forall i: nat :: !NamedAt(json, name, i)
    ensures StringValue(json, name, capacity) == []
  {
    NameMissing(json, name);
  }
}
