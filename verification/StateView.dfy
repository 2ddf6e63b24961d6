// The state-view grammar: version, u32 entry count, then entries with
// length-prefixed keys, a presence byte and length-prefixed values. The diff of an
// applied result uses the same grammar.
module StateView {
  import opened Bytes

  const VERSION: Byte := 1
  const MAX_KEY_BYTES := 4096
  const MAX_VALUE_BYTES := 65536
  const MAX_ENTRIES := 4096
  const MAX_VIEW_BYTES := 1048576

  datatype Entry = Entry(key: Bytes, value: Option<Bytes>)

  // ------------------------------------------------------------------ printing

  function EncodeField(b: Bytes): Bytes {
    U32(|b|) + b
  }

  function EncodeValue(v: Option<Bytes>): Bytes {
    match v
    case None => [0]
    case Some(b) => [1] + EncodeField(b)
  }

  function EncodeEntry(e: Entry): Bytes {
    EncodeField(e.key) + EncodeValue(e.value)
  }

  function EncodeEntries(es: seq<Entry>): Bytes {
    if es == [] then [] else EncodeEntry(es[0]) + EncodeEntries(es[1..])
  }

  function EncodeView(es: seq<Entry>): Bytes {
    [VERSION] + U32(|es|) + EncodeEntries(es)
  }

  function EntrySize(e: Entry): nat {
    4 + |e.key| + 1 + (if e.value.Some? then 4 + |e.value.value| else 0)
  }

  function Size(es: seq<Entry>): nat {
    if es == [] then 0 else EntrySize(es[0]) + Size(es[1..])
  }

  lemma {:induction false} EncodedLength(es: seq<Entry>)
    ensures |EncodeEntries(es)| == Size(es) && |EncodeView(es)| == 5 + Size(es)
  {
    if es != [] {
      EncodedLength(es[1..]);
    }
  }

  // ------------------------------------------------------------ canonical lists

  predicate Bounded(e: Entry) {
    |e.key| <= MAX_KEY_BYTES && (e.value.Some? ==> |e.value.value| <= MAX_VALUE_BYTES)
  }

  predicate AllBounded(es: seq<Entry>) {
    forall i :: 0 <= i < |es| ==> Bounded(es[i])
  }

  predicate Sorted(es: seq<Entry>) {
    forall i, j :: 0 <= i < j < |es| ==> Less(es[i].key, es[j].key)
  }

  predicate Canonical(es: seq<Entry>) {
    |es| <= MAX_ENTRIES && Sorted(es) && AllBounded(es)
  }

  /** Each key is above the one before it, the first above `previous`: what the parser
      checks entry by entry. */
  predicate Ascending(previous: Option<Bytes>, es: seq<Entry>)
    decreases es
  {
    es == [] || ((previous.Some? ==> Less(previous.value, es[0].key))
                 && Ascending(Some(es[0].key), es[1..]))
  }

  lemma {:induction false} AscendingAbove(previous: Bytes, es: seq<Entry>, i: nat)
    requires Ascending(Some(previous), es) && i < |es|
    ensures Less(previous, es[i].key)
    decreases es
  {
    if i > 0 {
      AscendingAbove(es[0].key, es[1..], i - 1);
      LessTransitive(previous, es[0].key, es[i].key);
    }
  }

  lemma {:induction false} AscendingIsSorted(previous: Option<Bytes>, es: seq<Entry>)
    requires Ascending(previous, es)
    ensures Sorted(es)
    decreases es
  {
    if es != [] {
      AscendingIsSorted(Some(es[0].key), es[1..]);
      forall i, j | 0 <= i < j < |es| ensures Less(es[i].key, es[j].key) {
        if i == 0 {
          AscendingAbove(es[0].key, es[1..], j - 1);
        } else {
          assert es[i] == es[1..][i - 1] && es[j] == es[1..][j - 1];
        }
      }
    }
  }

  lemma {:induction false} SortedIsAscending(previous: Option<Bytes>, es: seq<Entry>)
    requires Sorted(es)
    requires previous.Some? && es != [] ==> Less(previous.value, es[0].key)
    ensures Ascending(previous, es)
    decreases es
  {
    if es != [] {
      SortedIsAscending(Some(es[0].key), es[1..]);
    }
  }

  // ------------------------------------------------------------------- parsing

  /** A length-prefixed field of at most `max` bytes, and what follows it. */
  function ReadField(s: Bytes, max: nat): Option<(Bytes, Bytes)> {
    if |s| < 4 then None else
    var length := ToU32(s);
    if length > max || 4 + length > |s| then None else Some((s[4..4 + length], s[4 + length..]))
  }

  function ParseValue(s: Bytes): Option<(Option<Bytes>, Bytes)> {
    if s == [] then None
    else if s[0] == 0 then Some((None, s[1..]))
    else if s[0] != 1 then None
    else match ReadField(s[1..], MAX_VALUE_BYTES)
         case None => None
         case Some((value, rest)) => Some((Some(value), rest))
  }

  function ParseEntry(s: Bytes, previous: Option<Bytes>): Option<(Entry, Bytes)> {
    match ReadField(s, MAX_KEY_BYTES)
    case None => None
    case Some((key, afterKey)) =>
      if previous.Some? && !Less(previous.value, key) then None
      else match ParseValue(afterKey)
           case None => None
           case Some((value, rest)) => Some((Entry(key, value), rest))
  }

  function ParseEntries(s: Bytes, count: nat, previous: Option<Bytes>): Option<seq<Entry>> {
    if count == 0 then (if s == [] then Some([]) else None)
    else match ParseEntry(s, previous)
         case None => None
         case Some((e, rest)) =>
           match ParseEntries(rest, count - 1, Some(e.key))
           case None => None
           case Some(es) => Some([e] + es)
  }

  function ParseView(s: Bytes): Option<seq<Entry>> {
    if |s| > MAX_VIEW_BYTES || |s| < 5 || s[0] != VERSION then None
    else if ToU32(s[1..]) > MAX_ENTRIES then None
    else ParseEntries(s[5..], ToU32(s[1..]), None)
  }

  lemma ReadFieldEncoded(b: Bytes, rest: Bytes, max: nat)
    requires |b| <= max < U32_LIMIT
    ensures ReadField(EncodeField(b) + rest, max) == Some((b, rest))
  {
    var s := EncodeField(b) + rest;
    U32RoundTrip(|b|);
    assert s[..4] == U32(|b|);
    assert ToU32(s) == ToU32(s[..4]);
    assert s[4..4 + |b|] == b && s[4 + |b|..] == rest;
  }

  lemma ReadFieldSound(s: Bytes, max: nat)
    requires ReadField(s, max).Some?
    ensures var (b, rest) := ReadField(s, max).value; s == EncodeField(b) + rest && |b| <= max
  {
    U32Inverse(s[..4]);
    assert ToU32(s) == ToU32(s[..4]);
    var (b, rest) := ReadField(s, max).value;
    assert s == s[..4] + b + rest;
  }

  lemma ParseValueEncoded(v: Option<Bytes>, rest: Bytes)
    requires v.Some? ==> |v.value| <= MAX_VALUE_BYTES
    ensures ParseValue(EncodeValue(v) + rest) == Some((v, rest))
  {
    if v.Some? {
      ParsePresent(v.value, rest);
    } else {
      assert (EncodeValue(v) + rest)[1..] == rest;
    }
  }

  lemma ParsePresent(b: Bytes, rest: Bytes)
    requires |b| <= MAX_VALUE_BYTES
    ensures ParseValue(EncodeValue(Some(b)) + rest) == Some((Some(b), rest))
  {
    var s := EncodeValue(Some(b)) + rest;
    ReadFieldEncoded(b, rest, MAX_VALUE_BYTES);
    assert s[0] == 1;
    assert s[1..] == EncodeField(b) + rest;
  }

  lemma ParseValueSound(s: Bytes)
    requires ParseValue(s).Some?
    ensures var (v, rest) := ParseValue(s).value;
            s == EncodeValue(v) + rest && (v.Some? ==> |v.value| <= MAX_VALUE_BYTES)
  {
    if s[0] == 1 {
      ReadFieldSound(s[1..], MAX_VALUE_BYTES);
      var (b, rest) := ReadField(s[1..], MAX_VALUE_BYTES).value;
      assert s == [1] + s[1..];
      assert s == [1] + EncodeField(b) + rest;
    } else {
      assert s == [0] + s[1..];
    }
  }

  lemma ParseEntryEncoded(e: Entry, rest: Bytes, previous: Option<Bytes>)
    requires Bounded(e) && (previous.Some? ==> Less(previous.value, e.key))
    ensures ParseEntry(EncodeEntry(e) + rest, previous) == Some((e, rest))
  {
    var afterKey := EncodeValue(e.value) + rest;
    assert EncodeEntry(e) + rest == EncodeField(e.key) + afterKey;
    ReadFieldEncoded(e.key, afterKey, MAX_KEY_BYTES);
    ParseValueEncoded(e.value, rest);
  }

  lemma ParseEntrySound(s: Bytes, previous: Option<Bytes>)
    requires ParseEntry(s, previous).Some?
    ensures var (e, rest) := ParseEntry(s, previous).value;
            s == EncodeEntry(e) + rest && Bounded(e)
            && (previous.Some? ==> Less(previous.value, e.key))
  {
    ReadFieldSound(s, MAX_KEY_BYTES);
    var (key, afterKey) := ReadField(s, MAX_KEY_BYTES).value;
    ParseValueSound(afterKey);
    var (value, rest) := ParseValue(afterKey).value;
    assert s == EncodeField(key) + (EncodeValue(value) + rest);
    assert s == EncodeEntry(Entry(key, value)) + rest;
  }

  lemma {:induction false} ParseEntriesEncoded(es: seq<Entry>, previous: Option<Bytes>)
    requires Ascending(previous, es) && AllBounded(es)
    ensures ParseEntries(EncodeEntries(es), |es|, previous) == Some(es)
  {
    if es != [] {
      var rest := es[1..];
      FirstAbove(es, previous);
      ParseEntryEncoded(es[0], EncodeEntries(rest), previous);
      ParseEntriesEncoded(rest, Some(es[0].key));
      ParseOneMore(es[0], rest, previous);
      assert es == [es[0]] + rest;
    }
  }

  lemma FirstAbove(es: seq<Entry>, previous: Option<Bytes>)
    requires es != [] && Ascending(previous, es) && AllBounded(es)
    ensures Bounded(es[0]) && (previous.Some? ==> Less(previous.value, es[0].key))
    ensures Ascending(Some(es[0].key), es[1..]) && AllBounded(es[1..])
    ensures EncodeEntries(es) == EncodeEntry(es[0]) + EncodeEntries(es[1..])
  {
    assert Bounded(es[0]);
  }

  lemma ParseOneMore(e: Entry, rest: seq<Entry>, previous: Option<Bytes>)
    requires ParseEntry(EncodeEntry(e) + EncodeEntries(rest), previous) == Some((e, EncodeEntries(rest)))
    requires ParseEntries(EncodeEntries(rest), |rest|, Some(e.key)) == Some(rest)
    ensures ParseEntries(EncodeEntry(e) + EncodeEntries(rest), |rest| + 1, previous) == Some([e] + rest)
  {
  }

  lemma {:induction false} ParseEntriesSound(s: Bytes, count: nat, previous: Option<Bytes>)
    requires ParseEntries(s, count, previous).Some?
    ensures var es := ParseEntries(s, count, previous).value;
            |es| == count && Ascending(previous, es) && AllBounded(es) && s == EncodeEntries(es)
  {
    if count > 0 {
      ParseEntrySound(s, previous);
      var (e, rest) := ParseEntry(s, previous).value;
      ParseEntriesSound(rest, count - 1, Some(e.key));
      EntryInFront(e, ParseEntries(rest, count - 1, Some(e.key)).value, previous);
    }
  }

  lemma EntryInFront(e: Entry, rest: seq<Entry>, previous: Option<Bytes>)
    requires Bounded(e) && (previous.Some? ==> Less(previous.value, e.key))
    requires Ascending(Some(e.key), rest) && AllBounded(rest)
    ensures Ascending(previous, [e] + rest) && AllBounded([e] + rest)
    ensures EncodeEntries([e] + rest) == EncodeEntry(e) + EncodeEntries(rest)
  {
    assert ([e] + rest)[1..] == rest;
  }

  /** The parser accepts exactly the canonical encodings, and returns the one entry list
      each of them prints. */
  lemma ViewBijection(s: Bytes, es: seq<Entry>)
    ensures ParseView(s) == Some(es)
            <==> Canonical(es) && |s| <= MAX_VIEW_BYTES && s == EncodeView(es)
  {
    if ParseView(s) == Some(es) {
      ParseEntriesSound(s[5..], ToU32(s[1..]), None);
      AscendingIsSorted(None, es);
      U32Inverse(s[1..5]);
      assert ToU32(s[1..]) == ToU32(s[1..5]);
      assert s == [s[0]] + s[1..5] + s[5..];
    }
    if Canonical(es) && |s| <= MAX_VIEW_BYTES && s == EncodeView(es) {
      SortedIsAscending(None, es);
      ParseEntriesEncoded(es, None);
      U32RoundTrip(|es|);
      assert s[1..5] == U32(|es|) && s[5..] == EncodeEntries(es);
      assert ToU32(s[1..]) == ToU32(s[1..5]);
    }
  }
}
