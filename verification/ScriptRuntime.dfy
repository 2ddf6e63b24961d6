// The script runtime: module-level state view, overlay and pending failure, as a class
// whose methods keep the sorted-overlay invariant.
module ScriptRuntime {
  import opened Bytes
  import opened StateView
  import opened Overlay
  import opened ScriptResult

  /** The stored key and value buffers; None is the source's null. */
  datatype StateEntry = StateEntry(key: array<Byte>, value: Option<array<Byte>>)

  function Arrays(e: StateEntry): set<object> {
    {e.key} + (if e.value.Some? then {e.value.value} else {})
  }

  ghost function AllArrays(es: seq<StateEntry>): set<object> {
    set i, a | 0 <= i < |es| && a in Arrays(es[i]) :: a
  }

  ghost function ReadValue(value: Option<array<Byte>>): Option<Bytes>
    reads if value.Some? then {value.value} else {}
  {
    if value.Some? then Some(value.value[..]) else None
  }

  ghost function Read(e: StateEntry): Entry
    reads Arrays(e)
  {
    Entry(e.key[..], ReadValue(e.value))
  }

  ghost function Contents(es: seq<StateEntry>): (r: seq<Entry>)
    reads AllArrays(es)
    ensures |r| == |es| && forall i :: 0 <= i < |es| ==> r[i] == Read(es[i])
  {
    seq(|es|, i requires 0 <= i < |es| reads AllArrays(es) =>
      assert Arrays(es[i]) <= AllArrays(es); Read(es[i]))
  }

  const APPLICATION_KEY_CLASS: Byte := 1

  function ApplicationKey(namespace: Bytes, canonicalKey: Bytes): Bytes {
    [APPLICATION_KEY_CLASS, |namespace| % 256, |namespace| / 256 % 256] + namespace + canonicalKey
  }

  method CopyBytes(value: array<Byte>) returns (result: array<Byte>)
    ensures fresh(result) && result[..] == value[..]
  {
    result := new Byte[value.Length];
    SetBytes(result, value, 0);
    assert result[..] == value[..];
  }

  /** Uint8Array.set: `source` must fit at `offset`. */
  method SetBytes(output: array<Byte>, source: array<Byte>, offset: nat)
    requires offset + source.Length <= output.Length && output != source
    modifies output
    ensures output[..offset + source.Length] == old(output[..offset]) + source[..]
    ensures output[offset + source.Length..] == old(output[offset + source.Length..])
  {
    var i := 0;
    while i < source.Length
      invariant 0 <= i <= source.Length
      invariant forall k :: 0 <= k < output.Length ==>
                  output[k] == if offset <= k < offset + i then source[k - offset] else old(output[k])
    {
      output[offset + i] := source[i];
      i := i + 1;
    }
  }

  method Slice(input: array<Byte>, start: nat, end: nat) returns (result: array<Byte>)
    requires start <= end <= input.Length
    ensures fresh(result) && result[..] == input[start..end]
  {
    result := new Byte[end - start](i requires 0 <= i < end - start reads input => input[start + i]);
  }

  /** writeU32: `value & 255`, `value >>> 8 & 255` and so on; JavaScript's 32-bit
      truncation keeps exactly these digits. */
  method WriteU32(output: array<Byte>, offset: nat, value: nat) returns (next: nat)
    requires offset + 4 <= output.Length
    modifies output
    ensures next == offset + 4
    ensures output[..next] == old(output[..offset]) + U32(value)
    ensures output[next..] == old(output[next..])
  {
    output[offset] := value % 256;
    output[offset + 1] := value / 256 % 256;
    output[offset + 2] := value / 65536 % 256;
    output[offset + 3] := value / 16777216 % 256;
    next := offset + 4;
  }

  lemma NextEntry(es: seq<Entry>, i: nat)
    requires i < |es|
    ensures EncodeEntries(es[i..]) == EncodeEntry(es[i]) + EncodeEntries(es[i + 1..])
    ensures Size(es[i..]) == EntrySize(es[i]) + Size(es[i + 1..])
  {
    assert es[i..][0] == es[i] && es[i..][1..] == es[i + 1..];
  }

  ghost function Prepend(front: seq<Entry>, rest: Option<seq<Entry>>): Option<seq<Entry>> {
    if rest.None? then None else Some(front + rest.value)
  }

  lemma PrependNothing(rest: Option<seq<Entry>>)
    ensures Prepend([], rest) == rest
  {
    if rest.Some? { assert [] + rest.value == rest.value; }
  }

  lemma PrependMore(front: seq<Entry>, e: Entry, rest: Option<seq<Entry>>)
    ensures Prepend(front, Prepend([e], rest)) == Prepend(front + [e], rest)
  {
    if rest.Some? { assert front + ([e] + rest.value) == front + [e] + rest.value; }
  }

  /** Parsing has yielded `front` and goes on at `s`. */
  ghost predicate Parsing(expected: Option<seq<Entry>>, front: seq<Entry>, s: Bytes, count: nat, above: Option<Bytes>) {
    expected == Prepend(front, ParseEntries(s, count, above))
  }

  /** One loop iteration, on what is left to parse. */
  lemma ParseStep(expected: Option<seq<Entry>>, front: seq<Entry>, s: Bytes, count: nat, above: Option<Bytes>)
    requires count > 0 && Parsing(expected, front, s, count, above)
    ensures match ParseEntry(s, above)
            case None => expected.None?
            case Some((e, rest)) => Parsing(expected, front + [e], rest, count - 1, Some(e.key))
  {
    match ParseEntry(s, above)
    case None =>
    case Some((e, rest)) => PrependMore(front, e, ParseEntries(rest, count - 1, Some(e.key)));
  }

  /** After the last entry nothing may be left. */
  lemma ParseEnd(expected: Option<seq<Entry>>, front: seq<Entry>, s: Bytes, above: Option<Bytes>)
    requires Parsing(expected, front, s, 0, above)
    ensures expected == if s == [] then Some(front) else None
  {
    assert front + [] == front;
  }

  lemma ContentsSnoc(es: seq<StateEntry>, e: StateEntry)
    ensures Contents(es + [e]) == Contents(es) + [Read(e)]
  {
  }

  lemma ArraysSnoc(es: seq<StateEntry>, e: StateEntry)
    ensures AllArrays(es + [e]) == AllArrays(es) + Arrays(e)
  {
    var more := es + [e];
    assert more[|es|] == e;
    assert forall i :: 0 <= i < |es| ==> more[i] == es[i];
  }

  lemma ReplaceContents(es: seq<StateEntry>, p: nat, e: StateEntry)
    requires p == Position(Contents(es), e.key[..]) && Has(Contents(es), e.key[..])
    ensures Contents(es[p := e]) == Put(Contents(es), e.key[..], ReadValue(e.value))
    ensures AllArrays(es[p := e]) <= AllArrays(es) + Arrays(e)
  {
  }

  lemma InsertContents(es: seq<StateEntry>, p: nat, e: StateEntry)
    requires p == Position(Contents(es), e.key[..]) && !Has(Contents(es), e.key[..])
    ensures Contents(es[..p] + [e] + es[p..]) == Put(Contents(es), e.key[..], ReadValue(e.value))
    ensures AllArrays(es[..p] + [e] + es[p..]) <= AllArrays(es) + Arrays(e)
  {
    var r := es[..p] + [e] + es[p..];
    assert forall i :: 0 <= i < |r| ==> r[i] == if i < p then es[i] else if i == p then e else es[i - 1];
    assert Contents(r) == Contents(es)[..p] + [Read(e)] + Contents(es)[p..];
  }

  lemma Associative(a: Bytes, b: Bytes, c: Bytes)
    ensures a + (b + c) == (a + b) + c
  {
  }

  lemma AppliedHeader(es: seq<Entry>, header: Bytes, diffLength: nat)
    requires diffLength == |EncodeView(es)|
    requires header == [RESULT_VERSION, KIND_APPLIED] + U32(diffLength) + [VERSION] + U32(|es|)
    ensures header + EncodeEntries(es) == Print(Applied(es))
  {
    Regroup([RESULT_VERSION, KIND_APPLIED] + U32(diffLength), [VERSION], U32(|es|), EncodeEntries(es));
  }

  lemma Regroup(a: Bytes, b: Bytes, c: Bytes, d: Bytes)
    ensures a + b + c + d == a + (b + c + d)
  {
  }

  class Runtime {
    var baseEntries: seq<StateEntry>
    var overlayEntries: seq<StateEntry>
    var pendingKind: Byte
    var pendingCode: nat
    var pendingKey: array<Byte>

    constructor ()
      ensures baseEntries == [] && overlayEntries == []
      ensures pendingKind == 0 && pendingCode == 0 && fresh(pendingKey)
    {
      baseEntries, overlayEntries := [], [];
      pendingKind, pendingCode := 0, 0;
      pendingKey := new Byte[0];
    }

    /** Every buffer the view and the overlay hold. */
    ghost function Stored(): set<object>
      reads `baseEntries, `overlayEntries
    {
      AllArrays(baseEntries) + AllArrays(overlayEntries)
    }

    ghost function Abstract(): State
      reads `baseEntries, `overlayEntries, Stored()
    {
      State(Contents(baseEntries), Contents(overlayEntries))
    }

    ghost predicate Valid()
      reads `baseEntries, `overlayEntries, Stored()
    {
      Overlay.Valid(Abstract())
    }

    // ------------------------------------------------------------ reading the view

    method FailStateView()
      modifies `pendingKind, `pendingCode
      ensures Failed(FATAL_INVALID_VIEW)
    {
      pendingKind, pendingCode := KIND_FATAL, FATAL_INVALID_VIEW;
    }

    ghost predicate Failed(code: nat)
      reads `pendingKind, `pendingCode
    {
      pendingKind == KIND_FATAL && pendingCode == code
    }

    method ReadU32(input: array<Byte>, offset: nat) returns (r: Completion<nat>)
      modifies `pendingKind, `pendingCode
      ensures offset + 4 > input.Length ==> r.Thrown? && Failed(FATAL_INVALID_VIEW)
      ensures offset + 4 <= input.Length ==> r == Done(ToU32(input[offset..]))
      ensures r.Done? ==> pendingKind == old(pendingKind)
    {
      if offset + 4 > input.Length {
        FailStateView();
        return Thrown;
      }
      return Done(input[offset] as int + input[offset + 1] as int * 256
                  + input[offset + 2] as int * 65536 + input[offset + 3] as int * 16777216);
    }

    method ReadBytes(input: array<Byte>, offset: nat, max: nat)
      returns (r: Completion<(array<Byte>, nat)>)
      requires offset <= input.Length
      modifies `pendingKind, `pendingCode
      ensures match ReadField(input[offset..], max)
              case None => r.Thrown? && Failed(FATAL_INVALID_VIEW)
              case Some((value, rest)) =>
                r.Done? && fresh(r.value.0) && r.value.0[..] == value
                && r.value.1 <= input.Length && input[r.value.1..] == rest
      ensures r.Done? ==> pendingKind == old(pendingKind)
    {
      var length: nat :- ReadU32(input, offset);
      var start := offset + 4;
      var end := start + length;
      if length > max || end < start || end > input.Length {
        FailStateView();
        return Thrown;
      }
      var value := Slice(input, start, end);
      assert input[offset..][4..4 + length] == input[start..end];
      assert input[offset..][4 + length..] == input[end..];
      return Done((value, end));
    }

    /** One entry, whose key must be above `previous`. */
    method ReadEntry(input: array<Byte>, offset: nat, previous: Option<array<Byte>>)
      returns (r: Completion<(StateEntry, nat)>)
      requires offset <= input.Length
      modifies `pendingKind, `pendingCode
      ensures match ParseEntry(input[offset..], ReadValue(previous))
              case None => r.Thrown? && Failed(FATAL_INVALID_VIEW)
              case Some((entry, rest)) =>
                r.Done? && fresh(Arrays(r.value.0)) && Read(r.value.0) == entry
                && r.value.1 <= input.Length && input[r.value.1..] == rest
      ensures r.Done? ==> pendingKind == old(pendingKind)
    {
      var decodedKey :- ReadBytes(input, offset, MAX_KEY_BYTES);
      var (key, next) := decodedKey;
      if previous.Some? {
        var ordering := CompareBytes(previous.value, key);
        if ordering >= 0 {
          FailStateView();
          return Thrown;
        }
      }
      var decodedValue :- ReadPresence(input, next);
      return Done((StateEntry(key, decodedValue.0), decodedValue.1));
    }

    /** The presence byte and, behind a 1, the value. */
    method ReadPresence(input: array<Byte>, offset: nat) returns (r: Completion<(Option<array<Byte>>, nat)>)
      requires offset <= input.Length
      modifies `pendingKind, `pendingCode
      ensures match ParseValue(input[offset..])
              case None => r.Thrown? && Failed(FATAL_INVALID_VIEW)
              case Some((value, rest)) =>
                r.Done? && (r.value.0.Some? ==> fresh(r.value.0.value)) && ReadValue(r.value.0) == value
                && r.value.1 <= input.Length && input[r.value.1..] == rest
      ensures r.Done? ==> pendingKind == old(pendingKind)
    {
      if offset >= input.Length {
        FailStateView();
        return Thrown;
      }
      var presence := input[offset];
      assert input[offset..][0] == presence && input[offset..][1..] == input[offset + 1..];
      if presence == 1 {
        var decodedValue :- ReadBytes(input, offset + 1, MAX_VALUE_BYTES);
        return Done((Some(decodedValue.0), decodedValue.1));
      } else if presence != 0 {
        FailStateView();
        return Thrown;
      }
      return Done((None, offset + 1));
    }

    /** Array.push. */
    static method Append(entries: seq<StateEntry>, entry: StateEntry) returns (r: seq<StateEntry>)
      ensures r == entries + [entry]
      ensures Contents(r) == old(Contents(entries)) + [old(Read(entry))]
      ensures AllArrays(r) == AllArrays(entries) + Arrays(entry)
    {
      ArraysSnoc(entries, entry);
      ContentsSnoc(entries, entry);
      r := entries + [entry];
    }

    /** The parsing loop: the entries read, and where they end. */
    method ReadList(input: array<Byte>, count: nat) returns (r: Completion<(seq<StateEntry>, nat)>)
      requires 5 <= input.Length
      modifies `pendingKind, `pendingCode
      ensures r.Thrown? ==> Failed(FATAL_INVALID_VIEW) && ParseEntries(input[5..], count, None).None?
      ensures r.Done? ==>
                r.value.1 <= input.Length && fresh(AllArrays(r.value.0)) && pendingKind == old(pendingKind)
                && ParseEntries(input[5..], count, None)
                   == if input[r.value.1..] == [] then Some(Contents(r.value.0)) else None
    {
      var entries: seq<StateEntry> := [];
      var offset: nat := 5;
      var previous: Option<array<Byte>> := None;
      var index := 0;
      ghost var es: seq<Entry>, above: Option<Bytes>, rest := [], None, input[5..];
      ghost var expected := ParseEntries(rest, count, None);
      PrependNothing(expected);
      while index < count
        invariant 0 <= index <= count && offset <= input.Length
        invariant pendingKind == old(pendingKind) && input[offset..] == rest
        invariant fresh(AllArrays(entries))
        invariant Contents(entries) == es
        invariant (previous.Some? ==> fresh(previous.value)) && ReadValue(previous) == above
        invariant Parsing(expected, es, rest, count - index, above)
      {
        ParseStep(expected, es, rest, count - index, above);
        var decoded :- ReadEntry(input, offset, previous);
        assert Contents(entries) == es;
        var (entry, next) := decoded;
        entries := Append(entries, entry);
        es, above, rest := es + [Read(entry)], Some(entry.key[..]), input[next..];
        previous, offset, index := Some(entry.key), next, index + 1;
      }
      ParseEnd(expected, es, rest, above);
      return Done((entries, offset));
    }

    /** The entries, to the end of the input. */
    method ReadEntries(input: array<Byte>, count: nat) returns (r: Completion<seq<StateEntry>>)
      requires 5 <= input.Length
      modifies `pendingKind, `pendingCode
      ensures match ParseEntries(input[5..], count, None)
              case None => r.Thrown? && Failed(FATAL_INVALID_VIEW)
              case Some(es) => r.Done? && fresh(AllArrays(r.value)) && Contents(r.value) == es
      ensures r.Done? ==> pendingKind == old(pendingKind)
    {
      var decoded :- ReadList(input, count);
      var (entries, offset) := decoded;
      if offset != input.Length {
        FailStateView();
        return Thrown;
      }
      return Done(entries);
    }

    /** Accepts exactly the canonical views. On success the base is the decoded entries in
        buffers of their own and the overlay is empty; on failure both stay as they were. */
    method InitializeStateView(input: array<Byte>) returns (r: Completion<()>)
      modifies this
      ensures fresh(pendingKey) && pendingKey.Length == 0
      ensures match ParseView(input[..])
              case None =>
                r.Thrown? && Failed(FATAL_INVALID_VIEW)
                && baseEntries == old(baseEntries) && overlayEntries == old(overlayEntries)
              case Some(es) =>
                r.Done? && pendingKind == 0 && fresh(Stored())
                && Abstract() == State(es, []) && Valid()
    {
      pendingKind, pendingCode := 0, 0;
      pendingKey := new Byte[0];
      if input.Length > MAX_VIEW_BYTES || input.Length < 5 || input[0] != VERSION {
        FailStateView();
        return Thrown;
      }
      assert input[..][1..] == input[1..] && input[..][5..] == input[5..];
      var field := ReadU32(input, 1);
      var count := if field.Done? then field.value else 0;
      if count > MAX_ENTRIES {
        FailStateView();
        return Thrown;
      }
      var entries :- ReadEntries(input, count);
      baseEntries := entries;
      overlayEntries := [];
      ViewBijection(input[..], Contents(entries));
      return Done(());
    }

    // ------------------------------------------------------------- state access

    /** Binary search for the first entry not below `key`. */
    method Find(entries: seq<StateEntry>, key: array<Byte>) returns (low: nat)
      requires Sorted(Contents(entries))
      ensures low == Position(Contents(entries), key[..])
    {
      ghost var es := Contents(entries);
      low := 0;
      var high := |entries|;
      while low < high
        invariant 0 <= low <= high <= |entries|
        invariant es == Contents(entries)
        invariant forall i :: 0 <= i < low ==> Less(es[i].key, key[..])
        invariant forall i :: high <= i < |es| ==> !Less(es[i].key, key[..])
      {
        var middle := low + (high - low) / 2;
        SearchStep(es, key[..], middle);
        var ordering := CompareBytes(entries[middle].key, key);
        if ordering < 0 { low := middle + 1; } else { high := middle; }
      }
      PositionUnique(es, key[..], low);
    }

    /** Where `key` is stored in `entries`, if it is there. */
    method Known(entries: seq<StateEntry>, key: array<Byte>) returns (found: bool, index: nat)
      requires Sorted(Contents(entries))
      ensures found == Has(Contents(entries), key[..])
      ensures index == Position(Contents(entries), key[..])
    {
      ghost var es, k := Contents(entries), key[..];
      index := Find(entries, key);
      assert Contents(entries) == es && key[..] == k;
      found := false;
      if index < |entries| {
        var ordering := CompareBytes(entries[index].key, key);
        CompareZero(es[index].key, k);
        found := ordering == 0;
      }
      assert Contents(entries) == es && key[..] == k;
    }

    method NeedKey(key: array<Byte>)
      modifies `pendingKind, `pendingKey
      ensures Needs(key[..]) && fresh(pendingKey)
    {
      pendingKind := KIND_NEED_STATE;
      pendingKey := CopyBytes(key);
    }

    ghost predicate Needs(key: Bytes)
      reads `pendingKind, `pendingKey, pendingKey
    {
      pendingKind == KIND_NEED_STATE && pendingKey[..] == key
    }

    method CopyValue(value: Option<array<Byte>>) returns (r: Option<array<Byte>>)
      ensures ReadValue(r) == ReadValue(value) && (r.Some? ==> fresh(r.value))
    {
      r := None;
      if value.Some? {
        var copy := CopyBytes(value.value);
        r := Some(copy);
      }
    }

    /** Lookup in "overlay overrides base". What it returns is a copy: never a buffer the
        runtime keeps. */
    method StateGetRaw(key: array<Byte>) returns (r: Completion<Option<array<Byte>>>)
      requires Valid()
      modifies `pendingKind, `pendingKey
      ensures match old(Overlay.Get(Abstract(), key[..]))
              case None => r.Thrown? && Needs(key[..])
              case Some(value) =>
                r.Done? && ReadValue(r.value) == value && (r.value.Some? ==> fresh(r.value.value))
                && pendingKind == old(pendingKind)
    {
      ghost var before, k := Abstract(), key[..];
      var inOverlay, overlayIndex := Known(overlayEntries, key);
      assert Abstract() == before && key[..] == k;
      if inOverlay {
        assert Overlay.Get(before, k) == Some(before.overlay[overlayIndex].value);
        var value := CopyValue(overlayEntries[overlayIndex].value);
        return Done(value);
      }
      var inBase, baseIndex := Known(baseEntries, key);
      assert Abstract() == before && key[..] == k;
      if !inBase {
        assert Overlay.Get(before, k) == None;
        NeedKey(key);
        return Thrown;
      }
      assert Overlay.Get(before, k) == Some(before.base[baseIndex].value);
      var value := CopyValue(baseEntries[baseIndex].value);
      return Done(value);
    }

    /** The copying loops of an insertion at `index`. */
    method InsertAt(entries: seq<StateEntry>, index: nat, entry: StateEntry) returns (next: seq<StateEntry>)
      requires index <= |entries|
      ensures next == entries[..index] + [entry] + entries[index..]
    {
      next := [];
      var current := 0;
      while current < index
        invariant 0 <= current <= index && next == entries[..current]
      {
        next := next + [entries[current]];
        current := current + 1;
      }
      next := next + [entry];
      current := index;
      while current < |entries|
        invariant index <= current <= |entries|
        invariant next == entries[..index] + [entry] + entries[index..current]
      {
        next := next + [entries[current]];
        current := current + 1;
      }
    }

    /** Replaces the entry with `entry`'s key, or inserts it where the search lands. */
    method Place(entries: seq<StateEntry>, entry: StateEntry) returns (next: seq<StateEntry>)
      requires Sorted(Contents(entries))
      ensures Contents(next) == Put(old(Contents(entries)), old(Read(entry)).key, old(Read(entry)).value)
      ensures AllArrays(next) <= AllArrays(entries) + Arrays(entry)
    {
      ghost var es, e := Contents(entries), Read(entry);
      var found, index := Known(entries, entry.key);
      assert Contents(entries) == es && Read(entry) == e;
      if found {
        ReplaceContents(entries, index, entry);
        return entries[index := entry];
      }
      next := InsertAt(entries, index, entry);
      assert Contents(entries) == es && Read(entry) == e;
      InsertContents(entries, index, entry);
    }

    /** Updates the overlay, holding copies of the caller's buffers. */
    method WriteOverlay(key: array<Byte>, value: Option<array<Byte>>)
      returns (r: Completion<()>, ghost copies: set<object>)
      requires Sorted(Contents(overlayEntries))
      modifies `overlayEntries, `pendingKind, `pendingCode
      ensures !Bounded(Entry(key[..], ReadValue(value))) ==>
                r.Thrown? && Failed(FATAL_INVALID_VIEW) && overlayEntries == old(overlayEntries)
      ensures Bounded(Entry(key[..], ReadValue(value))) ==>
                r.Done? && pendingKind == old(pendingKind)
                && Contents(overlayEntries) == Put(old(Contents(overlayEntries)), key[..], ReadValue(value))
      ensures fresh(copies) && AllArrays(overlayEntries) <= old(AllArrays(overlayEntries)) + copies
    {
      if key.Length > MAX_KEY_BYTES || (value.Some? && value.value.Length > MAX_VALUE_BYTES) {
        FailStateView();
        return Thrown, {};
      }
      copies := PlaceCopy(key, value);
      r := Done(());
    }

    method PlaceCopy(key: array<Byte>, value: Option<array<Byte>>) returns (ghost copies: set<object>)
      requires Sorted(Contents(overlayEntries))
      modifies `overlayEntries
      ensures Contents(overlayEntries) == Put(old(Contents(overlayEntries)), key[..], ReadValue(value))
      ensures fresh(copies) && AllArrays(overlayEntries) <= old(AllArrays(overlayEntries)) + copies
    {
      ghost var before, arrays, e := Contents(overlayEntries), AllArrays(overlayEntries), Entry(key[..], ReadValue(value));
      var entry := CopyEntry(key, value);
      assert Contents(overlayEntries) == before && Read(entry) == e;
      copies := Arrays(entry);
      var next := Place(overlayEntries, entry);
      assert Contents(next) == Put(before, e.key, e.value);
      overlayEntries := next;
    }

    method CopyEntry(key: array<Byte>, value: Option<array<Byte>>) returns (entry: StateEntry)
      ensures fresh(Arrays(entry)) && Read(entry) == Entry(key[..], ReadValue(value))
    {
      var keyCopy := CopyBytes(key);
      var valueCopy := CopyValue(value);
      entry := StateEntry(keyCopy, valueCopy);
    }

    /** Whether the script sees a value at `key`. */
    method StateHasRaw(key: array<Byte>) returns (r: Completion<bool>)
      requires Valid()
      modifies `pendingKind, `pendingKey
      ensures match old(Overlay.Get(Abstract(), key[..]))
              case None => r.Thrown? && Needs(key[..])
              case Some(value) => r == Done(value.Some?) && pendingKind == old(pendingKind)
    {
      var value :- StateGetRaw(key);
      return Done(value.Some?);
    }

    method StateSetRaw(key: array<Byte>, value: array<Byte>) returns (r: Completion<()>)
      requires Valid()
      modifies `overlayEntries, `pendingKind, `pendingCode, `pendingKey
      ensures Valid()
      ensures match old(Write(Abstract(), key[..], Some(value[..])))
              case Unknown => r.Thrown? && Needs(key[..]) && Abstract() == old(Abstract())
              case Oversized => r.Thrown? && Failed(FATAL_INVALID_VIEW) && Abstract() == old(Abstract())
              case Written(state) => r.Done? && Abstract() == state && pendingKind == old(pendingKind)
      ensures forall a :: a in Stored() ==> a in old(Stored()) || fresh(a)
    {
      ghost var copies;
      r, copies := Store(key, Some(value));
    }

    method StateDeleteRaw(key: array<Byte>) returns (r: Completion<()>)
      requires Valid()
      modifies `overlayEntries, `pendingKind, `pendingCode, `pendingKey
      ensures Valid()
      ensures match old(Write(Abstract(), key[..], None))
              case Unknown => r.Thrown? && Needs(key[..]) && Abstract() == old(Abstract())
              case Oversized => r.Thrown? && Failed(FATAL_INVALID_VIEW) && Abstract() == old(Abstract())
              case Written(state) => r.Done? && Abstract() == state && pendingKind == old(pendingKind)
      ensures forall a :: a in Stored() ==> a in old(Stored()) || fresh(a)
    {
      ghost var copies;
      r, copies := Store(key, None);
    }

    /** class byte, little-endian u16 namespace length, namespace, canonical key. */
    method ApplicationKeyV1(namespace: array<Byte>, canonicalKey: array<Byte>)
      returns (r: Completion<array<Byte>>)
      modifies `pendingKind, `pendingCode
      ensures namespace.Length > 65535 ==> r.Thrown? && Failed(FATAL_INVALID_VIEW)
      ensures namespace.Length <= 65535 ==>
                r.Done? && fresh(r.value) && pendingKind == old(pendingKind)
                && r.value[..] == ApplicationKey(namespace[..], canonicalKey[..])
    {
      if namespace.Length > 65535 {
        FailStateView();
        return Thrown;
      }
      var output := new Byte[3 + namespace.Length + canonicalKey.Length];
      output[0] := APPLICATION_KEY_CLASS;
      output[1] := namespace.Length % 256;
      output[2] := namespace.Length / 256 % 256;
      SetBytes(output, namespace, 3);
      SetBytes(output, canonicalKey, 3 + namespace.Length);
      assert output[..] == output[..3 + namespace.Length + canonicalKey.Length];
      return Done(output);
    }

    /** Throws with the given application code, or fails the view when the code is out of
        range or no whole number. */
    method Abort(code: real)
      modifies `pendingKind, `pendingCode
      ensures AbortCode(code) ==> pendingKind == KIND_ABORT && pendingCode == code.Floor
      ensures !AbortCode(code) ==> Failed(FATAL_INVALID_VIEW)
      ensures 1.0 <= code <= 16777215.0 && code.Floor as real == code ==> pendingKind == 1 && pendingCode == code.Floor
      ensures !(1.0 <= code <= 16777215.0 && code.Floor as real == code) ==>
                pendingKind == 3 && pendingCode == 0x8000_0002
    {
      if code.Floor as real != code || code < 1.0 || code > MAX_ABORT_CODE as real {
        FailStateView();
        return;
      }
      pendingKind, pendingCode := KIND_ABORT, code.Floor;
    }

    /** What a thrown error means to the host. */
    ghost function Pending(): Outcome
      reads `pendingKind, `pendingCode, `pendingKey, pendingKey
    {
      if pendingKind == KIND_NEED_STATE then NeedState(pendingKey[..])
      else if pendingKind == KIND_ABORT then Outcome.Abort(pendingCode)
      else if pendingKind == KIND_FATAL then Fatal(pendingCode)
      else Fatal(FATAL_UNCAUGHT)
    }

    method CaughtResult() returns (output: array<Byte>)
      ensures fresh(output) && output[..] == Print(Pending())
      ensures output[..] == if pendingKind == 1 then [1, 1] + U32(pendingCode)
                            else if pendingKind == 2 then [1, 2] + U32(pendingKey.Length) + pendingKey[..]
                            else if pendingKind == 3 then [1, 3] + U32(pendingCode)
                            else [1, 3, 1, 0, 0, 128]
    {
      if pendingKind == KIND_NEED_STATE {
        output := EncodeNeedState(pendingKey);
      } else if pendingKind == KIND_ABORT {
        output := EncodeCode(KIND_ABORT, pendingCode);
      } else if pendingKind == KIND_FATAL {
        output := EncodeCode(KIND_FATAL, pendingCode);
      } else {
        output := EncodeCode(KIND_FATAL, FATAL_UNCAUGHT);
      }
    }

    /** stateSetRaw with a value, stateDeleteRaw with None. */
    method Store(key: array<Byte>, value: Option<array<Byte>>)
      returns (r: Completion<()>, ghost copies: set<object>)
      requires Valid()
      modifies `overlayEntries, `pendingKind, `pendingCode, `pendingKey
      ensures Valid()
      ensures match old(Write(Abstract(), key[..], ReadValue(value)))
              case Unknown => r.Thrown? && Needs(key[..]) && Abstract() == old(Abstract())
              case Oversized => r.Thrown? && Failed(FATAL_INVALID_VIEW) && Abstract() == old(Abstract())
              case Written(state) => r.Done? && Abstract() == state && pendingKind == old(pendingKind)
      ensures fresh(copies) && Stored() <= old(Stored()) + copies
    {
      ghost var before, e := Abstract(), Entry(key[..], ReadValue(value));
      var known := RequireKnown(key);
      assert Abstract() == before && Entry(key[..], ReadValue(value)) == e;
      if !known { return Thrown, {}; }
      r, copies := StoreKnown(key, value);
    }

    /** Whether a write to `key` is allowed; if not, the host is asked for the key. */
    method RequireKnown(key: array<Byte>) returns (known: bool)
      requires Valid()
      modifies `pendingKind, `pendingKey
      ensures Valid() && Abstract() == old(Abstract())
      ensures known == !Write(Abstract(), key[..], None).Unknown?
      ensures if known then pendingKind == old(pendingKind) && pendingKey == old(pendingKey) else Needs(key[..])
    {
      ghost var before, k := Abstract(), key[..];
      known := IsKnown(key);
      assert Abstract() == before && key[..] == k;
      if !known {
        NeedKey(key);
        assert Abstract() == before && key[..] == k;
      }
    }

    /** The rest of a write, once the key is known. */
    method StoreKnown(key: array<Byte>, value: Option<array<Byte>>)
      returns (r: Completion<()>, ghost copies: set<object>)
      requires Valid() && !Write(Abstract(), key[..], ReadValue(value)).Unknown?
      modifies `overlayEntries, `pendingKind, `pendingCode
      ensures Valid()
      ensures match old(Write(Abstract(), key[..], ReadValue(value)))
              case Unknown => false
              case Oversized => r.Thrown? && Failed(FATAL_INVALID_VIEW) && Abstract() == old(Abstract())
              case Written(state) => r.Done? && Abstract() == state && pendingKind == old(pendingKind)
      ensures fresh(copies) && Stored() <= old(Stored()) + copies
    {
      ghost var before, e := Abstract(), Entry(key[..], ReadValue(value));
      if Write(before, e.key, e.value).Written? {
        WriteIsUpdate(before, e.key, e.value);
      }
      r, copies := WriteOverlay(key, value);
      assert Contents(baseEntries) == before.base;
    }

    /** Whether a write to `key` is allowed: it is in the overlay or in the view. */
    method IsKnown(key: array<Byte>) returns (known: bool)
      requires Valid()
      ensures known == !Write(Abstract(), key[..], None).Unknown?
    {
      ghost var before, k := Abstract(), key[..];
      var knownOverlay, _ := Known(overlayEntries, key);
      assert Abstract() == before && key[..] == k;
      known := knownOverlay;
      if !knownOverlay {
        var knownBase, _ := Known(baseEntries, key);
        assert Abstract() == before && key[..] == k;
        known := knownBase;
      }
    }

    // ------------------------------------------------------------ printing results

    method EncodeCode(kind: Byte, code: nat) returns (output: array<Byte>)
      ensures fresh(output) && output[..] == [RESULT_VERSION, kind] + U32(code)
    {
      output := new Byte[6];
      output[0] := RESULT_VERSION;
      output[1] := kind;
      var _ := WriteU32(output, 2, code);
    }

    method EncodeNeedState(key: array<Byte>) returns (output: array<Byte>)
      ensures fresh(output) && output[..] == Print(NeedState(key[..]))
    {
      output := new Byte[6 + key.Length];
      output[0] := RESULT_VERSION;
      output[1] := KIND_NEED_STATE;
      var _ := WriteU32(output, 2, key.Length);
      SetBytes(output, key, 6);
      assert output[..] == output[..6 + key.Length];
    }

    /** The length the diff will take, summed entry by entry. */
    method DiffLength() returns (diffLength: nat)
      ensures diffLength == |EncodeView(Contents(overlayEntries))|
    {
      diffLength := 5;
      var i := 0;
      ghost var es := Contents(overlayEntries);
      EncodedLength(es);
      assert es[i..] == es;
      while i < |overlayEntries|
        invariant 0 <= i <= |overlayEntries|
        invariant es == Contents(overlayEntries)
        invariant diffLength + Size(es[i..]) == 5 + Size(es)
      {
        var entry := overlayEntries[i];
        NextEntry(es, i);
        diffLength := diffLength + 4 + entry.key.Length + 1;
        if entry.value.Some? {
          diffLength := diffLength + 4 + entry.value.value.Length;
        }
        i := i + 1;
      }
      assert es[i..] == [];
    }

    method WriteField(output: array<Byte>, offset: nat, field: array<Byte>) returns (next: nat)
      requires offset + |EncodeField(field[..])| <= output.Length && output != field
      modifies output
      ensures next == offset + |EncodeField(field[..])|
      ensures output[..next] == old(output[..offset]) + EncodeField(field[..])
    {
      next := WriteU32(output, offset, field.Length);
      SetBytes(output, field, next);
      next := next + field.Length;
    }

    method WriteByte(output: array<Byte>, offset: nat, value: Byte) returns (next: nat)
      requires offset < output.Length
      modifies output
      ensures next == offset + 1 && output[..next] == old(output[..offset]) + [value]
    {
      output[offset] := value;
      next := offset + 1;
    }

    method WriteValue(output: array<Byte>, offset: nat, value: Option<array<Byte>>) returns (next: nat)
      requires offset + |EncodeValue(ReadValue(value))| <= output.Length
      requires value.Some? ==> output != value.value
      modifies output
      ensures next == offset + |EncodeValue(ReadValue(value))|
      ensures output[..next] == old(output[..offset]) + EncodeValue(ReadValue(value))
    {
      if value.None? {
        next := WriteByte(output, offset, 0);
      } else {
        Associative(output[..offset], [1], EncodeField(value.value[..]));
        next := WriteByte(output, offset, 1);
        next := WriteField(output, next, value.value);
      }
    }

    /** One entry of the diff, written at `offset`. */
    method WriteEntry(output: array<Byte>, offset: nat, entry: StateEntry) returns (next: nat)
      requires offset + |EncodeEntry(Read(entry))| <= output.Length
      requires output !in Arrays(entry)
      modifies output
      ensures next == offset + |EncodeEntry(Read(entry))|
      ensures output[..next] == old(output[..offset]) + EncodeEntry(Read(entry))
    {
      Associative(output[..offset], EncodeField(entry.key[..]), EncodeValue(ReadValue(entry.value)));
      next := WriteField(output, offset, entry.key);
      next := WriteValue(output, next, entry.value);
    }

    method WriteNext(output: array<Byte>, offset: nat, i: nat) returns (next: nat)
      requires i < |overlayEntries| && output !in AllArrays(overlayEntries)
      requires offset + |EncodeEntry(Read(overlayEntries[i]))| <= output.Length
      modifies output
      ensures Contents(overlayEntries) == old(Contents(overlayEntries))
      ensures next == offset + |EncodeEntry(Read(overlayEntries[i]))|
      ensures output[..next] == old(output[..offset]) + EncodeEntry(old(Read(overlayEntries[i])))
    {
      assert Arrays(overlayEntries[i]) <= AllArrays(overlayEntries);
      next := WriteEntry(output, offset, overlayEntries[i]);
    }

    method WriteHeader(output: array<Byte>, diffLength: nat, count: nat) returns (offset: nat)
      requires 11 <= output.Length
      modifies output
      ensures offset == 11
      ensures output[..offset] == [RESULT_VERSION, KIND_APPLIED] + U32(diffLength) + [VERSION] + U32(count)
    {
      output[0] := RESULT_VERSION;
      output[1] := KIND_APPLIED;
      assert output[..2] == [RESULT_VERSION, KIND_APPLIED];
      offset := WriteU32(output, 2, diffLength);
      offset := WriteByte(output, offset, VERSION);
      offset := WriteU32(output, offset, count);
    }

    /** Writes every overlay entry from `start`; the buffer has exactly that room left. */
    method WriteEntries(output: array<Byte>, start: nat)
      requires output !in AllArrays(overlayEntries)
      requires start + Size(Contents(overlayEntries)) == output.Length
      modifies output
      ensures Contents(overlayEntries) == old(Contents(overlayEntries))
      ensures output[..] == old(output[..start]) + EncodeEntries(Contents(overlayEntries))
    {
      ghost var es, header := Contents(overlayEntries), output[..start];
      ghost var rest := EncodeEntries(es);
      EncodedLength(es);
      assert es[0..] == es && EncodeEntries([]) == [];
      var i, offset: nat := 0, start;
      while i < |overlayEntries|
        invariant 0 <= i <= |overlayEntries| && offset <= output.Length
        invariant es == Contents(overlayEntries)
        invariant rest == EncodeEntries(es[i..])
        invariant output[..offset] + rest == header + EncodeEntries(es)
      {
        NextEntry(es, i);
        Associative(output[..offset], EncodeEntry(es[i]), EncodeEntries(es[i + 1..]));
        rest := EncodeEntries(es[i + 1..]);
        offset := WriteNext(output, offset, i);
        i := i + 1;
      }
      assert es[i..] == [];
      assert output[..] == output[..offset];
    }

    /** The applied result fills a buffer of precomputed size exactly, and every length it
        announces fits its u32 field. */
    method EncodeApplied() returns (output: array<Byte>)
      requires Valid()
      ensures fresh(output) && output[..] == Print(Applied(Abstract().overlay))
      ensures |EncodeView(Abstract().overlay)| < U32_LIMIT
    {
      DiffFitsU32(Abstract());
      EncodedLength(Contents(overlayEntries));
      var diffLength := DiffLength();
      output := new Byte[6 + diffLength];
      assert output !in AllArrays(overlayEntries);
      FillApplied(output, diffLength);
    }

    /** Header and entries, into a buffer of exactly their size. */
    method FillApplied(output: array<Byte>, diffLength: nat)
      requires output !in AllArrays(overlayEntries) && output.Length == 6 + diffLength
      requires diffLength == |EncodeView(Contents(overlayEntries))| < U32_LIMIT
      requires |overlayEntries| < U32_LIMIT
      modifies output
      ensures Contents(overlayEntries) == old(Contents(overlayEntries))
      ensures output[..] == Print(Applied(Contents(overlayEntries)))
    {
      ghost var es := Contents(overlayEntries);
      EncodedLength(es);
      var offset := WriteHeader(output, diffLength, |overlayEntries|);
      AppliedHeader(es, output[..offset], diffLength);
      WriteEntries(output, offset);
    }
  }
}
