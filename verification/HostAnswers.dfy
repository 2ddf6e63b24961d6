// What the host makes of a script's bytes, spelled out.
module HostAnswers {
  import opened Bytes
  import opened Spelling
  import opened StateView
  import opened Registry
  import opened ServiceHost
  import opened ViewSpelled
  import Names
  import R = ScriptResult

  /** The keys a script may write: class 1, the 12 bytes of its namespace, and anything. */
  lemma GuardSpelled(key: Bytes)
    ensures ApplicationKeyAllowed(key) <==> exists rest: Bytes :: key == [1, 12, 0] + Ascii("jns.names/v1") + rest
  {
    NamespaceSpelled();
    if ApplicationKeyAllowed(key) {
      AllowedParts(key);
    }
    if rest: Bytes :| key == [1, 12, 0] + Names.NAMESPACE + rest {
      assert key[3..15] == Names.NAMESPACE;
    }
  }

  lemma AllowedParts(key: Bytes)
    requires ApplicationKeyAllowed(key)
    ensures |key| >= 15 && key == [1, 12, 0] + Names.NAMESPACE + key[15..]
  {
    var size := key[1] as int + 256 * key[2] as int;
    assert |key[3..3 + size]| == 12;
    assert key[..3] == [1, 12, 0];
    assert key == key[..3] + key[3..15] + key[15..];
  }

  lemma NamespaceSpelled()
    ensures Ascii("jns.names/v1") == Names.NAMESPACE
  {
  }

  /** An unknown action, a result that is too long or cannot be read, and each result that is
      no diff leave the state and give their own error. */
  lemma FailuresSpelled(entry: ScriptEntry, call: Call, limits: Limits, before: RawState, after: RawState,
                        r: Result<()>, view: Bytes)
    requires ScriptExactly(entry, call, limits, before, after, r) && IsView(before, limits.known, view)
    ensures var output := entry(call.selector, call.payload, call.sender, view);
            && (output.None? ==> r == Err(Rejected(UnknownAction)) && after == before)
            && (output.Some? && (|output.value| > limits.maxResultBytes || R.Parse(output.value).None?) ==>
                  r == Err(ApplicationFailed(0x8000_0002)) && after == before)
  {
  }

  lemma CodesSpelled(entry: ScriptEntry, call: Call, limits: Limits, before: RawState, after: RawState,
                     r: Result<()>, view: Bytes, output: Bytes, code: nat)
    requires ScriptExactly(entry, call, limits, before, after, r) && IsView(before, limits.known, view)
    requires entry(call.selector, call.payload, call.sender, view) == Some(output) && |output| <= limits.maxResultBytes
    requires code < 0x1_0000_0000 && (output == [1, 1] + U32(code) || output == [1, 3] + U32(code))
    ensures r == Err(ApplicationFailed(code)) && after == before
  {
    R.ParsePrinted(R.Abort(code));
    R.ParsePrinted(R.Fatal(code));
    ResultsSpelled([], code, []);
  }

  lemma MissingSpelled(entry: ScriptEntry, call: Call, limits: Limits, before: RawState, after: RawState,
                       r: Result<()>, view: Bytes, output: Bytes, key: Bytes)
    requires ScriptExactly(entry, call, limits, before, after, r) && IsView(before, limits.known, view)
    requires entry(call.selector, call.payload, call.sender, view) == Some(output) && |output| <= limits.maxResultBytes
    requires |key| < 0x1_0000_0000 && output == [1, 2] + U32(|key|) + key
    ensures r == Err(Missing(key)) && after == before
  {
    R.ParsePrinted(R.NeedState(key));
    ResultsSpelled([], 0, key);
  }

  /** A diff is applied whole, or not at all when a key of it is not allowed or not known. */
  lemma DiffSpelled(entry: ScriptEntry, call: Call, limits: Limits, before: RawState, after: RawState,
                    r: Result<()>, view: Bytes, output: Bytes, changes: seq<Entry>)
    requires ScriptExactly(entry, call, limits, before, after, r) && IsView(before, limits.known, view)
    requires entry(call.selector, call.payload, call.sender, view) == Some(output) && |output| <= limits.maxResultBytes
    requires R.Parse(output) == Some(R.Applied(changes))
    ensures if AllAllowed(changes) && AllKnown(limits.known, changes)
            then r.Ok? && after == R.ApplyDiff(before, changes)
            else r.Err? && after == before
  {
    ChangesGoThrough(before, limits.known, changes);
  }

  /** The first such key decides the error. */
  lemma RefusalSpelled(entry: ScriptEntry, call: Call, limits: Limits, before: RawState, after: RawState,
                       r: Result<()>, view: Bytes, output: Bytes, changes: seq<Entry>, i: nat)
    requires ScriptExactly(entry, call, limits, before, after, r) && IsView(before, limits.known, view)
    requires entry(call.selector, call.payload, call.sender, view) == Some(output) && |output| <= limits.maxResultBytes
    requires R.Parse(output) == Some(R.Applied(changes))
    requires i < |changes| && AllAllowed(changes[..i]) && AllKnown(limits.known, changes[..i])
    ensures !ApplicationKeyAllowed(changes[i].key) ==> r == Err(ReservedKey)
    ensures ApplicationKeyAllowed(changes[i].key) && changes[i].key !in limits.known ==> r == Err(Missing(changes[i].key))
  {
    FirstRefused(before, limits.known, changes, i);
  }

  lemma {:induction false} FirstRefused(raw: RawState, known: set<Bytes>, changes: seq<Entry>, i: nat)
    requires i < |changes| && AllAllowed(changes[..i]) && AllKnown(known, changes[..i])
    ensures !ApplicationKeyAllowed(changes[i].key) ==> ApplyChanges(raw, known, changes).1 == Err(ReservedKey)
    ensures ApplicationKeyAllowed(changes[i].key) && changes[i].key !in known ==>
              ApplyChanges(raw, known, changes).1 == Err(Missing(changes[i].key))
    decreases i
  {
    if i > 0 {
      var rest := changes[1..][..i - 1];
      assert changes[..i][0] == changes[0] && rest == changes[..i][1..];
      forall j | 0 <= j < |rest| ensures ApplicationKeyAllowed(rest[j].key) && rest[j].key in known {
        assert changes[..i][j + 1] == rest[j];
      }
      FirstRefused(R.ApplyChange(raw, changes[0]), known, changes[1..], i - 1);
    }
  }
}
