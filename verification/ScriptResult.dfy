// The bytes a script entry hands back to its host, and the host's reading of them.
module ScriptResult {
  import opened Bytes
  import opened StateView
  import opened Overlay

  const RESULT_VERSION: Byte := 1
  const KIND_APPLIED: Byte := 0
  const KIND_ABORT: Byte := 1
  const KIND_NEED_STATE: Byte := 2
  const KIND_FATAL: Byte := 3
  const MAX_ABORT_CODE := 0x00ff_ffff

  /** The numbers a script can abort with; any other fails its view. */
  predicate AbortCode(code: real) {
    code.Floor as real == code && 1.0 <= code <= MAX_ABORT_CODE as real
  }
  const FATAL_UNCAUGHT := 0x8000_0001
  const FATAL_INVALID_VIEW := 0x8000_0002

  datatype Outcome =
    | Applied(changes: seq<Entry>)
    | Abort(code: nat)
    | NeedState(key: Bytes)
    | Fatal(code: nat)

  function Print(o: Outcome): Bytes {
    match o
    case Applied(changes) =>
      [RESULT_VERSION, KIND_APPLIED] + U32(|EncodeView(changes)|) + EncodeView(changes)
    case Abort(code) => [RESULT_VERSION, KIND_ABORT] + U32(code)
    case NeedState(key) => [RESULT_VERSION, KIND_NEED_STATE] + U32(|key|) + key
    case Fatal(code) => [RESULT_VERSION, KIND_FATAL] + U32(code)
  }

  /** The host's decoder, taken to be the strict inverse grammar: the announced length
      must be exactly what follows. */
  function Parse(s: Bytes): Option<Outcome> {
    if |s| < 6 || s[0] != RESULT_VERSION then None else
    var field, rest := ToU32(s[2..]), s[6..];
    if s[1] == KIND_APPLIED then
      if field != |rest| then None else
      match ParseView(rest)
      case None => None
      case Some(changes) => Some(Applied(changes))
    else if s[1] == KIND_NEED_STATE then
      if field != |rest| then None else Some(NeedState(rest))
    else if rest != [] then None
    else if s[1] == KIND_ABORT then Some(Abort(field))
    else if s[1] == KIND_FATAL then Some(Fatal(field))
    else None
  }

  /** What a runtime outcome satisfies when the host can read its bytes. */
  predicate Readable(o: Outcome) {
    match o
    case Applied(changes) => Canonical(changes) && |EncodeView(changes)| <= MAX_VIEW_BYTES
    case Abort(code) => code < U32_LIMIT
    case NeedState(key) => |key| < U32_LIMIT
    case Fatal(code) => code < U32_LIMIT
  }

  lemma Header(kind: Byte, field: nat, rest: Bytes)
    requires field < U32_LIMIT
    ensures var s := [RESULT_VERSION, kind] + U32(field) + rest;
            |s| == 6 + |rest| && s[0] == RESULT_VERSION && s[1] == kind
            && ToU32(s[2..]) == field && s[6..] == rest
  {
    var s := [RESULT_VERSION, kind] + U32(field) + rest;
    assert s[2..6] == U32(field);
    assert ToU32(s[2..]) == ToU32(s[2..6]);
    U32RoundTrip(field);
    assert s[6..] == rest;
  }

  /** The host reads back what the runtime printed. An applied result comes back as the
      overlay it was printed from whenever the diff is at most 1 MiB. */
  lemma ParsePrinted(o: Outcome)
    requires Readable(o)
    ensures Parse(Print(o)) == Some(o)
  {
    match o
    case Applied(changes) =>
      Header(KIND_APPLIED, |EncodeView(changes)|, EncodeView(changes));
      ViewBijection(EncodeView(changes), changes);
    case Abort(code) => Header(KIND_ABORT, code, []);
      assert Print(o) == [RESULT_VERSION, KIND_ABORT] + U32(code) + [];
    case NeedState(key) => Header(KIND_NEED_STATE, |key|, key);
    case Fatal(code) => Header(KIND_FATAL, code, []);
      assert Print(o) == [RESULT_VERSION, KIND_FATAL] + U32(code) + [];
  }

  // ----------------------------------------------------------- applying the diff

  /** One change on the host's raw state: a present value is stored, None deletes. */
  function ApplyChange(raw: map<Bytes, Bytes>, change: Entry): map<Bytes, Bytes> {
    match change.value
    case Some(value) => raw[change.key := value]
    case None => raw - {change.key}
  }

  function ApplyDiff(raw: map<Bytes, Bytes>, changes: seq<Entry>): map<Bytes, Bytes>
    decreases changes
  {
    if changes == [] then raw else ApplyDiff(ApplyChange(raw, changes[0]), changes[1..])
  }

  /** The keys a script sees as present, with their values. */
  function Present(view: map<Bytes, Option<Bytes>>): map<Bytes, Bytes> {
    map k | k in view && view[k].Some? :: view[k].value
  }

  lemma PresentUpdate(view: map<Bytes, Option<Bytes>>, change: Entry)
    ensures Present(view[change.key := change.value]) == ApplyChange(Present(view), change)
  {
  }

  lemma {:induction false} DictOverwritten(base: map<Bytes, Option<Bytes>>, es: seq<Entry>)
    requires es != [] && Sorted(es)
    ensures base + Dict(es) == base[es[0].key := es[0].value] + Dict(es[1..])
  {
    var rest := es[1..];
    assert es[0].key !in Dict(rest) by {
      DictKeys(rest);
      if es[0].key in Keys(rest) {
        var i :| 0 <= i < |rest| && rest[i].key == es[0].key;
        assert Less(es[0].key, es[i + 1].key);
        StrictTotalOrder(es[0].key, es[0].key, es[0].key);
      }
    }
  }

  lemma {:induction false} DiffIsOverride(base: map<Bytes, Option<Bytes>>, changes: seq<Entry>)
    requires Sorted(changes)
    ensures ApplyDiff(Present(base), changes) == Present(base + Dict(changes))
    decreases changes
  {
    if changes == [] {
      assert base + Dict(changes) == base;
    } else {
      var e := changes[0];
      PresentUpdate(base, e);
      DiffIsOverride(base[e.key := e.value], changes[1..]);
      DictOverwritten(base, changes);
    }
  }

  /** Applying the printed diff to the base the view described gives exactly the state
      stateGetRaw shows. */
  lemma DiffGivesVisible(s: State)
    requires Overlay.Valid(s)
    ensures ApplyDiff(Present(Dict(s.base)), s.overlay) == Present(Visible(s))
  {
    DiffIsOverride(Dict(s.base), s.overlay);
  }
}
