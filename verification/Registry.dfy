// The registry the service's raw state stands for, and the end-to-end refinement: script
// bytes in, diff bytes out, applied by the host, is the abstract claim or bind.
module Registry {
  import opened Bytes
  import opened StateView
  import opened Overlay
  import opened Names
  import opened PartialViews
  import R = ScriptResult

  type RawState = map<Bytes, Bytes>

  /** The namespace guard of the host. */
  predicate ApplicationKeyAllowed(key: Bytes) {
    if |key| < 3 || key[0] != 1 then false else
    var namespaceLength := key[1] as int + 256 * key[2] as int;
    3 + namespaceLength <= |key| && key[3..3 + namespaceLength] == NAMESPACE
  }

  predicate IsNameKey(key: Bytes) {
    16 <= |key| <= 16 + MAX_NAME_BYTES && key == KeyName(key[16..])
  }

  /** Every application entry is a name's key with a record behind it. */
  ghost predicate WellFormed(raw: RawState) {
    forall key :: key in raw && ApplicationKeyAllowed(key) ==>
      IsNameKey(key) && DecodeRecord(raw[key]).Some?
  }

  function StoredRecord(raw: RawState, name: Bytes): Option<Record>
    requires |name| <= MAX_NAME_BYTES
  {
    if KeyName(name) in raw then DecodeRecord(raw[KeyName(name)]) else None
  }

  function StoredNames(raw: RawState): set<Bytes> {
    set key | key in raw && IsNameKey(key) && DecodeRecord(raw[key]).Some? :: key[16..]
  }

  lemma StoredName(raw: RawState, name: Bytes)
    ensures name in StoredNames(raw) <==> |name| <= MAX_NAME_BYTES && StoredRecord(raw, name).Some?
  {
    if |name| <= MAX_NAME_BYTES && StoredRecord(raw, name).Some? {
      KeyLayout(name);
      assert KeyName(name) in raw && KeyName(name)[16..] == name;
    }
  }

  /** The name-to-record map the raw state holds. */
  function Abstract(raw: RawState): Names.Registry {
    map name | name in StoredNames(raw) :: RecordAt(raw, name)
  }

  function RecordAt(raw: RawState, name: Bytes): Record
    requires name in StoredNames(raw)
  {
    StoredName(raw, name);
    StoredRecord(raw, name).value
  }

  lemma AbstractAt(raw: RawState, name: Bytes)
    ensures name in Abstract(raw) <==> |name| <= MAX_NAME_BYTES && StoredRecord(raw, name).Some?
    ensures name in Abstract(raw) ==> Abstract(raw)[name] == StoredRecord(raw, name).value
  {
    StoredName(raw, name);
  }

  lemma NameKeyAllowed(name: Bytes)
    requires |name| <= MAX_NAME_BYTES
    ensures ApplicationKeyAllowed(KeyName(name)) && IsNameKey(KeyName(name))
  {
    KeyLayout(name);
    assert KeyName(name)[3..15] == NAMESPACE;
  }

  lemma NameKeyInjective(a: Bytes, b: Bytes)
    requires |a| <= MAX_NAME_BYTES && |b| <= MAX_NAME_BYTES && KeyName(a) == KeyName(b)
    ensures a == b
  {
    KeyLayout(a);
    KeyLayout(b);
  }

  lemma StoreKeepsForm(raw: RawState, name: Bytes, r: Record)
    requires WellFormed(raw) && |name| <= MAX_NAME_BYTES && WellFormedRecord(r)
    ensures WellFormed(raw[KeyName(name) := EncodeRecord(r)])
  {
    RecordRoundTrip(r);
    NameKeyAllowed(name);
  }

  lemma StoreAtName(raw: RawState, name: Bytes, r: Record, other: Bytes)
    requires |name| <= MAX_NAME_BYTES && |other| <= MAX_NAME_BYTES && WellFormedRecord(r)
    ensures StoredRecord(raw[KeyName(name) := EncodeRecord(r)], other)
            == if other == name then Some(r) else StoredRecord(raw, other)
  {
    RecordRoundTrip(r);
    if KeyName(other) == KeyName(name) {
      NameKeyInjective(other, name);
    }
  }

  /** Storing a record under a name's key is updating the registry at that name. */
  lemma StoreIsUpdate(raw: RawState, name: Bytes, r: Record)
    requires WellFormed(raw) && |name| <= MAX_NAME_BYTES && WellFormedRecord(r)
    ensures var raw' := raw[KeyName(name) := EncodeRecord(r)];
            WellFormed(raw') && Abstract(raw') == Abstract(raw)[name := r]
  {
    var raw' := raw[KeyName(name) := EncodeRecord(r)];
    StoreKeepsForm(raw, name, r);
    var before, after := Abstract(raw), Abstract(raw');
    forall other: Bytes
      ensures other in after <==> other == name || other in before
      ensures other in after ==> after[other] == if other == name then r else before[other]
    {
      AbstractAt(raw, other);
      AbstractAt(raw', other);
      if |other| <= MAX_NAME_BYTES {
        StoreAtName(raw, name, r, other);
      }
    }
  }

  function FullOf(raw: RawState): FullState {
    (key: Bytes) => if key in raw then Some(raw[key]) else None
  }

  /** A view the host built from the raw state. */
  ghost predicate ViewOf(raw: RawState, view: Bytes) {
    ParseView(view).Some? && Consistent(FullOf(raw), ParseView(view).value)
  }

  lemma ViewLookup(raw: RawState, es: seq<Entry>, key: Bytes)
    requires Canonical(es) && Consistent(FullOf(raw), es)
    ensures Overlay.Get(State(es, []), key).Some? ==> Overlay.Get(State(es, []), key).value == FullOf(raw)(key)
    ensures Overlay.Get(State(es, []), key).Some? <==> Has(es, key)
  {
    if Has(es, key) {
      assert es[Position(es, key)] in es;
    }
  }

  /** What one successful write leaves: a diff of one change, readable by the host. */
  lemma SingleWrite(raw: RawState, es: seq<Entry>, name: Bytes, r: Record)
    requires |name| <= MAX_NAME_BYTES && WellFormedRecord(r)
    requires Canonical(es) && Has(es, KeyName(name))
    ensures var changes := [Entry(KeyName(name), Some(EncodeRecord(r)))];
            && Write(State(es, []), KeyName(name), Some(EncodeRecord(r))) == Written(State(es, changes))
            && R.Readable(R.Applied(changes))
            && R.ApplyDiff(raw, changes) == raw[KeyName(name) := EncodeRecord(r)]
  {
    var e := Entry(KeyName(name), Some(EncodeRecord(r)));
    KeyLayout(name);
    EncodedLength([e]);
    assert Size([e]) == EntrySize(e) + Size([]);
    assert R.ApplyDiff(R.ApplyChange(raw, e), []) == R.ApplyChange(raw, e);
  }

  /** Every change passes the namespace guard. */
  predicate AllAllowed(changes: seq<Entry>) {
    forall i :: 0 <= i < |changes| ==> ApplicationKeyAllowed(changes[i].key)
  }

  /** How an action's outcome on the raw state relates to the abstract verdict. */
  ghost predicate Refines(raw: RawState, es: seq<Entry>, input: Option<(Bytes, nat)>, verdict: Verdict, o: R.Outcome) {
    match o
    case Applied(changes) =>
      && input.Some? && AllAllowed(changes)
      && WellFormed(R.ApplyDiff(raw, changes))
      && verdict == Updated(Abstract(R.ApplyDiff(raw, changes)))
    case Abort(code) => input.Some? && verdict == Refused(code)
    case NeedState(key) =>
      input.Some? && ValidName(input.value.0) && key == KeyName(input.value.0) && !Has(es, key)
    case Fatal(code) => code == R.FATAL_UNCAUGHT && input.None?
  }

  function ClaimVerdict(raw: RawState, sender: Bytes, input: Option<(Bytes, nat)>): Verdict {
    if input.None? then Refused(0) else Claim(Abstract(raw), sender, input.value.0, input.value.1)
  }

  function BindVerdict(raw: RawState, sender: Bytes, input: Option<(Bytes, nat)>): Verdict {
    if input.None? then Refused(0) else Bind(Abstract(raw), sender, input.value.0, input.value.1)
  }

  /** The outcome of reading one key and then writing it. */
  function WriteOutcome(es: seq<Entry>, key: Bytes, value: Bytes): R.Outcome {
    match Write(State(es, []), key, Some(value))
    case Unknown => R.NeedState(key)
    case Oversized => R.Fatal(R.FATAL_INVALID_VIEW)
    case Written(s) => R.Applied(s.overlay)
  }

  /** The claim script's run, by cases on the input and the view. */
  lemma ClaimRun(es: seq<Entry>, payload: Bytes, sender: Bytes)
    requires |sender| == ADDRESS_BYTES && Within(ClaimScript(payload, sender), 2)
    ensures Run(ClaimScript(payload, sender), 2, State(es, []))
            == match DecodeInput(payload)
               case None => R.Fatal(R.FATAL_UNCAUGHT)
               case Some((name, serviceId)) =>
                 if !ValidName(name) then R.Abort(1) else
                 match Overlay.Get(State(es, []), KeyName(name))
                 case None => R.NeedState(KeyName(name))
                 case Some(Some(_)) => R.Abort(2)
                 case Some(None) =>
                   WriteOutcome(es, KeyName(name), EncodeRecord(Record(sender, serviceId)))
  {
  }

  lemma BindRun(es: seq<Entry>, payload: Bytes, sender: Bytes)
    requires |sender| == ADDRESS_BYTES && Within(BindScript(payload, sender), 2)
    ensures Run(BindScript(payload, sender), 2, State(es, []))
            == match DecodeInput(payload)
               case None => R.Fatal(R.FATAL_UNCAUGHT)
               case Some((name, serviceId)) =>
                 if !ValidName(name) then R.Abort(1) else
                 match Overlay.Get(State(es, []), KeyName(name))
                 case None => R.NeedState(KeyName(name))
                 case Some(None) => R.Abort(3)
                 case Some(Some(raw)) =>
                   match DecodeRecord(raw)
                   case None => R.Fatal(R.FATAL_UNCAUGHT)
                   case Some(r) =>
                     if r.owner != sender then R.Abort(4)
                     else WriteOutcome(es, KeyName(name), EncodeRecord(Record(r.owner, serviceId)))
  {
  }

  /** A write that the abstract verdict agrees with. */
  lemma WriteRefines(raw: RawState, es: seq<Entry>, input: Option<(Bytes, nat)>, r: Record)
    requires WellFormed(raw) && Canonical(es) && WellFormedRecord(r)
    requires input.Some? && ValidName(input.value.0) && Has(es, KeyName(input.value.0))
    ensures var o := WriteOutcome(es, KeyName(input.value.0), EncodeRecord(r));
            R.Readable(o)
            && Refines(raw, es, input, Updated(Abstract(raw)[input.value.0 := r]), o)
  {
    var name := input.value.0;
    SingleWrite(raw, es, name, r);
    StoreIsUpdate(raw, name, r);
    NameKeyAllowed(name);
  }

  lemma ClaimOutcome(raw: RawState, es: seq<Entry>, payload: Bytes, sender: Bytes)
    requires WellFormed(raw) && |sender| == ADDRESS_BYTES
    requires Canonical(es) && Consistent(FullOf(raw), es)
    requires Within(ClaimScript(payload, sender), 2)
    ensures var o := Run(ClaimScript(payload, sender), 2, State(es, []));
            R.Readable(o)
            && Refines(raw, es, DecodeInput(payload), ClaimVerdict(raw, sender, DecodeInput(payload)), o)
  {
    var input := DecodeInput(payload);
    ClaimRun(es, payload, sender);
    if input.Some? && ValidName(input.value.0) {
      var key := KeyName(input.value.0);
      InputServiceId(payload);
      KeyLayout(input.value.0);
      NameKeyAllowed(input.value.0);
      ViewLookup(raw, es, key);
      AbstractAt(raw, input.value.0);
      if Has(es, key) && key !in raw {
        WriteRefines(raw, es, input, Record(sender, input.value.1));
      }
    }
  }

  lemma BindOutcome(raw: RawState, es: seq<Entry>, payload: Bytes, sender: Bytes)
    requires WellFormed(raw) && |sender| == ADDRESS_BYTES
    requires Canonical(es) && Consistent(FullOf(raw), es)
    requires Within(BindScript(payload, sender), 2)
    ensures var o := Run(BindScript(payload, sender), 2, State(es, []));
            R.Readable(o)
            && Refines(raw, es, DecodeInput(payload), BindVerdict(raw, sender, DecodeInput(payload)), o)
  {
    var input := DecodeInput(payload);
    BindRun(es, payload, sender);
    if input.Some? && ValidName(input.value.0) {
      var key := KeyName(input.value.0);
      InputServiceId(payload);
      KeyLayout(input.value.0);
      NameKeyAllowed(input.value.0);
      ViewLookup(raw, es, key);
      AbstractAt(raw, input.value.0);
      if Has(es, key) && key in raw {
        var owner := DecodeRecord(raw[key]).value.owner;
        WriteRefines(raw, es, input, Record(owner, input.value.1));
      }
    }
  }

  /** Claim, on bytes: whatever the payload, and on any view of a well-formed state, the
      host reads back an outcome that refines the abstract claim. */
  lemma ClaimRefines(raw: RawState, payload: Bytes, sender: Bytes, view: Bytes)
    requires WellFormed(raw) && |sender| == ADDRESS_BYTES && ViewOf(raw, view)
    ensures Within(ClaimScript(payload, sender), 2)
    ensures var parsed := R.Parse(EntryResult(ClaimScript(payload, sender), 2, view));
            parsed.Some? && Refines(raw, ParseView(view).value, DecodeInput(payload),
                                    ClaimVerdict(raw, sender, DecodeInput(payload)), parsed.value)
  {
    ScriptsAreShort(payload, sender);
    var es := ParseView(view).value;
    ViewBijection(view, es);
    ClaimOutcome(raw, es, payload, sender);
    R.ParsePrinted(Run(ClaimScript(payload, sender), 2, State(es, [])));
  }

  /** Bind, on bytes, the same way. */
  lemma BindRefines(raw: RawState, payload: Bytes, sender: Bytes, view: Bytes)
    requires WellFormed(raw) && |sender| == ADDRESS_BYTES && ViewOf(raw, view)
    ensures Within(BindScript(payload, sender), 2)
    ensures var parsed := R.Parse(EntryResult(BindScript(payload, sender), 2, view));
            parsed.Some? && Refines(raw, ParseView(view).value, DecodeInput(payload),
                                    BindVerdict(raw, sender, DecodeInput(payload)), parsed.value)
  {
    ScriptsAreShort(payload, sender);
    var es := ParseView(view).value;
    ViewBijection(view, es);
    BindOutcome(raw, es, payload, sender);
    R.ParsePrinted(Run(BindScript(payload, sender), 2, State(es, [])));
  }

  // --------------------------------------------------------- how small results are

  const RESULT_BOUND := 128

  /** At most one change, at the viewed key of the name asked for, with a record as its
      value; and a name the view lacks is asked for. */
  ghost predicate SmallOutcome(es: seq<Entry>, input: Option<(Bytes, nat)>, o: R.Outcome) {
    && (input.Some? && ValidName(input.value.0) && !Has(es, KeyName(input.value.0)) ==>
          o == R.NeedState(KeyName(input.value.0)))
    && match o
       case Applied(changes) =>
         |changes| == 1 && input.Some? && |input.value.0| <= MAX_NAME_BYTES
         && changes[0].key == KeyName(input.value.0) && Has(es, changes[0].key)
         && changes[0].value.Some? && |changes[0].value.value| == ADDRESS_BYTES + 4
       case NeedState(key) => |key| <= 16 + MAX_NAME_BYTES
       case _ => true
  }

  lemma SmallWrite(es: seq<Entry>, input: (Bytes, nat), r: Record)
    requires Canonical(es) && ValidName(input.0) && WellFormedRecord(r)
    ensures SmallOutcome(es, Some(input), WriteOutcome(es, KeyName(input.0), EncodeRecord(r)))
  {
    KeyLayout(input.0);
    if Has(es, KeyName(input.0)) {
      SingleWrite(map[], es, input.0, r);
    }
  }

  lemma ClaimIsSmall(es: seq<Entry>, payload: Bytes, sender: Bytes)
    requires Canonical(es) && |sender| == ADDRESS_BYTES && Within(ClaimScript(payload, sender), 2)
    ensures SmallOutcome(es, DecodeInput(payload), Run(ClaimScript(payload, sender), 2, State(es, [])))
  {
    ClaimRun(es, payload, sender);
    var input := DecodeInput(payload);
    if input.Some? && ValidName(input.value.0) {
      InputServiceId(payload);
      KeyLayout(input.value.0);
      SmallWrite(es, input.value, Record(sender, input.value.1));
    }
  }

  lemma BindIsSmall(es: seq<Entry>, payload: Bytes, sender: Bytes)
    requires Canonical(es) && |sender| == ADDRESS_BYTES && Within(BindScript(payload, sender), 2)
    ensures SmallOutcome(es, DecodeInput(payload), Run(BindScript(payload, sender), 2, State(es, [])))
  {
    BindRun(es, payload, sender);
    var input := DecodeInput(payload);
    if input.Some? && ValidName(input.value.0) {
      InputServiceId(payload);
      KeyLayout(input.value.0);
      var stored := Overlay.Get(State(es, []), KeyName(input.value.0));
      if stored.Some? && stored.value.Some? && DecodeRecord(stored.value.value).Some? {
        SmallWrite(es, input.value, Record(DecodeRecord(stored.value.value).value.owner, input.value.1));
      }
    }
  }

  /** The bytes of such an outcome stay far below every size limit. */
  lemma SmallResult(es: seq<Entry>, input: Option<(Bytes, nat)>, o: R.Outcome)
    requires SmallOutcome(es, input, o)
    ensures |R.Print(o)| <= RESULT_BOUND
  {
    if o.Applied? {
      KeyLayout(input.value.0);
      EncodedLength(o.changes);
      assert Size(o.changes) == EntrySize(o.changes[0]) + Size(o.changes[1..]);
    }
  }
}
