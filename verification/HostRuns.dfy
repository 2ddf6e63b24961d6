// Runs of the name service's host: nonces, application state after failures, and the
// registry as a run of the abstract service.
module HostRuns {
  import opened Bytes
  import opened StateView
  import opened Registry
  import opened ServiceHost
  import opened JamCodec
  import opened PartialViews
  import opened Names
  import O = Overlay
  import R = ScriptResult

  /** What the host needs of the nonce-key function: one key per sender, outside the
      application class. */
  ghost predicate GoodNonceKey(nonceKey: Bytes -> Bytes) {
    && (forall a, b :: nonceKey(a) == nonceKey(b) ==> a == b)
    && (forall a :: !ApplicationKeyAllowed(nonceKey(a)))
  }

  /** A run: action i takes state i to state i + 1 with result i. */
  datatype History = History(states: seq<RawState>, actions: seq<Action>, results: seq<Result<()>>)

  ghost predicate IsRun(entry: ScriptEntry, nonceKey: Bytes -> Bytes, h: History) {
    && |h.states| == |h.actions| + 1 == |h.results| + 1
    && forall i {:trigger StepAt(entry, nonceKey, h, i)} :: 0 <= i < |h.actions| ==> StepAt(entry, nonceKey, h, i)
  }

  ghost predicate StepAt(entry: ScriptEntry, nonceKey: Bytes -> Bytes, h: History, i: int)
    requires |h.states| == |h.actions| + 1 == |h.results| + 1 && 0 <= i < |h.actions|
  {
    ActionStep(entry, nonceKey, h.actions[i], h.states[i], h.states[i + 1], h.results[i])
  }

  // --------------------------------------------------------------- guarded diffs

  /** A guarded diff leaves every key outside the namespace alone. */
  lemma {:induction false} DiffKeepsForeign(raw: RawState, changes: seq<Entry>, key: Bytes)
    requires AllAllowed(changes) && !ApplicationKeyAllowed(key)
    ensures FullOf(R.ApplyDiff(raw, changes))(key) == FullOf(raw)(key)
    decreases changes
  {
    if changes != [] {
      assert ApplicationKeyAllowed(changes[0].key);
      DiffKeepsForeign(R.ApplyChange(raw, changes[0]), changes[1..], key);
    }
  }

  lemma ScriptKeepsForeign(entry: ScriptEntry, a: Action, mid: RawState, after: RawState, r: Result<()>, key: Bytes)
    requires ScriptStep(entry, a.selector, a.payload, a.sender, mid, after, r) && !ApplicationKeyAllowed(key)
    ensures FullOf(after)(key) == FullOf(mid)(key)
  {
    if r.Ok? {
      var view, changes :| AppliedFrom(entry, a.selector, a.payload, a.sender, mid, after, view, changes);
      DiffKeepsForeign(mid, changes, key);
    }
  }

  /** A step leaves foreign keys alone, except the acting sender's nonce. */
  lemma StepKeepsForeign(entry: ScriptEntry, nonceKey: Bytes -> Bytes, a: Action,
                         before: RawState, after: RawState, r: Result<()>, key: Bytes)
    requires ActionStep(entry, nonceKey, a, before, after, r)
    requires !ApplicationKeyAllowed(key) && key != nonceKey(a.sender)
    ensures FullOf(after)(key) == FullOf(before)(key)
  {
    if !(r.Err? && after == before) {
      var mid := before[nonceKey(a.sender) := LE(a.nonce + 1, 8)];
      ScriptKeepsForeign(entry, a, mid, after, r, key);
    }
  }

  // ---------------------------------------------------------------------- nonces

  lemma NonceBytes(n: nat)
    requires n < U64_LIMIT
    ensures ReadNonce(LE(n, 8)) == Some(n)
  {
    assert Pow256(8) == U64_LIMIT;
    LERoundTrip(n, 8);
  }

  lemma SameNonce(nonceKey: Bytes -> Bytes, before: RawState, after: RawState, sender: Bytes)
    requires FullOf(after)(nonceKey(sender)) == FullOf(before)(nonceKey(sender))
    ensures ExpectedNonce(nonceKey, after, sender) == ExpectedNonce(nonceKey, before, sender)
  {
  }

  lemma WrittenNonce(nonceKey: Bytes -> Bytes, raw: RawState, sender: Bytes, n: nat)
    requires n < U64_LIMIT
    ensures ExpectedNonce(nonceKey, raw[nonceKey(sender) := LE(n, 8)], sender) == Some(n)
  {
    NonceBytes(n);
  }

  /** The acting sender's own nonce. */
  lemma OwnNonce(entry: ScriptEntry, nonceKey: Bytes -> Bytes, a: Action,
                 before: RawState, after: RawState, r: Result<()>)
    requires GoodNonceKey(nonceKey) && ActionStep(entry, nonceKey, a, before, after, r)
    requires !(r.Err? && after == before)
    ensures ExpectedNonce(nonceKey, before, a.sender) == Some(a.nonce)
    ensures ExpectedNonce(nonceKey, after, a.sender) == Some(a.nonce + 1)
  {
    var key := nonceKey(a.sender);
    var mid := before[key := LE(a.nonce + 1, 8)];
    assert !ApplicationKeyAllowed(key);
    ScriptKeepsForeign(entry, a, mid, after, r, key);
    SameNonce(nonceKey, mid, after, a.sender);
    WrittenNonce(nonceKey, before, a.sender, a.nonce + 1);
  }

  lemma OtherNonce(entry: ScriptEntry, nonceKey: Bytes -> Bytes, a: Action,
                   before: RawState, after: RawState, r: Result<()>, sender: Bytes)
    requires GoodNonceKey(nonceKey) && ActionStep(entry, nonceKey, a, before, after, r) && sender != a.sender
    ensures ExpectedNonce(nonceKey, after, sender) == ExpectedNonce(nonceKey, before, sender)
  {
    assert !ApplicationKeyAllowed(nonceKey(sender)) && nonceKey(sender) != nonceKey(a.sender);
    StepKeepsForeign(entry, nonceKey, a, before, after, r, nonceKey(sender));
    SameNonce(nonceKey, before, after, sender);
  }

  /** One step moves only the acting sender's nonce: up by one, or not at all; and it
      succeeds only at the expected nonce. */
  lemma StepNonces(entry: ScriptEntry, nonceKey: Bytes -> Bytes, a: Action,
                   before: RawState, after: RawState, r: Result<()>, sender: Bytes)
    requires GoodNonceKey(nonceKey) && ActionStep(entry, nonceKey, a, before, after, r)
    ensures var was, now := ExpectedNonce(nonceKey, before, sender), ExpectedNonce(nonceKey, after, sender);
            && (sender != a.sender ==> now == was)
            && (now == was || (was == Some(a.nonce) && now == Some(a.nonce + 1)))
            && (r.Ok? && sender == a.sender ==> was == Some(a.nonce) && now == Some(a.nonce + 1))
  {
    if sender != a.sender {
      OtherNonce(entry, nonceKey, a, before, after, r, sender);
    } else if !(r.Err? && after == before) {
      OwnNonce(entry, nonceKey, a, before, after, r);
    }
  }

  /** The same of a run's i-th step. */
  lemma RunNonces(entry: ScriptEntry, nonceKey: Bytes -> Bytes, h: History, i: nat, sender: Bytes)
    requires GoodNonceKey(nonceKey) && IsRun(entry, nonceKey, h) && i < |h.actions|
    ensures var was, now := ExpectedNonce(nonceKey, h.states[i], sender), ExpectedNonce(nonceKey, h.states[i + 1], sender);
            && (now == was || (was == Some(h.actions[i].nonce) && now == Some(h.actions[i].nonce + 1)))
            && (h.results[i].Ok? && sender == h.actions[i].sender ==>
                  was == Some(h.actions[i].nonce) && now == Some(h.actions[i].nonce + 1))
  {
    RunStep(entry, nonceKey, h, i);
    StepNonces(entry, nonceKey, h.actions[i], h.states[i], h.states[i + 1], h.results[i], sender);
  }

  lemma RunStep(entry: ScriptEntry, nonceKey: Bytes -> Bytes, h: History, i: nat)
    requires IsRun(entry, nonceKey, h) && i < |h.actions|
    ensures ActionStep(entry, nonceKey, h.actions[i], h.states[i], h.states[i + 1], h.results[i])
  {
    assert StepAt(entry, nonceKey, h, i);
  }

  /** Along a run the expected nonce of a sender never goes down. */
  lemma {:induction false} NonceNeverFalls(entry: ScriptEntry, nonceKey: Bytes -> Bytes, h: History, sender: Bytes, i: nat, j: nat)
    requires GoodNonceKey(nonceKey) && IsRun(entry, nonceKey, h) && i <= j < |h.states|
    requires ExpectedNonce(nonceKey, h.states[i], sender).Some?
    ensures ExpectedNonce(nonceKey, h.states[j], sender).Some?
    ensures ExpectedNonce(nonceKey, h.states[i], sender).value
            <= ExpectedNonce(nonceKey, h.states[j], sender).value
    decreases j - i
  {
    if i < j {
      RunNonces(entry, nonceKey, h, i, sender);
      NonceNeverFalls(entry, nonceKey, h, sender, i + 1, j);
    }
  }

  /** Over any run a sender's successful actions carry strictly increasing nonces; so none
      succeeds twice. */
  lemma SuccessfulNoncesIncrease(entry: ScriptEntry, nonceKey: Bytes -> Bytes, h: History, i: nat, j: nat)
    requires GoodNonceKey(nonceKey) && IsRun(entry, nonceKey, h)
    requires i < j < |h.actions| && h.results[i].Ok? && h.results[j].Ok?
    requires h.actions[i].sender == h.actions[j].sender
    ensures h.actions[i].nonce < h.actions[j].nonce
  {
    var sender := h.actions[i].sender;
    RunNonces(entry, nonceKey, h, i, sender);
    NonceNeverFalls(entry, nonceKey, h, sender, i + 1, j);
    RunNonces(entry, nonceKey, h, j, sender);
  }

  // ----------------------------------------------------------- application state

  /** A failed action, wherever it failed, leaves every application key as it was. */
  lemma FailureKeepsApplicationState(entry: ScriptEntry, nonceKey: Bytes -> Bytes, a: Action,
                                     before: RawState, after: RawState, r: Result<()>, key: Bytes)
    requires GoodNonceKey(nonceKey) && ActionStep(entry, nonceKey, a, before, after, r) && r.Err?
    requires ApplicationKeyAllowed(key)
    ensures FullOf(after)(key) == FullOf(before)(key)
  {
  }

  lemma ForeignWrite(raw: RawState, key: Bytes, value: Bytes)
    requires !ApplicationKeyAllowed(key)
    ensures WellFormed(raw) ==> WellFormed(raw[key := value])
    ensures Abstract(raw[key := value]) == Abstract(raw)
  {
    var raw' := raw[key := value];
    forall name: Bytes
      ensures name in Abstract(raw') <==> name in Abstract(raw)
      ensures name in Abstract(raw) ==> Abstract(raw')[name] == Abstract(raw)[name]
    {
      AbstractAt(raw, name);
      AbstractAt(raw', name);
      if |name| <= MAX_NAME_BYTES {
        NameKeyAllowed(name);
      }
    }
  }

  /** The abstract service's verdict on an action. */
  function ActionVerdict(registry: Names.Registry, a: Action): Verdict {
    match DecodeInput(a.payload)
    case None => Refused(0)
    case Some((name, serviceId)) =>
      match a.selector
      case SelectClaim => Claim(registry, a.sender, name, serviceId)
      case SelectBind => Bind(registry, a.sender, name, serviceId)
      case SelectUnknown => Refused(0)
  }

  lemma ScriptRefines(raw: RawState, after: RawState, a: Action, r: Result<()>)
    requires WellFormed(raw) && |a.sender| == ADDRESS_BYTES && r.Ok?
    requires ScriptStep(NativeEntry, a.selector, a.payload, a.sender, raw, after, r)
    ensures WellFormed(after) && ActionVerdict(Abstract(raw), a) == Updated(Abstract(after))
  {
    var view, changes :| AppliedFrom(NativeEntry, a.selector, a.payload, a.sender, raw, after, view, changes);
    ScriptsAreShort(a.payload, a.sender);
    match a.selector
    case SelectClaim => ClaimRefines(raw, a.payload, a.sender, view);
    case SelectBind => BindRefines(raw, a.payload, a.sender, view);
  }

  lemma NonceWritten(before: RawState, key: Bytes, next: Bytes, a: Action, after: RawState, r: Result<()>)
    requires !ApplicationKeyAllowed(key) && WellFormed(before) && |a.sender| == ADDRESS_BYTES
    requires ScriptStep(NativeEntry, a.selector, a.payload, a.sender, before[key := next], after, r)
    ensures WellFormed(after)
    ensures r.Ok? ==> ActionVerdict(Abstract(before), a) == Updated(Abstract(after))
    ensures r.Err? ==> Abstract(after) == Abstract(before)
  {
    ForeignWrite(before, key, next);
    if r.Ok? {
      ScriptRefines(before[key := next], after, a, r);
    }
  }

  /** End to end: a step of the host with the compiled scripts is a step of the abstract
      registry. A success is the abstract update; a failure changes nothing. */
  lemma StepRefines(nonceKey: Bytes -> Bytes, a: Action, before: RawState, after: RawState, r: Result<()>)
    requires GoodNonceKey(nonceKey) && WellFormed(before) && |a.sender| == ADDRESS_BYTES
    requires ActionStep(NativeEntry, nonceKey, a, before, after, r)
    ensures WellFormed(after)
    ensures r.Ok? ==> ActionVerdict(Abstract(before), a) == Updated(Abstract(after))
    ensures r.Err? ==> Abstract(after) == Abstract(before)
  {
    if !(r.Err? && after == before) {
      var key, next := nonceKey(a.sender), LE(a.nonce + 1, 8);
      assert !ApplicationKeyAllowed(key);
      NonceWritten(before, key, next, a, after, r);
    }
  }

  // ---------------------------------------------------- exactly when actions succeed

  function ScriptOf(a: Action): Program {
    match a.selector
    case SelectClaim => Names.ClaimScript(a.payload, a.sender)
    case SelectBind => Names.BindScript(a.payload, a.sender)
    case SelectUnknown => Throw
  }

  /** The outcome the host reads back from a call on a view. */
  lemma CallOutcome(raw: RawState, a: Action, view: Bytes) returns (o: R.Outcome)
    requires WellFormed(raw) && |a.sender| == ADDRESS_BYTES && !a.selector.SelectUnknown? && ViewOf(raw, view)
    ensures var output := NativeEntry(a.selector, a.payload, a.sender, view);
            output.Some? && |output.value| <= RESULT_BOUND && R.Parse(output.value) == Some(o)
    ensures var es := ParseView(view).value;
            SmallOutcome(es, DecodeInput(a.payload), o)
            && Refines(raw, es, DecodeInput(a.payload), ActionVerdict(Abstract(raw), a), o)
  {
    ScriptsAreShort(a.payload, a.sender);
    var es := ParseView(view).value;
    ViewBijection(view, es);
    o := Run(ScriptOf(a), 2, O.State(es, []));
    match a.selector {
      case SelectClaim =>
        ClaimOutcome(raw, es, a.payload, a.sender);
        ClaimIsSmall(es, a.payload, a.sender);
      case SelectBind =>
        BindOutcome(raw, es, a.payload, a.sender);
        BindIsSmall(es, a.payload, a.sender);
    }
    SmallResult(es, DecodeInput(a.payload), o);
    R.ParsePrinted(o);
  }

  /** How the host answers an action it did not refuse, by the abstract verdict alone. */
  ghost predicate Decided(raw: RawState, known: set<Bytes>, a: Action, after: RawState, r: Result<()>) {
    match DecodeInput(a.payload)
    case None => r == Err(ApplicationFailed(R.FATAL_UNCAUGHT))
    case Some((name, _)) =>
      if ValidName(name) && KeyName(name) !in known then r == Err(Missing(KeyName(name)))
      else match ActionVerdict(Abstract(raw), a)
           case Updated(registry) => r.Ok? && WellFormed(after) && Abstract(after) == registry
           case Refused(code) => r == Err(ApplicationFailed(code))
  }

  lemma OutcomeDecides(raw: RawState, known: set<Bytes>, a: Action, es: seq<Entry>, o: R.Outcome)
    requires Refines(raw, es, DecodeInput(a.payload), ActionVerdict(Abstract(raw), a), o)
    requires SmallOutcome(es, DecodeInput(a.payload), o) && Sorted(es) && O.Keys(es) == known
    ensures var (after, r) := ApplyOutcome(raw, known, o);
            Decided(raw, known, a, after, r)
  {
    var input := DecodeInput(a.payload);
    if input.Some? && ValidName(input.value.0) {
      O.HasIsDict(es, KeyName(input.value.0));
      O.DictKeys(es);
    }
    if o.Applied? {
      O.HasIsDict(es, o.changes[0].key);
      O.DictKeys(es);
      ChangesGoThrough(raw, known, o.changes);
    }
  }

  lemma ViewRun(raw: RawState, limits: Limits, a: Action, view: Bytes) returns (o: R.Outcome)
    requires WellFormed(raw) && |a.sender| == ADDRESS_BYTES && !a.selector.SelectUnknown?
    requires limits.maxResultBytes >= RESULT_BOUND && IsView(raw, limits.known, view)
    ensures OnView(NativeEntry, CallOf(a), raw, limits, view) == ApplyOutcome(raw, limits.known, o)
    ensures var (after, r) := ApplyOutcome(raw, limits.known, o); Decided(raw, limits.known, a, after, r)
  {
    o := CallOutcome(raw, a, view);
    var es := ParseView(view).value;
    ViewBijection(view, es);
    OutcomeDecides(raw, limits.known, a, es, o);
  }

  lemma ScriptDecided(raw: RawState, limits: Limits, a: Action, view: Bytes, after: RawState, r: Result<()>)
    requires WellFormed(raw) && |a.sender| == ADDRESS_BYTES && !a.selector.SelectUnknown?
    requires limits.maxResultBytes >= RESULT_BOUND && IsView(raw, limits.known, view)
    requires ScriptExactly(NativeEntry, CallOf(a), limits, raw, after, r)
    ensures Decided(raw, limits.known, a, after, r)
  {
    var o := ViewRun(raw, limits, a, view);
    assert (after, r) == Committed(raw, ApplyOutcome(raw, limits.known, o));
  }

  /** End to end, in both directions: once the nonce check passed and the known keys have a
      view, the host's answer and the new registry are exactly the abstract service's; a key
      the host does not know is asked for, and an unreadable payload is a fatal failure. */
  lemma ActionsAreDecided(nonceKey: Bytes -> Bytes, limits: Limits, a: Action, view: Bytes,
                          before: RawState, after: RawState, r: Result<()>)
    requires GoodNonceKey(nonceKey) && WellFormed(before) && |a.sender| == ADDRESS_BYTES
    requires Refusal(nonceKey, limits.known, a, before).None? && limits.maxResultBytes >= RESULT_BOUND
    requires IsView(before[nonceKey(a.sender) := LE(a.nonce + 1, 8)], limits.known, view)
    requires ActionExactly(NativeEntry, nonceKey, limits, a, before, after, r)
    ensures Decided(before, limits.known, a, after, r)
  {
    var key, next := nonceKey(a.sender), LE(a.nonce + 1, 8);
    assert !ApplicationKeyAllowed(key);
    ForeignWrite(before, key, next);
    ScriptDecided(before[key := next], limits, a, view, after, r);
  }

  // -------------------------------------------------------------- registry runs

  ghost predicate AllValid(registry: Names.Registry) {
    forall name :: name in registry ==> ValidName(name)
  }

  /** Every name of `was` is still there, with the same owner. */
  ghost predicate Keeps(was: Names.Registry, now: Names.Registry) {
    forall name :: name in was ==> name in now && now[name].owner == was[name].owner
  }

  lemma VerdictKeeps(registry: Names.Registry, a: Action, updated: Names.Registry)
    requires ActionVerdict(registry, a) == Updated(updated) && AllValid(registry)
    ensures AllValid(updated) && Keeps(registry, updated)
  {
  }

  lemma StepKeeps(nonceKey: Bytes -> Bytes, a: Action, before: RawState, after: RawState, r: Result<()>)
    requires GoodNonceKey(nonceKey) && WellFormed(before) && |a.sender| == ADDRESS_BYTES
    requires ActionStep(NativeEntry, nonceKey, a, before, after, r) && AllValid(Abstract(before))
    ensures WellFormed(after) && AllValid(Abstract(after)) && Keeps(Abstract(before), Abstract(after))
  {
    StepRefines(nonceKey, a, before, after, r);
    if r.Ok? {
      VerdictKeeps(Abstract(before), a, Abstract(after));
    }
  }

  /** Every sender is a 32-byte address, as the signature check guarantees. */
  predicate AddressSenders(h: History) {
    forall i :: 0 <= i < |h.actions| ==> |h.actions[i].sender| == ADDRESS_BYTES
  }

  ghost predicate Healthy(raw: RawState) {
    WellFormed(raw) && AllValid(Abstract(raw))
  }

  lemma {:induction false} HealthOverRuns(nonceKey: Bytes -> Bytes, h: History, i: nat, j: nat)
    requires GoodNonceKey(nonceKey) && IsRun(NativeEntry, nonceKey, h) && AddressSenders(h)
    requires i <= j < |h.states| && Healthy(h.states[i])
    ensures Healthy(h.states[j])
    decreases j - i
  {
    if i < j {
      RunStepKeeps(nonceKey, h, i);
      HealthOverRuns(nonceKey, h, i + 1, j);
    }
  }

  /** Over every run: the raw state stays well formed, stored names stay valid, a claimed
      name never disappears and its owner never changes. */
  lemma {:induction false} RegistryOverRuns(nonceKey: Bytes -> Bytes, h: History, i: nat, j: nat)
    requires GoodNonceKey(nonceKey) && IsRun(NativeEntry, nonceKey, h) && AddressSenders(h)
    requires i <= j < |h.states| && Healthy(h.states[i])
    ensures Healthy(h.states[j])
    ensures Keeps(Abstract(h.states[i]), Abstract(h.states[j]))
    decreases j - i
  {
    HealthOverRuns(nonceKey, h, i, j);
    if i < j {
      RunStepKeeps(nonceKey, h, i);
      RegistryOverRuns(nonceKey, h, i + 1, j);
      KeepsOn(Abstract(h.states[i]), Abstract(h.states[i + 1]), Abstract(h.states[j]));
    }
  }

  lemma RunStepKeeps(nonceKey: Bytes -> Bytes, h: History, i: nat)
    requires GoodNonceKey(nonceKey) && IsRun(NativeEntry, nonceKey, h) && AddressSenders(h)
    requires i < |h.actions| && Healthy(h.states[i])
    ensures Healthy(h.states[i + 1])
    ensures Keeps(Abstract(h.states[i]), Abstract(h.states[i + 1]))
  {
    RunStep(NativeEntry, nonceKey, h, i);
    StepKeeps(nonceKey, h.actions[i], h.states[i], h.states[i + 1], h.results[i]);
  }

  lemma KeepsOn(a: Names.Registry, b: Names.Registry, c: Names.Registry)
    requires Keeps(a, b) && Keeps(b, c)
    ensures Keeps(a, c)
  {
  }
}
