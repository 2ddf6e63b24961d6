// The host side of the name service: the guarded, transactional application of a script's
// diff, and the nonce check in front of it.
module ServiceHost {
  import opened Bytes
  import opened StateView
  import opened Overlay
  import opened PartialViews
  import opened Registry
  import opened JamCodec
  import Names
  import R = ScriptResult

  datatype HostError =
    | ReservedKey
    | ApplicationFailed(code: nat)
    | Missing(key: Bytes)
    | Rejected(reason: RuntimeError)
    | Backend

  datatype RuntimeError = UnknownAction | NonceMismatch

  datatype Result<+T> = Ok(value: T) | Err(error: HostError) {
    predicate IsFailure() {
      Err?
    }

    function PropagateFailure<U>(): Result<U>
      requires Err?
    {
      Err(error)
    }

    function Extract(): T
      requires Ok?
    {
      value
    }
  }

  datatype Selector = SelectClaim | SelectBind | SelectUnknown

  /** The entry a selector dispatches to: what NamesService.ActionClaim and ActionBind
      return. Any other function stands for another compiled script. */
  type ScriptEntry = (Selector, Bytes, Bytes, Bytes) -> Option<Bytes>

  function NativeEntry(selector: Selector, payload: Bytes, sender: Bytes, view: Bytes): Option<Bytes> {
    Names.ScriptsAreShort(payload, sender);
    match selector
    case SelectClaim => Some(EntryResult(Names.ClaimScript(payload, sender), 2, view))
    case SelectBind => Some(EntryResult(Names.BindScript(payload, sender), 2, view))
    case SelectUnknown => None
  }

  const INVALID_SCRIPT_RESULT := 0x8000_0002

  // ------------------------------------------------------------ what a call amounts to

  /** The view of a state for a set of known keys. */
  ghost predicate IsView(raw: RawState, known: set<Bytes>, view: Bytes) {
    ViewOf(raw, view) && Keys(ParseView(view).value) == known
  }

  /** Sorted lists over the same keys that show the same state are the same list. */
  lemma SameFirst(full: FullState, a: seq<Entry>, b: seq<Entry>)
    requires Sorted(a) && Sorted(b) && Keys(a) == Keys(b) && a != [] && b != []
    requires Consistent(full, a) && Consistent(full, b)
    ensures a[0] == b[0]
  {
    assert a[0].key in Keys(b);
    var j :| 0 <= j < |b| && b[j].key == a[0].key;
    assert b[0].key in Keys(a);
    var i :| 0 <= i < |a| && a[i].key == b[0].key;
    FirstIsLeast(a, i);
    FirstIsLeast(b, j);
    StrictTotalOrder(a[0].key, b[0].key, a[0].key);
    assert a[0] in a && b[0] in b;
  }

  lemma {:induction false} SortedUnique(full: FullState, a: seq<Entry>, b: seq<Entry>)
    requires Sorted(a) && Sorted(b) && Keys(a) == Keys(b)
    requires Consistent(full, a) && Consistent(full, b)
    ensures a == b
  {
    NoKeys(a);
    NoKeys(b);
    if a != [] {
      SameFirst(full, a, b);
      TailKeys(a);
      TailKeys(b);
      SortedUnique(full, a[1..], b[1..]);
      assert a == [a[0]] + a[1..] && b == [b[0]] + b[1..];
    }
  }

  lemma NoKeys(es: seq<Entry>)
    ensures Keys(es) == {} <==> es == []
  {
    if es != [] {
      KeyIn(es, 0);
    }
  }

  lemma FirstIsLeast(es: seq<Entry>, i: nat)
    requires Sorted(es) && i < |es|
    ensures es[i].key == es[0].key || Less(es[0].key, es[i].key)
  {
  }

  lemma TailKeys(es: seq<Entry>)
    requires Sorted(es) && es != []
    ensures Keys(es[1..]) == Keys(es) - {es[0].key}
  {
    StrictTotalOrder(es[0].key, es[0].key, es[0].key);
    forall key ensures key in Keys(es[1..]) <==> key in Keys(es) && key != es[0].key {
      if key in Keys(es[1..]) {
        var i :| 0 <= i < |es[1..]| && es[1..][i].key == key;
        assert es[i + 1].key == key;
      }
      if key in Keys(es) && key != es[0].key {
        var i :| 0 <= i < |es| && es[i].key == key;
        assert es[1..][i - 1].key == key;
      }
    }
  }

  /** A state has at most one view for its known keys. */
  lemma ViewUnique(raw: RawState, known: set<Bytes>, a: Bytes, b: Bytes)
    requires IsView(raw, known, a) && IsView(raw, known, b)
    ensures a == b
  {
    var es, es' := ParseView(a).value, ParseView(b).value;
    ViewBijection(a, es);
    ViewBijection(b, es');
    SortedUnique(FullOf(raw), es, es');
  }

  predicate AllKnown(known: set<Bytes>, changes: seq<Entry>) {
    forall i :: 0 <= i < |changes| ==> changes[i].key in known
  }

  /** The changes one after another, up to the first that is refused. */
  function ApplyChanges(raw: RawState, known: set<Bytes>, changes: seq<Entry>): (RawState, Result<()>)
    decreases changes
  {
    if changes == [] then (raw, Ok(()))
    else if !ApplicationKeyAllowed(changes[0].key) then (raw, Err(ReservedKey))
    else if changes[0].key !in known then (raw, Err(Missing(changes[0].key)))
    else ApplyChanges(R.ApplyChange(raw, changes[0]), known, changes[1..])
  }

  /** A diff goes through exactly when every key is in the namespace and known, and then it
      has been applied whole. */
  lemma {:induction false} ChangesGoThrough(raw: RawState, known: set<Bytes>, changes: seq<Entry>)
    ensures var (after, r) := ApplyChanges(raw, known, changes);
            (r.Ok? <==> AllAllowed(changes) && AllKnown(known, changes))
            && (r.Ok? ==> after == R.ApplyDiff(raw, changes))
    decreases changes
  {
    if changes != [] {
      var rest := changes[1..];
      ChangesGoThrough(R.ApplyChange(raw, changes[0]), known, rest);
      assert forall i :: 1 <= i < |changes| ==> changes[i] == rest[i - 1];
      assert AllAllowed(changes) <==> ApplicationKeyAllowed(changes[0].key) && AllAllowed(rest);
      assert AllKnown(known, changes) <==> changes[0].key in known && AllKnown(known, rest);
    }
  }

  function ApplyOutcome(raw: RawState, known: set<Bytes>, result: R.Outcome): (RawState, Result<()>) {
    match result
    case Applied(changes) => ApplyChanges(raw, known, changes)
    case Abort(code) => (raw, Err(ApplicationFailed(code)))
    case NeedState(key) => (raw, Err(Missing(key)))
    case Fatal(code) => (raw, Err(ApplicationFailed(code)))
  }

  /** The script called on a view, and its bytes read and applied. */
  function OnView(entry: ScriptEntry, call: Call, raw: RawState, limits: Limits, view: Bytes): (RawState, Result<()>) {
    match entry(call.selector, call.payload, call.sender, view)
    case None => (raw, Err(Rejected(UnknownAction)))
    case Some(output) =>
      if |output| > limits.maxResultBytes then (raw, Err(ApplicationFailed(INVALID_SCRIPT_RESULT)))
      else match R.Parse(output)
           case None => (raw, Err(ApplicationFailed(INVALID_SCRIPT_RESULT)))
           case Some(result) => ApplyOutcome(raw, limits.known, result)
  }

  datatype Call = Call(selector: Selector, payload: Bytes, sender: Bytes)

  datatype Limits = Limits(known: set<Bytes>, maxResultBytes: nat)

  /** All or nothing. */
  function Committed(before: RawState, run: (RawState, Result<()>)): (RawState, Result<()>) {
    if run.1.Ok? then run else (before, run.1)
  }

  /** What execute_scriptc does, exactly: a backend error when the known keys have no view
      within the bounds, else the committed run on that view. */
  ghost predicate ScriptExactly(entry: ScriptEntry, call: Call, limits: Limits,
                                before: RawState, after: RawState, r: Result<()>) {
    && ((forall view :: !IsView(before, limits.known, view)) ==> r == Err(Backend) && after == before)
    && (forall view :: IsView(before, limits.known, view) ==>
          (after, r) == Committed(before, OnView(entry, call, before, limits, view)))
  }

  function CallOf(a: Action): Call {
    Call(a.selector, a.payload, a.sender)
  }

  /** The checks of execute before the script runs, in their order. */
  function Refusal(nonceKey: Bytes -> Bytes, known: set<Bytes>, a: Action, raw: RawState): Option<HostError> {
    if a.selector.SelectUnknown? then Some(Rejected(UnknownAction))
    else if nonceKey(a.sender) !in known then Some(Missing(nonceKey(a.sender)))
    else match ExpectedNonce(nonceKey, raw, a.sender)
         case None => Some(Backend)
         case Some(expected) =>
           if a.nonce != expected then Some(Rejected(NonceMismatch))
           else if expected + 1 >= U64_LIMIT then Some(Backend)
           else None
  }

  /** What execute does, exactly. */
  ghost predicate ActionExactly(entry: ScriptEntry, nonceKey: Bytes -> Bytes, limits: Limits, a: Action,
                                before: RawState, after: RawState, r: Result<()>) {
    match Refusal(nonceKey, limits.known, a, before)
    case Some(error) => r == Err(error) && after == before
    case None =>
      ScriptExactly(entry, CallOf(a), limits, before[nonceKey(a.sender) := LE(a.nonce + 1, 8)], after, r)
  }

  // --------------------------------------------------- the runtime core, abstractly

  /** service_runtime_core's execution context: state behind a witness of known keys, and
      one level of transaction kept as a snapshot. */
  class ExecutionContext {
    var state: RawState
    var known: set<Bytes>
    var snapshot: Option<RawState>
    var validUntil: Option<nat>
    const maxResultBytes: nat

    constructor (state: RawState, known: set<Bytes>, maxResultBytes: nat)
      ensures this.state == state && this.known == known && this.maxResultBytes == maxResultBytes
      ensures snapshot == None && validUntil == None
    {
      this.state, this.known, this.maxResultBytes := state, known, maxResultBytes;
      snapshot, validUntil := None, None;
    }

    method BeginTransaction() returns (r: Result<()>)
      modifies `snapshot
      ensures old(snapshot).None? ==> r.Ok? && snapshot == Some(state)
      ensures old(snapshot).Some? ==> r == Err(Backend) && snapshot == old(snapshot)
    {
      if snapshot.Some? { return Err(Backend); }
      snapshot := Some(state);
      return Ok(());
    }

    method CommitTransaction() returns (r: Result<()>)
      modifies `snapshot
      ensures r.Ok? <==> old(snapshot).Some?
      ensures snapshot == None
    {
      r := if snapshot.Some? then Ok(()) else Err(Backend);
      snapshot := None;
    }

    method RollbackTransaction() returns (r: Result<()>)
      modifies `snapshot, `state
      ensures r.Ok? <==> old(snapshot).Some?
      ensures snapshot == None
      ensures state == if old(snapshot).Some? then old(snapshot).value else old(state)
    {
      if snapshot.None? { return Err(Backend); }
      state, snapshot := snapshot.value, None;
      return Ok(());
    }

    method Get(key: Bytes) returns (r: Result<Option<Bytes>>)
      ensures r == if key in known then Ok(FullOf(state)(key)) else Err(Missing(key))
    {
      if key !in known { return Err(Missing(key)); }
      return Ok(if key in state then Some(state[key]) else None);
    }

    method Set(key: Bytes, value: Bytes) returns (r: Result<()>)
      modifies `state
      ensures key in known ==> r.Ok? && state == old(state)[key := value]
      ensures key !in known ==> r == Err(Missing(key)) && state == old(state)
    {
      if key !in known { return Err(Missing(key)); }
      state := state[key := value];
      return Ok(());
    }

    method Delete(key: Bytes) returns (r: Result<()>)
      modifies `state
      ensures key in known ==> r.Ok? && state == old(state) - {key}
      ensures key !in known ==> r == Err(Missing(key)) && state == old(state)
    {
      if key !in known { return Err(Missing(key)); }
      state := state - {key};
      return Ok(());
    }

    ghost function Bounds(): Limits
      reads `known
    {
      Limits(known, maxResultBytes)
    }

    /** The encoded view of the known keys, or a backend error exactly when they have none
        within the bounds. */
    method StateViewBytes() returns (r: Result<Bytes>)
      ensures r.Ok? ==> IsView(state, known, r.value)
      ensures r.Err? ==> r == Err(Backend) && forall view :: !IsView(state, known, view)
    {
      var entries := KnownEntries();
      var bytes := EncodeView(entries);
      ViewBijection(bytes, entries);
      if |entries| > MAX_ENTRIES || !AllBounded(entries) || |bytes| > MAX_VIEW_BYTES {
        forall view ensures !IsView(state, known, view) {
          OnlyView(state, known, entries, view);
        }
        return Err(Backend);
      }
      return Ok(bytes);
    }

    method KnownEntries() returns (entries: seq<Entry>)
      ensures Sorted(entries) && Consistent(FullOf(state), entries) && Keys(entries) == known
    {
      entries := [];
      var left := known;
      while left != {}
        invariant left <= known && Keys(entries) == known - left
        invariant Sorted(entries) && Consistent(FullOf(state), entries)
        decreases left
      {
        var key :| key in left;
        var value := if key in state then Some(state[key]) else None;
        ConsistentPut(FullOf(state), entries, key);
        PutSorted(entries, key, value);
        PutKeys(entries, key, value);
        entries := Put(entries, key, value);
        left := left - {key};
      }
    }

    // ----------------------------------------------------------- applying a result

    /** Applies the changes in order under the guard. A failure may leave earlier changes
        in place: undoing them is the transaction's business. */
    method ApplyScriptResult(result: R.Outcome) returns (r: Result<()>)
      modifies `state
      ensures (state, r) == ApplyOutcome(old(state), known, result)
    {
      match result
      case Abort(code) => return Err(ApplicationFailed(code));
      case NeedState(key) => return Err(Missing(key));
      case Fatal(code) => return Err(ApplicationFailed(code));
      case Applied(changes) =>
        assert changes[0..] == changes;
        for i := 0 to |changes|
          invariant ApplyChanges(state, known, changes[i..]) == ApplyChanges(old(state), known, changes)
        {
          assert changes[i..][0] == changes[i] && changes[i..][1..] == changes[i + 1..];
          if !ApplicationKeyAllowed(changes[i].key) {
            return Err(ReservedKey);
          }
          var _ :- Change(changes[i]);
        }
        return Ok(());
    }

    method Change(change: Entry) returns (r: Result<()>)
      modifies `state
      ensures change.key in known ==> r.Ok? && state == R.ApplyChange(old(state), change)
      ensures change.key !in known ==> r == Err(Missing(change.key)) && state == old(state)
    {
      if change.value.Some? {
        r := Set(change.key, change.value.value);
      } else {
        r := Delete(change.key);
      }
    }

    /** The closure inside execute_scriptc. */
    method Business(entry: ScriptEntry, call: Call) returns (r: Result<()>, ghost view: Option<Bytes>)
      modifies `state
      ensures match view
              case None =>
                r == Err(Backend) && state == old(state) && forall v :: !IsView(old(state), known, v)
              case Some(v) =>
                IsView(old(state), known, v) && (state, r) == OnView(entry, call, old(state), Bounds(), v)
    {
      var viewed := StateViewBytes();
      if viewed.Err? {
        return Err(viewed.error), None;
      }
      view := Some(viewed.value);
      var output := entry(call.selector, call.payload, call.sender, viewed.value);
      if output.None? {
        return Err(Rejected(UnknownAction)), view;
      }
      if |output.value| > maxResultBytes {
        return Err(ApplicationFailed(INVALID_SCRIPT_RESULT)), view;
      }
      var result := R.Parse(output.value);
      if result.None? {
        return Err(ApplicationFailed(INVALID_SCRIPT_RESULT)), view;
      }
      r := ApplyScriptResult(result.value);
    }

    /** Runs the script inside a transaction: on any failure, wherever it happens, the
        state is what it was when the transaction began. */
    method ExecuteScriptc(entry: ScriptEntry, call: Call) returns (r: Result<()>)
      requires snapshot.None?
      modifies `state, `snapshot
      ensures snapshot.None?
      ensures ScriptExactly(entry, call, Bounds(), old(state), state, r)
    {
      var _ := BeginTransaction();
      ghost var before := state;
      ghost var view;
      var business;
      business, view := Business(entry, call);
      ghost var reached := state;
      if business.Ok? {
        r := CommitTransaction();
      } else {
        var _ := RollbackTransaction();
        r := Err(business.error);
      }
      assert business.Ok? ==> business.value == () && r.value == ();
      assert (state, r) == Committed(before, (reached, business));
      if view.Some? {
        OneView(entry, call, Bounds(), before, state, r, view.value);
      }
    }

    /** The service's execute, after the signature check: the nonce must be the expected
        one, and is consumed before the script runs. */
    method Execute(entry: ScriptEntry, nonceKey: Bytes -> Bytes, action: Action) returns (r: Result<()>)
      requires snapshot.None?
      modifies `state, `snapshot, `validUntil
      ensures snapshot.None?
      ensures ActionExactly(entry, nonceKey, Bounds(), action, old(state), state, r)
      ensures validUntil == if !action.selector.SelectUnknown? && nonceKey(action.sender) in known
                               && ExpectedNonce(nonceKey, old(state), action.sender) == Some(action.nonce)
                            then Earlier(old(validUntil), action.validUntil) else old(validUntil)
    {
      if action.selector.SelectUnknown? {
        return Err(Rejected(UnknownAction));
      }
      var key := nonceKey(action.sender);
      var stored :- Get(key);
      var nonceBytes := if stored.Some? then stored.value else [];
      var expected := ReadNonce(nonceBytes);
      if expected.None? {
        return Err(Backend);
      }
      if action.nonce != expected.value {
        return Err(Rejected(NonceMismatch));
      }
      ConstrainValidUntil(action.validUntil);
      if expected.value + 1 >= U64_LIMIT {
        return Err(Backend);
      }
      r := Consume(entry, key, action);
    }

    /** The end of execute: the nonce is written, then the script runs. */
    method Consume(entry: ScriptEntry, key: Bytes, action: Action) returns (r: Result<()>)
      requires snapshot.None? && key in known
      modifies `state, `snapshot
      ensures snapshot.None?
      ensures ScriptExactly(entry, CallOf(action), Bounds(), old(state)[key := LE(action.nonce + 1, 8)], state, r)
    {
      var _ := Set(key, LE(action.nonce + 1, 8));
      r := ExecuteScriptc(entry, CallOf(action));
    }

    method ConstrainValidUntil(until: Option<nat>)
      modifies `validUntil
      ensures validUntil == Earlier(old(validUntil), until)
    {
      if until.Some? && (validUntil.None? || until.value < validUntil.value) {
        validUntil := until;
      }
    }
  }

  /** The earlier of two deadlines. */
  function Earlier(a: Option<nat>, b: Option<nat>): Option<nat> {
    if b.None? then a else if a.None? || b.value < a.value then b else a
  }

  /** No later than either, and one of them; none only when there is neither. */
  lemma EarlierOfBoth(a: Option<nat>, b: Option<nat>)
    ensures Earlier(a, b) == a || Earlier(a, b) == b
    ensures Earlier(a, b).None? <==> a.None? && b.None?
    ensures (a.Some? ==> Earlier(a, b).value <= a.value) && (b.Some? ==> Earlier(a, b).value <= b.value)
  {
  }

  lemma ConsistentPut(full: FullState, es: seq<Entry>, key: Bytes)
    requires Consistent(full, es)
    ensures Consistent(full, Put(es, key, full(key)))
  {
  }

  // ------------------------------------------------------------------ the steps

  datatype Action = Action(sender: Bytes, nonce: nat, validUntil: Option<nat>, selector: Selector, payload: Bytes)

  ghost predicate AppliedFrom(entry: ScriptEntry, selector: Selector, payload: Bytes, sender: Bytes,
                              before: RawState, after: RawState, view: Bytes, changes: seq<Entry>) {
    && ViewOf(before, view)
    && entry(selector, payload, sender, view).Some?
    && R.Parse(entry(selector, payload, sender, view).value) == Some(R.Applied(changes))
    && AllAllowed(changes)
    && after == R.ApplyDiff(before, changes)
  }

  /** One script execution: a failure changes nothing, a success applies a guarded diff
      that the entry printed for a view of the state. */
  ghost predicate ScriptStep(entry: ScriptEntry, selector: Selector, payload: Bytes, sender: Bytes,
                             before: RawState, after: RawState, r: Result<()>) {
    if r.Err? then after == before
    else exists view, changes :: AppliedFrom(entry, selector, payload, sender, before, after, view, changes)
  }

  /** No view but the one printed from the known entries. */
  lemma OnlyView(raw: RawState, known: set<Bytes>, entries: seq<Entry>, view: Bytes)
    requires Sorted(entries) && Consistent(FullOf(raw), entries) && Keys(entries) == known
    ensures IsView(raw, known, view) ==> Canonical(entries) && |EncodeView(entries)| <= MAX_VIEW_BYTES
  {
    if IsView(raw, known, view) {
      var es := ParseView(view).value;
      ViewBijection(view, es);
      SortedUnique(FullOf(raw), es, entries);
    }
  }

  lemma OneView(entry: ScriptEntry, call: Call, limits: Limits, before: RawState, after: RawState,
                r: Result<()>, view: Bytes)
    requires IsView(before, limits.known, view)
    requires (after, r) == Committed(before, OnView(entry, call, before, limits, view))
    ensures ScriptExactly(entry, call, limits, before, after, r)
  {
    forall other | IsView(before, limits.known, other) ensures other == view {
      ViewUnique(before, limits.known, view, other);
    }
  }

  /** A script execution is a step: nothing on failure, a guarded diff on success. */
  lemma ExactIsStep(entry: ScriptEntry, call: Call, limits: Limits, before: RawState, after: RawState, r: Result<()>)
    requires ScriptExactly(entry, call, limits, before, after, r)
    ensures ScriptStep(entry, call.selector, call.payload, call.sender, before, after, r)
  {
    if view :| IsView(before, limits.known, view) {
      var output := entry(call.selector, call.payload, call.sender, view);
      if r.Ok? {
        var changes := R.Parse(output.value).value.changes;
        ChangesGoThrough(before, limits.known, changes);
        assert AppliedFrom(entry, call.selector, call.payload, call.sender, before, after, view, changes);
      }
    }
  }

  lemma ActionIsStep(entry: ScriptEntry, nonceKey: Bytes -> Bytes, limits: Limits, a: Action,
                     before: RawState, after: RawState, r: Result<()>)
    requires ActionExactly(entry, nonceKey, limits, a, before, after, r)
    ensures ActionStep(entry, nonceKey, a, before, after, r)
  {
    if Refusal(nonceKey, limits.known, a, before).None? {
      ExactIsStep(entry, CallOf(a), limits, before[nonceKey(a.sender) := LE(a.nonce + 1, 8)], after, r);
    }
  }

  function ReadNonce(bytes: Bytes): Option<nat> {
    if bytes == [] then Some(0) else if |bytes| == 8 then Some(FromLE(bytes)) else None
  }

  /** The nonce the next action of `sender` must carry. */
  function ExpectedNonce(nonceKey: Bytes -> Bytes, raw: RawState, sender: Bytes): Option<nat> {
    ReadNonce(if nonceKey(sender) in raw then raw[nonceKey(sender)] else [])
  }

  ghost predicate ActionStep(entry: ScriptEntry, nonceKey: Bytes -> Bytes, a: Action,
                             before: RawState, after: RawState, r: Result<()>) {
    || (r.Err? && after == before)
    || (&& ExpectedNonce(nonceKey, before, a.sender) == Some(a.nonce)
        && a.nonce + 1 < U64_LIMIT
        && !a.selector.SelectUnknown?
        && ScriptStep(entry, a.selector, a.payload, a.sender,
                      before[nonceKey(a.sender) := LE(a.nonce + 1, 8)], after, r))
  }
}
