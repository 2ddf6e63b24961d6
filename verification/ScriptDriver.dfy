// The runtime's state operations driven by any script, not only by claim and bind: the
// bytes an entry returns are those of the script's run over its view.
module ScriptDriver {
  import opened Bytes
  import opened PartialViews
  import opened ScriptRuntime
  import opened NamesService
  import R = ScriptResult
  import O = Overlay

  /** What the script receives from stateGetRaw. */
  function ValueOf(value: Option<array<Byte>>): Option<Bytes>
    reads if value.Some? then {value.value} else {}
  {
    if value.None? then None else Some(value.value[..])
  }

  /** The script body: each operation calls the runtime, and a throw unwinds the rest. */
  method Perform(rt: Runtime, p: Program, ghost n: nat) returns (r: Completion<()>)
    requires rt.Valid() && rt.pendingKind == 0 && Within(p, n)
    modifies rt`overlayEntries, rt`pendingKind, rt`pendingCode, rt`pendingKey
    ensures r.Done? ==> rt.Valid()
    ensures OutcomeOf(rt, r) == Run(p, n, old(rt.Abstract()))
    decreases n, 1
  {
    match p
    case Return => return Done(());
    case Throw => return Thrown;
    case Abort(code) =>
      rt.Abort(code);
      return Thrown;
    case Get(key, next) => r := PerformGet(rt, key, next, n);
    case Set(key, value, rest) =>
      var written := SetBuffer(rt, key, value);
      if written.Thrown? { return Thrown; }
      r := Perform(rt, rest, n - 1);
    case Delete(key, rest) =>
      var written := DeleteBuffer(rt, key);
      if written.Thrown? { return Thrown; }
      r := Perform(rt, rest, n - 1);
  }

  method PerformGet(rt: Runtime, key: Bytes, next: Option<Bytes> -> Program, ghost n: nat)
    returns (r: Completion<()>)
    requires rt.Valid() && rt.pendingKind == 0 && n > 0 && forall v :: Within(next(v), n - 1)
    modifies rt`overlayEntries, rt`pendingKind, rt`pendingCode, rt`pendingKey
    ensures r.Done? ==> rt.Valid()
    ensures OutcomeOf(rt, r)
            == match O.Get(old(rt.Abstract()), key)
               case None => R.NeedState(key)
               case Some(value) => Run(next(value), n - 1, old(rt.Abstract()))
    decreases n, 0
  {
    ghost var before := rt.Abstract();
    var buffer := ToBuffer(key);
    assert rt.Abstract() == before;
    var value :- rt.StateGetRaw(buffer);
    assert rt.Abstract() == before;
    r := Perform(rt, next(ValueOf(value)), n - 1);
  }

  method SetBuffer(rt: Runtime, key: Bytes, value: Bytes) returns (r: Completion<()>)
    requires rt.Valid() && rt.pendingKind == 0
    modifies rt`overlayEntries, rt`pendingKind, rt`pendingCode, rt`pendingKey
    ensures rt.Valid()
    ensures match old(O.Write(rt.Abstract(), key, Some(value)))
            case Unknown => r.Thrown? && rt.Pending() == R.NeedState(key)
            case Oversized => r.Thrown? && rt.Pending() == R.Fatal(R.FATAL_INVALID_VIEW)
            case Written(state) => r.Done? && rt.Abstract() == state && rt.pendingKind == 0
  {
    ghost var before := rt.Abstract();
    var buffer := ToBuffer(key);
    var stored := ToBuffer(value);
    assert rt.Abstract() == before;
    r := rt.StateSetRaw(buffer, stored);
  }

  method DeleteBuffer(rt: Runtime, key: Bytes) returns (r: Completion<()>)
    requires rt.Valid() && rt.pendingKind == 0
    modifies rt`overlayEntries, rt`pendingKind, rt`pendingCode, rt`pendingKey
    ensures rt.Valid()
    ensures match old(O.Write(rt.Abstract(), key, None))
            case Unknown => r.Thrown? && rt.Pending() == R.NeedState(key)
            case Oversized => r.Thrown? && rt.Pending() == R.Fatal(R.FATAL_INVALID_VIEW)
            case Written(state) => r.Done? && rt.Abstract() == state && rt.pendingKind == 0
  {
    ghost var before := rt.Abstract();
    var buffer := ToBuffer(key);
    assert rt.Abstract() == before;
    r := rt.StateDeleteRaw(buffer);
  }

  /** An action entry around any script: parse the view, run, and print the diff or the
      failure. */
  method RunEntry(rt: Runtime, p: Program, ghost n: nat, stateView: array<Byte>) returns (result: array<Byte>)
    requires Within(p, n)
    modifies rt
    ensures result[..] == EntryResult(p, n, old(stateView[..]))
  {
    var r := Start(rt, p, n, stateView);
    result := Report(rt, r);
  }

  method Start(rt: Runtime, p: Program, ghost n: nat, stateView: array<Byte>) returns (r: Completion<()>)
    requires Within(p, n)
    modifies rt
    ensures r.Done? ==> rt.Valid()
    ensures R.Print(OutcomeOf(rt, r)) == EntryResult(p, n, old(stateView[..]))
  {
    var _ :- rt.InitializeStateView(stateView);
    r := Perform(rt, p, n);
  }
}
