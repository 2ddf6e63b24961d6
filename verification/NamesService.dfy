// The transformed name service: its loops, its codecs over a cursor, and the two action
// entries, each proved to return the bytes of its script's run.
module NamesService {
  import opened Bytes
  import opened Names
  import opened Spelling
  import opened ScriptRuntime
  import opened NaturalCodecs
  import opened JamCodec
  import opened PartialViews
  import O = Overlay
  import R = ScriptResult
  import D = Doubles

  method ToBuffer(s: Bytes) returns (a: array<Byte>)
    ensures fresh(a) && a[..] == s
  {
    a := new Byte[|s|](i requires 0 <= i < |s| => s[i]);
  }

  method CheckName(name: Bytes) returns (valid: bool)
    ensures valid == ValidName(name)
    ensures valid <==>
              && 3 <= |name| <= 32 && name[0] != '-' as int && name[|name| - 1] != '-' as int
              && forall i :: 0 <= i < |name| ==> name[i] in Ascii("abcdefghijklmnopqrstuvwxyz0123456789-")
  {
    ValidIsPlain(name);
    if |name| < 3 || |name| > 32 {
      return false;
    }
    if name[0] == 45 || name[|name| - 1] == 45 {
      return false;
    }
    for index := 0 to |name|
      invariant forall i :: 0 <= i < index ==> NameByte(name[i])
    {
      var value := name[index];
      var lower := value >= 97 && value <= 122;
      var digit := value >= 48 && value <= 57;
      var hyphen := value == 45;
      if !lower && !digit && !hyphen {
        return false;
      }
    }
    return true;
  }

  method SameAddress(left: Bytes, right: Bytes) returns (same: bool)
    ensures same <==> |left| == |right| == ADDRESS_BYTES && left == right
  {
    if |left| != 32 || |right| != 32 {
      return false;
    }
    for index := 0 to 32
      invariant left[..index] == right[..index]
    {
      if left[index] != right[index] {
        return false;
      }
    }
    assert left == left[..32] && right == right[..32];
    return true;
  }

  /** jamConcat: the parts one after another. */
  method JamConcat(parts: seq<Bytes>) returns (output: Bytes)
    ensures output == Concat(parts)
  {
    output := [];
    for i := 0 to |parts|
      invariant output + Concat(parts[i..]) == Concat(parts)
    {
      assert parts[i..][0] == parts[i] && parts[i..][1..] == parts[i + 1..];
      assert output + (parts[i] + Concat(parts[i + 1..])) == output + parts[i] + Concat(parts[i + 1..]);
      output := output + parts[i];
    }
  }

  lemma ConcatTwo(a: Bytes, b: Bytes)
    ensures Concat([a, b]) == a + b
  {
    assert [a, b][1..] == [b] && Concat([b][1..]) == [];
  }

  /** encode_names_value. */
  method EncodeNamesValue(owner: Bytes, serviceId: nat) returns (r: Completion<Bytes>)
    ensures WellFormedRecord(Record(owner, serviceId)) ==> r == Done(EncodeRecord(Record(owner, serviceId)))
    ensures !WellFormedRecord(Record(owner, serviceId)) ==> r.Thrown?
  {
    if |owner| != 32 || serviceId > 4294967295 {
      return Thrown;
    }
    var output := JamConcat([owner, U32(serviceId)]);
    ConcatTwo(owner, U32(serviceId));
    return Done(output);
  }

  method DecodeNamesValue(raw: Bytes) returns (r: Completion<Record>)
    ensures match DecodeRecord(raw) case None => r.Thrown? case Some(record) => r == Done(record)
  {
    var cursor := new JamCursor(raw);
    assert cursor.Rest() == raw;
    var input :- NameAndId(cursor, 32);
    return Done(Record(input.0, input.1));
  }

  /** Rounding never moves a length across the bound of 32. */
  lemma LengthIsExact(raw: Bytes)
    requires DecodeNatural(raw).Some?
    ensures var (v, rest) := DecodeNatural(raw).value;
            (D.Round(v) > 32 <==> v > 32) && (v <= 32 ==> D.Round(v) == v)
            && DecodeInput(raw) == if v > 32 || |rest| != v + 4 then None
                                   else Some((rest[..v], ToU32(rest[v..])))
  {
    DecodersAgree(raw);
  }

  /** decode_claim_input and decode_bind_input are the same text. */
  method DecodeActionInput(raw: Bytes) returns (r: Completion<(Bytes, nat)>)
    ensures match DecodeInput(raw) case None => r.Thrown? case Some(input) => r == Done(input)
  {
    var cursor := new JamCursor(raw);
    var length: nat :- cursor.JamNatural();
    ghost var v, rest := DecodeNatural(raw).value.0, cursor.Rest();
    assert length == D.Round(v) && DecodeNatural(raw).value.1 == rest;
    LengthIsExact(raw);
    if length > 32 {
      return Thrown;
    }
    r := NameAndId(cursor, length);
  }

  method NameAndId(cursor: JamCursor, length: nat) returns (r: Completion<(Bytes, nat)>)
    requires cursor.Valid()
    modifies cursor
    ensures var rest := old(cursor.Rest());
            if |rest| != length + 4 then r.Thrown? else r == Done((rest[..length], ToU32(rest[length..])))
  {
    ghost var rest := cursor.Rest();
    var name :- cursor.JamTake(length);
    var serviceId: nat :- cursor.JamU32();
    assert |cursor.Rest()| == |rest| - length - 4;
    if cursor.offset != |cursor.input| {
      return Thrown;
    }
    return Done((name, serviceId));
  }

  // ------------------------------------------------------------- the names map

  /** What the host will be told if the wrapper stops here. */
  ghost function OutcomeOf<T>(rt: Runtime, r: Completion<T>): R.Outcome
    reads rt, rt.Stored(), rt.pendingKey
  {
    if r.Done? then R.Applied(rt.Abstract().overlay) else rt.Pending()
  }

  /** key_names: the application key of a bounded name. */
  method KeyNames(rt: Runtime, name: Bytes) returns (r: array<Byte>)
    requires |name| <= MAX_NAME_BYTES
    modifies rt`pendingKind, rt`pendingCode
    ensures fresh(r) && r[..] == KeyName(name)
    ensures rt.pendingKind == old(rt.pendingKind)
  {
    var length := JamEncodeNatural(|name| as real);
    var canonical := JamConcat([length.value, name]);
    ConcatTwo(length.value, name);
    var namespace := ToBuffer(NAMESPACE);
    var key := ToBuffer(canonical);
    var applicationKey := rt.ApplicationKeyV1(namespace, key);
    r := applicationKey.value;
  }

  method NamesHas(rt: Runtime, name: Bytes) returns (r: Completion<bool>)
    requires rt.Valid() && |name| <= MAX_NAME_BYTES
    modifies rt`pendingKind, rt`pendingCode, rt`pendingKey
    ensures match old(O.Get(rt.Abstract(), KeyName(name)))
            case None => r.Thrown? && rt.Needs(KeyName(name))
            case Some(value) => r == Done(value.Some?) && rt.pendingKind == old(rt.pendingKind)
    ensures rt.Abstract() == old(rt.Abstract()) && rt.Valid()
  {
    ghost var before := rt.Abstract();
    var key := KeyNames(rt, name);
    assert rt.Abstract() == before;
    r := rt.StateHasRaw(key);
    assert rt.Abstract() == before;
  }

  method NamesGet(rt: Runtime, name: Bytes) returns (r: Completion<Option<Record>>)
    requires rt.Valid() && |name| <= MAX_NAME_BYTES
    modifies rt`pendingKind, rt`pendingCode, rt`pendingKey
    ensures match old(O.Get(rt.Abstract(), KeyName(name)))
            case None => r.Thrown? && rt.Needs(KeyName(name))
            case Some(None) => r == Done(None) && rt.pendingKind == old(rt.pendingKind)
            case Some(Some(raw)) =>
              rt.pendingKind == old(rt.pendingKind)
              && match DecodeRecord(raw) case None => r.Thrown? case Some(record) => r == Done(Some(record))
    ensures rt.Abstract() == old(rt.Abstract()) && rt.Valid()
  {
    ghost var before := rt.Abstract();
    var key := KeyNames(rt, name);
    assert rt.Abstract() == before;
    var raw :- rt.StateGetRaw(key);
    assert rt.Abstract() == before;
    if raw.None? {
      return Done(None);
    }
    var record :- DecodeNamesValue(raw.value[..]);
    return Done(Some(record));
  }

  method NamesSet(rt: Runtime, name: Bytes, owner: Bytes, serviceId: nat) returns (r: Completion<()>)
    requires rt.Valid() && |name| <= MAX_NAME_BYTES
    modifies rt`overlayEntries, rt`pendingKind, rt`pendingCode, rt`pendingKey
    ensures rt.Valid()
    ensures !WellFormedRecord(Record(owner, serviceId)) ==>
              r.Thrown? && rt.Abstract() == old(rt.Abstract()) && rt.pendingKind == old(rt.pendingKind)
    ensures WellFormedRecord(Record(owner, serviceId)) ==>
            match old(O.Write(rt.Abstract(), KeyName(name), Some(EncodeRecord(Record(owner, serviceId)))))
            case Unknown => r.Thrown? && rt.Needs(KeyName(name))
            case Oversized => r.Thrown? && rt.Failed(R.FATAL_INVALID_VIEW)
            case Written(state) => r.Done? && rt.Abstract() == state && rt.pendingKind == old(rt.pendingKind)
  {
    ghost var before := rt.Abstract();
    var encoded := EncodeNamesValue(owner, serviceId);
    assert rt.Abstract() == before;
    if encoded.Thrown? {
      return Thrown;
    }
    var key := KeyNames(rt, name);
    var value := ToBuffer(encoded.value);
    assert rt.Abstract() == before;
    r := rt.StateSetRaw(key, value);
  }

  // -------------------------------------------------------------------- actions

  /** A write that ends the script: what the wrapper reports. */
  lemma WriteEnds(s: O.State, key: Bytes, value: Bytes, n: nat)
    requires n > 0
    ensures Run(Set(key, value, Return), n, s)
            == match O.Write(s, key, Some(value))
               case Unknown => R.NeedState(key)
               case Oversized => R.Fatal(R.FATAL_INVALID_VIEW)
               case Written(s') => R.Applied(s'.overlay)
  {
  }

  lemma ClaimFlow(sender: Bytes, name: Bytes, serviceId: nat, s: O.State)
    requires ValidName(name) && Within(ClaimBody(sender, name, serviceId), 2)
    ensures var run := Run(ClaimBody(sender, name, serviceId), 2, s);
            match O.Get(s, KeyName(name))
            case None => run == R.NeedState(KeyName(name))
            case Some(Some(_)) => run == R.Abort(2)
            case Some(None) =>
              run == Run(Set(KeyName(name), EncodeRecord(Record(sender, serviceId)), Return), 1, s)
  {
  }

  /** `abort` with one of the two scripts' codes. */
  method Refuse(rt: Runtime, code: nat) returns (r: Completion<()>)
    requires rt.Valid() && 1 <= code <= 4
    modifies rt`pendingKind, rt`pendingCode
    ensures rt.Valid() && rt.Abstract() == old(rt.Abstract())
    ensures r.Thrown? && OutcomeOf(rt, r) == R.Abort(code)
  {
    ghost var before := rt.Abstract();
    rt.Abort(code as real);
    assert rt.Abstract() == before;
    return Thrown;
  }

  method ExecuteClaim(rt: Runtime, sender: Bytes, name: Bytes, serviceId: nat) returns (r: Completion<()>)
    requires rt.Valid() && rt.pendingKind == 0
    requires |sender| == ADDRESS_BYTES && serviceId < U32_LIMIT
    requires Within(ClaimBody(sender, name, serviceId), 2)
    modifies rt`overlayEntries, rt`pendingKind, rt`pendingCode, rt`pendingKey
    ensures rt.Valid()
    ensures OutcomeOf(rt, r) == Run(ClaimBody(sender, name, serviceId), 2, old(rt.Abstract()))
  {
    ghost var before := rt.Abstract();
    var valid := CheckName(name);
    assert rt.Abstract() == before;
    if !valid {
      r := Refuse(rt, 1);
      return;
    }
    ClaimFlow(sender, name, serviceId, before);
    var taken :- NamesHas(rt, name);
    if taken {
      r := Refuse(rt, 2);
      return;
    }
    WriteEnds(before, KeyName(name), EncodeRecord(Record(sender, serviceId)), 1);
    r := NamesSet(rt, name, sender, serviceId);
  }

  method ExecuteBind(rt: Runtime, sender: Bytes, name: Bytes, serviceId: nat) returns (r: Completion<()>)
    requires rt.Valid() && rt.pendingKind == 0
    requires |sender| == ADDRESS_BYTES && serviceId < U32_LIMIT
    requires Within(BindBody(sender, name, serviceId), 2)
    modifies rt`overlayEntries, rt`pendingKind, rt`pendingCode, rt`pendingKey
    ensures rt.Valid()
    ensures OutcomeOf(rt, r) == Run(BindBody(sender, name, serviceId), 2, old(rt.Abstract()))
  {
    ghost var before := rt.Abstract();
    var valid := CheckName(name);
    assert rt.Abstract() == before;
    if !valid {
      r := Refuse(rt, 1);
      return;
    }
    ghost var raw := O.Get(before, KeyName(name));
    BindFlow(sender, name, serviceId, before);
    var current :- NamesGet(rt, name);
    r := BindFound(rt, sender, name, serviceId, current, raw.value);
  }

  lemma BindFlow(sender: Bytes, name: Bytes, serviceId: nat, s: O.State)
    requires ValidName(name) && Within(BindBody(sender, name, serviceId), 2)
    ensures match O.Get(s, KeyName(name))
            case None => Run(BindBody(sender, name, serviceId), 2, s) == R.NeedState(KeyName(name))
            case Some(raw) =>
              var rest := Rebind(KeyName(name), sender, serviceId, raw);
              Within(rest, 1) && Run(BindBody(sender, name, serviceId), 2, s) == Run(rest, 1, s)
  {
  }

  /** The rest of execute_bind, once the record was read. */
  method BindFound(rt: Runtime, sender: Bytes, name: Bytes, serviceId: nat, current: Option<Record>,
                   ghost raw: Option<Bytes>) returns (r: Completion<()>)
    requires rt.Valid() && rt.pendingKind == 0 && |name| <= MAX_NAME_BYTES
    requires |sender| == ADDRESS_BYTES && serviceId < U32_LIMIT
    requires match raw case None => current.None? case Some(bytes) => current.Some? && DecodeRecord(bytes) == current
    requires Within(Rebind(KeyName(name), sender, serviceId, raw), 1)
    modifies rt`overlayEntries, rt`pendingKind, rt`pendingCode, rt`pendingKey
    ensures rt.Valid()
    ensures OutcomeOf(rt, r) == Run(Rebind(KeyName(name), sender, serviceId, raw), 1, old(rt.Abstract()))
  {
    ghost var before := rt.Abstract();
    if current.None? {
      r := Refuse(rt, 3);
      return;
    }
    var same := SameAddress(current.value.owner, sender);
    assert rt.Abstract() == before;
    if !same {
      r := Refuse(rt, 4);
      return;
    }
    WriteEnds(before, KeyName(name), EncodeRecord(Record(current.value.owner, serviceId)), 1);
    r := NamesSet(rt, name, current.value.owner, serviceId);
  }

  /** The claim entry: parse the view, run, and print the diff or the failure. Its bytes
      are those of the claim script's run, for any payload, sender and view. */
  method ActionClaim(rt: Runtime, payload: Bytes, sender: Bytes, stateView: array<Byte>)
    returns (result: array<Byte>)
    modifies rt
    ensures Within(ClaimScript(payload, sender), 2)
            && result[..] == EntryResult(ClaimScript(payload, sender), 2, old(stateView[..]))
  {
    ScriptsAreShort(payload, sender);
    var r := RunClaim(rt, payload, sender, stateView);
    result := Report(rt, r);
  }

  method ActionBind(rt: Runtime, payload: Bytes, sender: Bytes, stateView: array<Byte>)
    returns (result: array<Byte>)
    modifies rt
    ensures Within(BindScript(payload, sender), 2)
            && result[..] == EntryResult(BindScript(payload, sender), 2, old(stateView[..]))
  {
    ScriptsAreShort(payload, sender);
    var r := RunBind(rt, payload, sender, stateView);
    result := Report(rt, r);
  }

  /** appliedResult after a normal return, caughtResult after a throw. */
  method Report(rt: Runtime, r: Completion<()>) returns (result: array<Byte>)
    requires r.Done? ==> rt.Valid()
    ensures result[..] == R.Print(old(OutcomeOf(rt, r)))
  {
    ghost var outcome := OutcomeOf(rt, r);
    if r.Done? {
      result := rt.EncodeApplied();
    } else {
      result := rt.CaughtResult();
    }
    assert OutcomeOf(rt, r) == outcome;
  }

  method RunClaim(rt: Runtime, payload: Bytes, sender: Bytes, stateView: array<Byte>)
    returns (r: Completion<()>)
    requires Within(ClaimScript(payload, sender), 2)
    modifies rt
    ensures r.Done? ==> rt.Valid()
    ensures R.Print(OutcomeOf(rt, r)) == EntryResult(ClaimScript(payload, sender), 2, old(stateView[..]))
  {
    var _ :- rt.InitializeStateView(stateView);
    ghost var before := rt.Abstract();
    if |sender| != 32 {
      return Thrown;
    }
    var input :- DecodeActionInput(payload);
    assert rt.Abstract() == before;
    InputServiceId(payload);
    r := ExecuteClaim(rt, sender, input.0, input.1);
  }

  method RunBind(rt: Runtime, payload: Bytes, sender: Bytes, stateView: array<Byte>)
    returns (r: Completion<()>)
    requires Within(BindScript(payload, sender), 2)
    modifies rt
    ensures r.Done? ==> rt.Valid()
    ensures R.Print(OutcomeOf(rt, r)) == EntryResult(BindScript(payload, sender), 2, old(stateView[..]))
  {
    var _ :- rt.InitializeStateView(stateView);
    ghost var before := rt.Abstract();
    if |sender| != 32 {
      return Thrown;
    }
    var input :- DecodeActionInput(payload);
    assert rt.Abstract() == before;
    InputServiceId(payload);
    r := ExecuteBind(rt, sender, input.0, input.1);
  }
}
