// Claim and bind from payload bytes to result bytes, spelled out.
module NamesInBytes {
  import opened Bytes
  import opened Spelling
  import opened StateView
  import opened Overlay
  import opened JamCodec
  import opened NaturalCodecs
  import opened PartialViews
  import opened Names
  import opened Registry
  import R = ScriptResult

  /** The state key of a name. */
  function StateKey(name: Bytes): Bytes
    requires |name| <= 32
  {
    [1, 12, 0] + Ascii("jns.names/v1") + [|name|] + name
  }

  /** A payload: the name's length, the name, and the four bytes of a service id. */
  predicate Asks(payload: Bytes, name: Bytes, id: Bytes) {
    |name| <= 32 && |id| == 4 && payload == [|name|] + name + id
  }

  /** The result of a write: the one record, at the name's key. */
  function WrittenResult(name: Bytes, owner: Bytes, id: Bytes): Bytes
    requires |name| <= 32
  {
    [1, 0] + [66 + |name|, 0, 0, 0] + [1] + [1, 0, 0, 0] + [16 + |name|, 0, 0, 0] + StateKey(name)
    + [1] + [36, 0, 0, 0] + owner + id
  }

  lemma NamespaceText()
    ensures Ascii("jns.names/v1") == NAMESPACE
  {
  }

  lemma KeyText(name: Bytes)
    requires |name| <= 32
    ensures KeyName(name) == StateKey(name) && |StateKey(name)| == 16 + |name|
  {
    KeyLayout(name);
    NamespaceText();
  }

  lemma AskedInput(payload: Bytes, name: Bytes, id: Bytes)
    requires Asks(payload, name, id)
    ensures DecodeInput(payload) == Some((name, ToU32(id)))
  {
    ShortForm(|name|);
    NaturalRoundTrip(|name|, name + id);
    assert payload == EncodeNatural(|name|) + (name + id);
    assert (name + id)[..|name|] == name && (name + id)[|name|..] == id;
  }

  lemma Listed(es: seq<Entry>, key: Bytes, value: Option<Bytes>)
    requires Sorted(es) && Entry(key, value) in es
    ensures Overlay.Get(State(es, []), key) == Some(value) && Has(es, key)
  {
    var i :| 0 <= i < |es| && es[i] == Entry(key, value);
    DictAt(es, i);
    HasIsDict(es, key);
  }

  lemma Unlisted(es: seq<Entry>, key: Bytes)
    requires forall e :: e in es ==> e.key != key
    ensures Overlay.Get(State(es, []), key).None?
  {
  }

  lemma SmallU32(n: nat)
    requires n < 256
    ensures U32(n) == [n, 0, 0, 0]
  {
  }

  lemma IdText(id: Bytes)
    requires |id| == 4
    ensures U32(ToU32(id)) == id
  {
    U32Inverse(id);
  }

  lemma OneChange(name: Bytes, owner: Bytes, id: Bytes)
    requires |name| <= 32 && |owner| == 32 && |id| == 4
    ensures R.Print(R.Applied([Entry(StateKey(name), Some(owner + id))])) == WrittenResult(name, owner, id)
  {
    var e := Entry(StateKey(name), Some(owner + id));
    KeyText(name);
    SmallU32(1);
    SmallU32(16 + |name|);
    SmallU32(36);
    SmallU32(66 + |name|);
    assert [e][1..] == [];
    assert EncodeEntries([e]) == EncodeEntry(e) + [];
    assert EncodeView([e]) == [1] + [1, 0, 0, 0] + ([16 + |name|, 0, 0, 0] + StateKey(name)
                                                    + ([1] + ([36, 0, 0, 0] + (owner + id))));
    assert |EncodeView([e])| == 66 + |name|;
  }

  lemma Refused(code: nat)
    requires code < 256
    ensures R.Print(R.Abort(code)) == [1, 1, code, 0, 0, 0]
  {
    SmallU32(code);
  }

  lemma AskedFor(name: Bytes)
    requires |name| <= 32
    ensures R.Print(R.NeedState(KeyName(name))) == [1, 2] + [16 + |name|, 0, 0, 0] + StateKey(name)
  {
    KeyText(name);
    SmallU32(16 + |name|);
  }

  lemma FatalTexts()
    ensures R.Print(R.Fatal(R.FATAL_UNCAUGHT)) == [1, 3, 1, 0, 0, 128]
    ensures R.Print(R.Fatal(R.FATAL_INVALID_VIEW)) == [1, 3, 2, 0, 0, 128]
  {
  }

  lemma Writes(es: seq<Entry>, name: Bytes, owner: Bytes, id: Bytes)
    requires Canonical(es) && |name| <= 32 && Has(es, KeyName(name)) && |owner| == 32 && |id| == 4
    ensures R.Print(WriteOutcome(es, KeyName(name), EncodeRecord(Record(owner, ToU32(id)))))
            == WrittenResult(name, owner, id)
  {
    IdText(id);
    KeyText(name);
    U32Inverse(id);
    SingleWrite(map[], es, name, Record(owner, ToU32(id)));
    OneChange(name, owner, id);
  }

  // ------------------------------------------------------------------------ claim

  /** What claim answers to a well-formed payload, for any view: a name outside the rule is
      refused with 1, a key the view lacks is asked for, a taken name is refused with 2, and a
      free one goes to the sender. */
  lemma ClaimAnswers(payload: Bytes, sender: Bytes, view: Bytes, es: seq<Entry>, name: Bytes, id: Bytes)
    requires Asks(payload, name, id) && |sender| == 32 && ParseView(view) == Some(es)
    ensures Within(ClaimScript(payload, sender), 2)
    ensures var result := EntryResult(ClaimScript(payload, sender), 2, view);
            && (!PlainName(name) ==> result == [1, 1, 1, 0, 0, 0])
            && (PlainName(name) && (forall e :: e in es ==> e.key != StateKey(name)) ==>
                  result == [1, 2] + [16 + |name|, 0, 0, 0] + StateKey(name))
            && (forall taken :: PlainName(name) && Entry(StateKey(name), Some(taken)) in es ==>
                  result == [1, 1, 2, 0, 0, 0])
            && (PlainName(name) && Entry(StateKey(name), None) in es ==> result == WrittenResult(name, sender, id))
  {
    ScriptsAreShort(payload, sender);
    ViewBijection(view, es);
    AskedInput(payload, name, id);
    ValidIsPlain(name);
    KeyText(name);
    ClaimRun(es, payload, sender);
    Refused(1);
    Refused(2);
    AskedFor(name);
    forall value | Entry(StateKey(name), value) in es ensures Overlay.Get(State(es, []), KeyName(name)) == Some(value) {
      Listed(es, KeyName(name), value);
    }
    if forall e :: e in es ==> e.key != StateKey(name) {
      Unlisted(es, KeyName(name));
    }
    if PlainName(name) && Entry(StateKey(name), None) in es {
      Listed(es, KeyName(name), None);
      Writes(es, name, sender, id);
    }
  }

  // ------------------------------------------------------------------------- bind

  /** What bind answers: only the owner of a claimed name changes its service id, and the
      owner stays. */
  lemma BindAnswers(payload: Bytes, sender: Bytes, view: Bytes, es: seq<Entry>, name: Bytes, id: Bytes)
    requires Asks(payload, name, id) && |sender| == 32 && ParseView(view) == Some(es)
    ensures Within(BindScript(payload, sender), 2)
    ensures var result := EntryResult(BindScript(payload, sender), 2, view);
            && (!PlainName(name) ==> result == [1, 1, 1, 0, 0, 0])
            && (PlainName(name) && (forall e :: e in es ==> e.key != StateKey(name)) ==>
                  result == [1, 2] + [16 + |name|, 0, 0, 0] + StateKey(name))
            && (PlainName(name) && Entry(StateKey(name), None) in es ==> result == [1, 1, 3, 0, 0, 0])
  {
    ScriptsAreShort(payload, sender);
    ViewBijection(view, es);
    AskedInput(payload, name, id);
    ValidIsPlain(name);
    KeyText(name);
    BindRun(es, payload, sender);
    Refused(1);
    Refused(3);
    AskedFor(name);
    if forall e :: e in es ==> e.key != StateKey(name) {
      Unlisted(es, KeyName(name));
    }
    if Entry(StateKey(name), None) in es {
      Listed(es, KeyName(name), None);
    }
  }

  /** The same for a name that has a record. */
  lemma BindAnswersOwner(payload: Bytes, sender: Bytes, view: Bytes, es: seq<Entry>, name: Bytes, id: Bytes,
                         record: Bytes)
    requires Asks(payload, name, id) && |sender| == 32 && ParseView(view) == Some(es)
    requires PlainName(name) && Entry(StateKey(name), Some(record)) in es
    ensures Within(BindScript(payload, sender), 2)
    ensures EntryResult(BindScript(payload, sender), 2, view)
            == if |record| != 36 then [1, 3, 1, 0, 0, 128]
               else if record[..32] != sender then [1, 1, 4, 0, 0, 0]
               else WrittenResult(name, sender, id)
  {
    ScriptsAreShort(payload, sender);
    ViewBijection(view, es);
    AskedInput(payload, name, id);
    ValidIsPlain(name);
    KeyText(name);
    BindRun(es, payload, sender);
    Refused(4);
    FatalTexts();
    Listed(es, KeyName(name), Some(record));
    if |record| == 36 && record[..32] == sender {
      Writes(es, name, sender, id);
    }
  }

  // ---------------------------------------------------------------------- failures

  /** Behind a length of one byte, exactly that many bytes and four more are readable. */
  lemma ReadableInput(payload: Bytes)
    requires payload != [] && payload[0] < 128
    ensures DecodeInput(payload).Some? <==> payload[0] <= 32 && |payload| == payload[0] as int + 5
  {
    ShortForm(payload[0]);
    NaturalRoundTrip(payload[0], payload[1..]);
    assert payload == EncodeNatural(payload[0]) + payload[1..];
  }

  /** A view or a sender of the wrong form, or an unreadable payload, is fatal. */
  lemma FatalAnswers(payload: Bytes, sender: Bytes, view: Bytes)
    ensures Within(ClaimScript(payload, sender), 2) && Within(BindScript(payload, sender), 2)
    ensures ParseView(view).None? ==>
              EntryResult(ClaimScript(payload, sender), 2, view) == [1, 3, 2, 0, 0, 128]
              && EntryResult(BindScript(payload, sender), 2, view) == [1, 3, 2, 0, 0, 128]
    ensures ParseView(view).Some? && (|sender| != 32 || DecodeInput(payload).None?) ==>
              EntryResult(ClaimScript(payload, sender), 2, view) == [1, 3, 1, 0, 0, 128]
              && EntryResult(BindScript(payload, sender), 2, view) == [1, 3, 1, 0, 0, 128]
  {
    ScriptsAreShort(payload, sender);
    FatalTexts();
  }
}
