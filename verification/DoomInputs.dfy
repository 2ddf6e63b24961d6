// Queued input over runs: each execution plays the last input queued since the one before,
// and uses it up.
module DoomInputs {
  import opened Bytes
  import opened Spelling
  import opened TextAnswers
  import opened DoomState
  import opened DoomService
  import opened DoomRuns

  // ------------------------------------------------------------------- what is held

  /** A queued input of fewer than 8192 bytes holds the word before any NUL. */
  ghost predicate Holding(input: Option<Bytes>, word: Bytes) {
    input.Some? && |input.value| < 8192
    && exists i: nat :: OccursAt(input.value, word, i) && 0 !in input.value[..i + |word|]
  }

  lemma MentionsExactly(s: Storage, session: Bytes, word: Bytes)
    ensures Mentions(InputsOf(s, session), word) <==> Holding(Stored(s, InputsKey(session)), word)
  {
    if InputsKey(session) in s {
      FoundInText(s[InputsKey(session)], word);
    }
  }

  lemma WordsSpelled()
    ensures Ascii("forward") == FORWARD && Ascii("backward") == BACKWARD
    ensures Ascii("fire") == FIRE && Ascii("use") == USE
  {
  }

  // ------------------------------------------------------------------- what is stored

  function Stored(s: Storage, key: Bytes): Option<Bytes> {
    if key in s then Some(s[key]) else None
  }

  /** The session's last queued input since its last execution. */
  function LastInput(events: seq<Event>, session: Bytes): Option<Bytes> {
    if events == [] then None else
    match events[|events| - 1]
    case Queued(x, input) => if x == session then Some(input) else LastInput(events[..|events| - 1], session)
    case Executed(x, _, _, _) => if x == session then None else LastInput(events[..|events| - 1], session)
    case _ => LastInput(events[..|events| - 1], session)
  }

  lemma InputsKeysDiffer(a: Bytes, b: Bytes)
    ensures InputsKey(a) == InputsKey(b) <==> a == b
  {
    assert InputsKey(a)[13..|InputsKey(a)| - 7] == a && InputsKey(b)[13..|InputsKey(b)| - 7] == b;
  }

  lemma OtherKeysDiffer(a: Bytes, b: Bytes)
    ensures StateKey(a) != InputsKey(b) && MetaKey(a) != InputsKey(b) && ResultKey(a) != InputsKey(b)
    ensures BestKey(a) != InputsKey(b)
  {
    SessionKeysDiffer(a, b);
    SessionKeysDiffer(b, a);
    BestKeyDiffers(b, a);
  }

  /** Queueing stores the input, executing uses it up, and nothing else touches it. */
  lemma EventInput(hash: Hash, s: Storage, e: Event, session: Bytes)
    ensures var key := InputsKey(session);
            Stored(Apply(hash, s, e), key)
            == match e
               case Queued(x, input) => if x == session then Some(input) else Stored(s, key)
               case Executed(x, _, _, _) => if x == session then None else Stored(s, key)
               case _ => Stored(s, key)
  {
    match e
    case Nothing =>
    case Created(x, _, _) => OtherKeysDiffer(x, session);
    case Queued(x, _) => InputsKeysDiffer(x, session);
    case Executed(x, _, _, _) =>
      OtherKeysDiffer(x, session);
      InputsKeysDiffer(x, session);
    case Finished(x, account, _, _) =>
      OtherKeysDiffer(x, session);
      OtherKeysDiffer(account, session);
  }

  /** After an execution the session has no queued input. */
  lemma ExecuteUsesInput(hash: Hash, s: Storage, payload: Bytes, session: Bytes)
    requires EventOf(s, payload).Executed? && EventOf(s, payload).session == session
    ensures InputsKey(session) !in Step(hash, s, payload)
  {
    EventInput(hash, s, EventOf(s, payload), session);
  }

  // ----------------------------------------------------------------------- over runs

  lemma {:induction false} InputIsLast(hash: Hash, payloads: seq<Bytes>, session: Bytes)
    ensures Stored(Run(hash, map[], payloads), InputsKey(session)) == LastInput(Events(hash, map[], payloads), session)
  {
    if payloads != [] {
      var before, last := payloads[..|payloads| - 1], payloads[|payloads| - 1];
      var s := Run(hash, map[], before);
      var events := Events(hash, map[], before);
      InputIsLast(hash, before, session);
      EventInput(hash, s, EventOf(s, last), session);
      assert (events + [EventOf(s, last)])[..|events|] == events;
    }
  }

  lemma {:induction false} EventsLength(hash: Hash, s: Storage, payloads: seq<Bytes>)
    ensures |Events(hash, s, payloads)| == |payloads|
  {
    if payloads != [] {
      EventsLength(hash, s, payloads[..|payloads| - 1]);
    }
  }

  lemma {:induction false} EventsPrefix(hash: Hash, s: Storage, payloads: seq<Bytes>, i: nat)
    requires i <= |payloads| == |Events(hash, s, payloads)|
    ensures Events(hash, s, payloads)[..i] == Events(hash, s, payloads[..i])
  {
    var n := |payloads| - 1;
    if i <= n {
      EventsLength(hash, s, payloads[..n]);
      EventsPrefix(hash, s, payloads[..n], i);
      assert payloads[..n][..i] == payloads[..i];
      assert Events(hash, s, payloads)[..i] == Events(hash, s, payloads[..n])[..i];
    } else {
      assert payloads[..i] == payloads && Events(hash, s, payloads)[..i] == Events(hash, s, payloads);
    }
  }

  /** The i-th event is that of the state its predecessors lead to. */
  lemma EventAt(hash: Hash, s: Storage, payloads: seq<Bytes>, i: nat)
    requires i < |payloads| == |Events(hash, s, payloads)|
    ensures Events(hash, s, payloads)[i] == EventOf(Run(hash, s, payloads[..i]), payloads[i])
  {
    var upTo := payloads[..i + 1];
    EventsPrefix(hash, s, payloads, i + 1);
    assert upTo[..i] == payloads[..i];
    EventsLength(hash, s, upTo[..i]);
    assert Events(hash, s, payloads)[i] == Events(hash, s, upTo)[i];
  }

  lemma OperationControls(s: Storage, op: Bytes, session: Bytes, account: Bytes, game: Game, payload: Bytes)
    ensures var e := Operation(s, op, session, account, game, payload);
            e.Executed? ==> e.session == session && e.controls == Held(InputsOf(s, session))
  {
  }

  lemma EventControls(s: Storage, payload: Bytes)
    ensures var e := EventOf(s, payload); e.Executed? ==> e.controls == Held(InputsOf(s, e.session))
  {
    if Decode(payload).Some? {
      var Request(op, session, account) := Decode(payload).value;
      if Load(s, session).Some? {
        OperationControls(s, op, session, account, Load(s, session).value, payload);
      }
    }
  }

  ghost predicate HeldBy(c: Controls, input: Option<Bytes>) {
    && (c.forward <==> Holding(input, Ascii("forward"))) && (c.backward <==> Holding(input, Ascii("backward")))
    && (c.fire <==> Holding(input, Ascii("fire"))) && (c.use <==> Holding(input, Ascii("use")))
  }

  lemma HeldExactly(s: Storage, session: Bytes)
    ensures HeldBy(Held(InputsOf(s, session)), Stored(s, InputsKey(session)))
  {
    WordsSpelled();
    MentionsExactly(s, session, FORWARD);
    MentionsExactly(s, session, BACKWARD);
    MentionsExactly(s, session, FIRE);
    MentionsExactly(s, session, USE);
  }

  /** Over every run from an empty storage, an execution plays exactly the words in the
      session's last input queued since its previous execution, and none without one. */
  lemma ExecutedControls(hash: Hash, payloads: seq<Bytes>, i: nat)
    requires i < |payloads|
    ensures var events := Events(hash, map[], payloads);
            |events| == |payloads|
            && (events[i].Executed? ==> HeldBy(events[i].controls, LastInput(events[..i], events[i].session)))
  {
    var s := Run(hash, map[], payloads[..i]);
    var e := EventOf(s, payloads[i]);
    EventsLength(hash, map[], payloads);
    EventAt(hash, map[], payloads, i);
    EventsPrefix(hash, map[], payloads, i);
    EventControls(s, payloads[i]);
    if e.Executed? {
      InputIsLast(hash, payloads[..i], e.session);
      HeldExactly(s, e.session);
    }
  }

  /** Executing twice without a new input plays no control the second time. */
  lemma SecondExecuteIsIdle(hash: Hash, payloads: seq<Bytes>, i: nat, j: nat)
    requires i < j < |payloads|
    requires var events := Events(hash, map[], payloads);
             |events| == |payloads| && events[i].Executed? && events[j].Executed? && events[i].session == events[j].session
             && forall k :: i < k < j ==> !(events[k].Queued? && events[k].session == events[i].session)
    ensures Events(hash, map[], payloads)[j].controls == Controls(false, false, false, false)
  {
    var events := Events(hash, map[], payloads);
    ExecutedControls(hash, payloads, j);
    NoInputSince(events[..j], events[i].session, i);
  }

  lemma {:induction false} NoInputSince(events: seq<Event>, session: Bytes, i: nat)
    requires i < |events| && events[i].Executed? && events[i].session == session
    requires forall k :: i < k < |events| ==> !(events[k].Queued? && events[k].session == session)
    ensures LastInput(events, session).None?
  {
    if i < |events| - 1 {
      NoInputSince(events[..|events| - 1], session, i);
    }
  }
}
