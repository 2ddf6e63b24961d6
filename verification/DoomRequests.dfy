// Runs of printed requests: the limits of what a stored game keeps are met by real runs.
module DoomRequests {
  import opened Bytes
  import opened Text
  import opened CText
  import opened DoomState
  import opened DoomService
  import opened DoomRuns
  import opened DoomOwners
  import opened DoomPayloads

  /** The account "a". */
  const HOLDER: Bytes := [97]

  /** The account "a" asking for any session. */
  function Holder(session: Bytes): Asker {
    Asker(session, HOLDER, false)
  }

  // --------------------------------------------------------------------- two runs

  lemma RunSnoc(hash: Hash, payloads: seq<Bytes>, last: Bytes)
    ensures var s := Run(hash, map[], payloads);
            Run(hash, map[], payloads + [last]) == Step(hash, s, last)
            && Events(hash, map[], payloads + [last]) == Events(hash, map[], payloads) + [EventOf(s, last)]
  {
    assert (payloads + [last])[..|payloads|] == payloads;
  }

  /** A new session of the account, not yet played. */
  ghost predicate Ready(s: Storage, session: Bytes) {
    Owns(s, session, HOLDER) && Load(s, session) == Some(Reloaded(session, NEW_GAME))
  }

  lemma CreateEvent(s: Storage, session: Bytes)
    requires ShortText(session) && session != [] && Load(s, session).None?
    ensures var payload := Printed(CREATE, PLAYED, Holder(session));
            EventOf(s, payload) == Created(session, HOLDER, RequestedMeta(payload))
  {
    PrintedDecodes(CREATE, PLAYED, Holder(session));
  }

  lemma CreatedReady(hash: Hash, s: Storage, payload: Bytes, session: Bytes, account: Bytes)
    requires var e := EventOf(s, payload); e.Created? && e.session == session && e.account == account && e.meta.Some?
    requires account == HOLDER
    ensures Ready(Step(hash, s, payload), session)
  {
    StepTracks(hash, s, payload, session);
    HolderOwns(hash, s, payload, account);
  }

  lemma CreateReady(hash: Hash, s: Storage, session: Bytes)
    requires ShortText(session) && session != [] && Load(s, session).None?
    ensures var payload := Printed(CREATE, PLAYED, Holder(session));
            EventOf(s, payload) == Created(session, HOLDER, RequestedMeta(payload))
            && RequestedMeta(payload).Some? && Ready(Step(hash, s, payload), session)
  {
    CreateEvent(s, session);
    PlayedMeta(CREATE, Holder(session));
    CreatedReady(hash, s, Printed(CREATE, PLAYED, Holder(session)), session, HOLDER);
  }

  lemma HolderOwns(hash: Hash, s: Storage, payload: Bytes, account: Bytes)
    requires var e := EventOf(s, payload); e.Created? && e.meta.Some? && e.account == account
    requires Plain(account) && account != []
    ensures Owns(Step(hash, s, payload), EventOf(s, payload).session, account)
  {
    var s1 := Step(hash, s, payload);
    BoundToCreator(hash, s, payload, [], account);
    assert Run(hash, s1, []) == s1;
  }

  lemma InputQueued(hash: Hash, s: Storage, session: Bytes)
    requires ShortText(session) && session != [] && Ready(s, session)
    ensures var payload := Printed(INPUT, PLAYED, Holder(session));
            EventOf(s, payload) == Queued(session, payload) && Ready(Step(hash, s, payload), session)
            && InputsOf(Step(hash, s, payload), session) == Some(payload)
  {
    var payload := Printed(INPUT, PLAYED, Holder(session));
    PrintedDecodes(INPUT, PLAYED, Holder(session));
    PrintedFits(INPUT, Holder(session));
    StepTracks(hash, s, payload, session);
    StepKeepsSession(hash, s, payload, session);
  }

  /** The game saved and loaded again after one tick with forward and fire held. */
  function PlayedOnce(session: Bytes, c: Controls): Game {
    Reloaded(session, Play(Reloaded(session, NEW_GAME), c, 1))
  }

  lemma TickAsked(s: Storage, session: Bytes, input: Bytes)
    requires ShortText(session) && session != [] && Ready(s, session) && InputsOf(s, session) == Some(input)
    ensures EventOf(s, Printed(EXECUTE, PLAYED, Holder(session)))
            == Executed(session, Reloaded(session, NEW_GAME), 1, Held(Some(input)))
  {
    PrintedDecodes(EXECUTE, PLAYED, Holder(session));
    TicksFound(EXECUTE, Holder(session));
  }

  lemma TickLoads(hash: Hash, s: Storage, payload: Bytes, session: Bytes, c: Controls)
    requires EventOf(s, payload) == Executed(session, Reloaded(session, NEW_GAME), 1, c)
    ensures Load(Step(hash, s, payload), session) == Some(PlayedOnce(session, c))
  {
    StepTracks(hash, s, payload, session);
  }

  lemma TickExecuted(hash: Hash, s: Storage, session: Bytes, input: Bytes)
    requires ShortText(session) && session != [] && Ready(s, session) && InputsOf(s, session) == Some(input)
    ensures var payload, c := Printed(EXECUTE, PLAYED, Holder(session)), Held(Some(input));
            EventOf(s, payload) == Executed(session, Reloaded(session, NEW_GAME), 1, c)
            && Load(Step(hash, s, payload), session) == Some(PlayedOnce(session, c))
  {
    TickAsked(s, session, input);
    TickLoads(hash, s, Printed(EXECUTE, PLAYED, Holder(session)), session, Held(Some(input)));
  }

  function CreateRun(session: Bytes): seq<Bytes> {
    [Printed(CREATE, PLAYED, Holder(session))]
  }

  function TickRun(session: Bytes): seq<Bytes> {
    CreateRun(session) + [Printed(INPUT, PLAYED, Holder(session))] + [Printed(EXECUTE, PLAYED, Holder(session))]
  }

  lemma CreateRunEnds(hash: Hash, session: Bytes)
    requires ShortText(session) && session != []
    ensures Ready(Run(hash, map[], CreateRun(session)), session)
    ensures TotalTicks(Events(hash, map[], CreateRun(session)), session) == 0
    ensures ForwardTicks(Events(hash, map[], CreateRun(session)), session) == 0
  {
    var payload := Printed(CREATE, PLAYED, Holder(session));
    assert CreateRun(session) == [] + [payload];
    RunSnoc(hash, [], payload);
    CreateReady(hash, map[], session);
    CountSnoc([], EventOf(map[], payload), session);
  }

  /** The storage before the tick: the session is ready, and the keys are queued. */
  lemma InputRunEnds(hash: Hash, session: Bytes)
    requires ShortText(session) && session != []
    ensures var input := Printed(INPUT, PLAYED, Holder(session)); var payloads := CreateRun(session) + [input];
            Ready(Run(hash, map[], payloads), session)
            && InputsOf(Run(hash, map[], payloads), session) == Some(input)
            && TotalTicks(Events(hash, map[], payloads), session) == 0
            && ForwardTicks(Events(hash, map[], payloads), session) == 0
  {
    var input, s := Printed(INPUT, PLAYED, Holder(session)), Run(hash, map[], CreateRun(session));
    CreateRunEnds(hash, session);
    RunSnoc(hash, CreateRun(session), input);
    InputQueued(hash, s, session);
    CountSnoc(Events(hash, map[], CreateRun(session)), EventOf(s, input), session);
  }

  lemma TickRunEnds(hash: Hash, session: Bytes) returns (c: Controls)
    requires ShortText(session) && session != []
    ensures c.forward && c.fire
    ensures Load(Run(hash, map[], TickRun(session)), session) == Some(PlayedOnce(session, c))
    ensures TotalTicks(Events(hash, map[], TickRun(session)), session) == 1
    ensures ForwardTicks(Events(hash, map[], TickRun(session)), session) == 1
  {
    var input, last := Printed(INPUT, PLAYED, Holder(session)), Printed(EXECUTE, PLAYED, Holder(session));
    var payloads := CreateRun(session) + [input];
    var s := Run(hash, map[], payloads);
    c := Held(Some(input));
    PrintedHolds(INPUT, Holder(session));
    InputRunEnds(hash, session);
    RunSnoc(hash, payloads, last);
    TickExecuted(hash, s, session, input);
    CountSnoc(Events(hash, map[], payloads), EventOf(s, last), session);
  }

  lemma MovedForward(g: Game, c: Controls)
    requires c.forward && g.score + 1 < U32_LIMIT
    ensures Moved(g, c).score == g.score + 1 && Moved(g, c).ammo == g.ammo && Moved(g, c).kills == g.kills
  {
  }

  /** Firing, in small numbers. */
  lemma ActedFire(g: Game, c: Controls)
    requires c.fire && g.score + 1000 < U32_LIMIT && g.kills + 1 < U32_LIMIT
    ensures var p := Acted(g, c);
            if g.ammo > 0 then p.ammo == g.ammo - 1 && p.kills == g.kills + 1 && p.score == g.score + 1000
            else p.ammo == g.ammo && p.kills == g.kills && p.score == g.score
  {
  }

  lemma PlayOne(g: Game, c: Controls)
    ensures Play(g, c, 1) == Tick(g, c)
  {
    assert Play(g, c, 0) == g;
  }

  /** One tick with forward and fire. */
  lemma OneShot(g: Game, c: Controls)
    requires c.forward && c.fire && g.score + 1001 < U32_LIMIT && g.kills + 1 < U32_LIMIT
    ensures var p := Play(g, c, 1);
            if g.ammo > 0 then p.ammo == g.ammo - 1 && p.kills == g.kills + 1 && p.score == g.score + 1001
            else p.ammo == g.ammo && p.kills == g.kills && p.score == g.score + 1
  {
    PlayOne(g, c);
    MovedForward(g, c);
    ActedFire(Moved(g, c), c);
  }

  /** A value that is lost in a save, and read as `v` instead. */
  function Lost(lost: bool, v: int, value: int): int {
    if lost then v else value
  }

  lemma ShotCases(a: bool, k: bool, s: bool, va: nat, vk: nat, vs: nat, ammo: nat, kills: nat, score: nat)
    requires var a0, k0, s0 := Lost(a, va, 50), Lost(k, vk, 0), Lost(s, vs, 0);
             a0 + k0 == 50 && s0 == 1000 * k0
             && (if a0 > 0 then ammo == a0 - 1 && kills == k0 + 1 && score == s0 + 1001
                 else ammo == a0 && kills == k0 && score == s0 + 1)
    requires Lost(a, va, ammo) + Lost(k, vk, kills) == 50
    requires Lost(s, vs, score) == 1000 * Lost(k, vk, kills) + 1
    ensures !a && !k && !s
  {
  }

  /** The three values of a conserved game that was loaded, by what the id holds. */
  lemma LoadedShot(session: Bytes, p: Game, forward: nat)
    requires Conserved(Reloaded(session, p), forward, forward) && forward <= 1
    ensures var q := Quoted(session);
            var a := Lost(Holds(session, Quoted(AMMO)), NumberValue(q, AMMO, 50), p.ammo);
            var k := Lost(Holds(session, Quoted(KILLS)), NumberValue(q, KILLS, 0), p.kills);
            var s := Lost(Holds(session, Quoted(SCORE)), NumberValue(q, SCORE, 0), p.score);
            a + k == 50 && s == 1000 * k + forward
            && Reloaded(session, p).ammo == a && Reloaded(session, p).kills == k && Reloaded(session, p).score == s
  {
    var r := Reloaded(session, p);
    assert 0 <= r.kills <= 50;
  }

  lemma ShotKept(session: Bytes, c: Controls)
    requires c.forward && c.fire
    requires Conserved(Reloaded(session, NEW_GAME), 0, 0) && Conserved(PlayedOnce(session, c), 1, 1)
    ensures !Holds(session, Quoted(AMMO)) && !Holds(session, Quoted(KILLS)) && !Holds(session, Quoted(SCORE))
  {
    var g := Reloaded(session, NEW_GAME);
    var p, q := Play(g, c, 1), Quoted(session);
    LoadedShot(session, NEW_GAME, 0);
    OneShot(g, c);
    LoadedShot(session, p, 1);
    ShotCases(Holds(session, Quoted(AMMO)), Holds(session, Quoted(KILLS)), Holds(session, Quoted(SCORE)),
              NumberValue(q, AMMO, 50), NumberValue(q, KILLS, 0), NumberValue(q, SCORE, 0), p.ammo, p.kills, p.score);
  }

  /** The two games account for the ticks only when the id leaves the values alone. */
  lemma OnlyConserving(session: Bytes, c: Controls)
    requires c.forward && c.fire
    requires Conserved(Reloaded(session, NEW_GAME), 0, 0) && Conserved(PlayedOnce(session, c), 1, 1)
    ensures Conserving(session)
  {
    ShotKept(session, c);
    assert Reloaded(session, NEW_GAME).tick == 0 && PlayedOnce(session, c).tick == 1;
    assert Reloaded(session, NEW_GAME).health == Kept(session, HEALTH, 100, 100);
  }

  ghost predicate AlwaysAccounted(hash: Hash, session: Bytes) {
    forall payloads :: Accounted(Load(Run(hash, map[], payloads), session), Events(hash, map[], payloads), session)
  }

  lemma EmptyIdConserves()
    ensures Conserving([])
  {
    var id: Bytes := [];
    assert |Quoted(id)| == 2;
  }

  /** The games of an id are conserved over every run exactly when the id cannot have a game
      or is a conserving one. */
  lemma ConservedExactly(hash: Hash, session: Bytes)
    ensures AlwaysAccounted(hash, session) <==> (ShortText(session) ==> Conserving(session))
  {
    if ShortText(session) ==> Conserving(session) {
      forall payloads
        ensures Accounted(Load(Run(hash, map[], payloads), session), Events(hash, map[], payloads), session) {
        GamesAreConserved(hash, payloads, session);
      }
    } else if AlwaysAccounted(hash, session) {
      EmptyIdConserves();
      CreateRunEnds(hash, session);
      var c := TickRunEnds(hash, session);
      assert Accounted(Load(Run(hash, map[], CreateRun(session)), session),
                       Events(hash, map[], CreateRun(session)), session);
      assert Accounted(Load(Run(hash, map[], TickRun(session)), session),
                       Events(hash, map[], TickRun(session)), session);
      OnlyConserving(session, c);
    }
  }

  // ------------------------------------------------------------------ named ids

  /** Conservation holds for health, and fails for each other field's name. */
  lemma FieldNamesConserve(session: Bytes)
    requires IsField(session)
    ensures Conserving(session) <==> session == HEALTH
  {
    NamedSession(session, session);
    if session == HEALTH {
      HealthHoldsNoOther();
    }
  }

  lemma HealthHoldsNoOther()
    ensures forall name :: IsField(name) && name != HEALTH ==> !Holds(HEALTH, Quoted(name))
  {
    forall name | IsField(name) && name != HEALTH ensures !Holds(HEALTH, Quoted(name)) {
      PlainIdHolds(HEALTH, name);
    }
  }

  /** An id without a quote holds no name but itself. */
  lemma PlainIdHolds(session: Bytes, name: Bytes)
    requires QUOTE !in session && FieldName(name)
    ensures Holds(session, Quoted(name)) <==> session == name
  {
    var parts := [[], session, []];
    QuotedIsJoin([session]);
    assert Join([session], QUOTE) == session;
    assert [[]] + [session] + [[]] == parts;
    if session == name {
      assert Quoted(name) <= Quoted(session);
    } else {
      SearchSkips(parts, [], name, []);
      assert Quoted(name) + [] == Quoted(name) && Join(parts, QUOTE) + [] == Quoted(session);
    }
  }

  // ------------------------------------------------------------- a session never played

  /** A request without a map creates a session without metadata: it is never played. */
  lemma NeverPlayedExists(hash: Hash, session: Bytes, rest: seq<Bytes>)
    requires ShortText(session) && session != [] && Plain(session) && session != MAP
    ensures var payload := Printed(CREATE, [], Holder(session));
            EventOf(map[], payload) == Created(session, HOLDER, None)
            && forall i :: 0 <= i < |Events(hash, Step(hash, map[], payload), rest)|
                 ==> !Concerns(Events(hash, Step(hash, map[], payload), rest)[i], session)
  {
    var payload := Printed(CREATE, [], Holder(session));
    PrintedDecodes(CREATE, [], Holder(session));
    NoMap(session);
    NeverPlayed(hash, [], payload, rest);
  }

  lemma {:induction false} EscapeOfPlain(s: Bytes)
    requires Plain(s)
    ensures Escape(s) == s
  {
    if s != [] {
      EscapeOfPlain(s[1..]);
      assert s == [s[0]] + s[1..];
    }
  }

  lemma NoMapPiece(session: Bytes, i: nat)
    requires session != MAP && 1 <= i < 15
    ensures (Front(CREATE, [], Holder(session)) + [session] + [[CLOSE]])[i] != MAP
  {
    var front := Front(CREATE, [], Holder(session));
    FrontCuts(CREATE, [], Holder(session));
    assert i < 11 ==> front[i] == Fields(CREATE, Holder(session))[i];
    assert i == 12 ==> front[i] == front[12..][0];
    var piece := (front + [session] + [[CLOSE]])[i];
    assert i != 13 && |piece| == 3 ==> piece[0] == COLON;
  }

  lemma PlainPrinted(op: Bytes, session: Bytes)
    requires Plain(session)
    ensures Printed(op, [], Holder(session)) == Join(Front(op, [], Holder(session)) + [session] + [[CLOSE]], QUOTE)
  {
    var front := Front(op, [], Holder(session));
    EscapeOfPlain(session);
    JoinSnoc(front, session, QUOTE);
    JoinSnoc(front + [session], [CLOSE], QUOTE);
    assert Join(front, QUOTE) + [QUOTE] + session + [QUOTE] + [CLOSE]
        == Join(front, QUOTE) + ([QUOTE] + (session + [QUOTE] + [CLOSE]));
  }

  lemma NoMap(session: Bytes)
    requires ShortText(session) && session != [] && Plain(session) && session != MAP
    ensures StringValue(Printed(CREATE, [], Holder(session)), MAP, 64) == []
  {
    var parts, payload := Front(CREATE, [], Holder(session)) + [session] + [[CLOSE]], Printed(CREATE, [], Holder(session));
    PlainPrinted(CREATE, session);
    assert payload == Join(parts, QUOTE) + [];
    FrontFree(CREATE, [], Holder(session));
    forall i | 1 <= i < |parts| ensures parts[i] != MAP {
      NoMapPiece(session, i);
    }
    SearchSkips(parts, [], MAP, []);
    assert Quoted(MAP) + [] == Quoted(MAP);
    PrintedIsText(CREATE, [], Holder(session));
    AfterNameNone(payload, MAP);
  }
}
