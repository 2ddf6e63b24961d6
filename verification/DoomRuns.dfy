// What the DOOM service keeps over every run of requests.
module DoomRuns {
  import opened Bytes
  import opened CText
  import opened DoomState
  import opened Hexadecimal
  import opened DoomService

  function Run(hash: Hash, s: Storage, payloads: seq<Bytes>): Storage {
    if payloads == [] then s
    else Step(hash, Run(hash, s, payloads[..|payloads| - 1]), payloads[|payloads| - 1])
  }

  /** The events of a run, in order. */
  function Events(hash: Hash, s: Storage, payloads: seq<Bytes>): seq<Event> {
    if payloads == [] then []
    else
      var before := payloads[..|payloads| - 1];
      Events(hash, s, before) + [EventOf(Run(hash, s, before), payloads[|payloads| - 1])]
  }

  predicate Concerns(e: Event, session: Bytes) {
    match e
    case Nothing => false
    case Created(x, _, _) => x == session
    case Queued(x, _) => x == session
    case Executed(x, _, _, _) => x == session
    case Finished(x, _, _, _) => x == session
  }

  predicate Creates(e: Event, session: Bytes) {
    e.Created? && e.session == session
  }

  // ------------------------------------------------------------- what an event knows

  /** The facts dispatch has checked when it acts on a session. */
  predicate Checked(s: Storage, e: Event) {
    match e
    case Nothing => true
    case Created(x, account, meta) =>
      |x| < ID_CAPACITY && 0 !in x && 0 !in account && |account| < ID_CAPACITY && Load(s, x).None?
      && (meta.Some? ==> MetaFits(meta.value) && |meta.value.level| < 64 && |meta.value.difficulty| < 64)
    case Queued(x, _) => |x| < ID_CAPACITY && 0 !in x && Load(s, x).Some? && Owned(s, x)
    case Executed(x, g, _, _) => |x| < ID_CAPACITY && 0 !in x && Load(s, x) == Some(g) && Owned(s, x)
    case Finished(x, account, g, stored) =>
      |x| < ID_CAPACITY && 0 !in x && Load(s, x) == Some(g) && Owned(s, x) && Owns(s, x, account)
      && 0 !in account && |account| < ID_CAPACITY && MetaFits(stored)
  }

  predicate Owned(s: Storage, session: Bytes) {
    MetaKey(session) in s
  }

  predicate ShortText(text: Bytes) {
    0 !in text && |text| < ID_CAPACITY
  }

  lemma FinishIsChecked(s: Storage, x: Bytes, account: Bytes, g: Game)
    requires ShortText(x) && ShortText(account) && Owns(s, x, account) && Load(s, x) == Some(g)
    ensures Checked(s, Finished(x, account, g, ReadMeta(MetaOf(s, x))))
  {
    ReadMetaFits(MetaOf(s, x));
  }

  lemma OwnerIsOwned(s: Storage, x: Bytes, account: Bytes)
    requires Owns(s, x, account)
    ensures Owned(s, x)
  {
  }

  lemma OperationIsChecked(s: Storage, op: Bytes, x: Bytes, account: Bytes, g: Game, payload: Bytes)
    requires ShortText(x) && ShortText(account) && Owns(s, x, account) && Load(s, x) == Some(g)
    ensures Checked(s, Operation(s, op, x, account, g, payload))
  {
    OwnerIsOwned(s, x, account);
    if op == INPUT {
      assert Operation(s, op, x, account, g, payload) == Queued(x, payload);
    } else if op == EXECUTE {
      assert Operation(s, op, x, account, g, payload).Executed?;
    } else if op == FINISH {
      FinishIsChecked(s, x, account, g);
    }
  }

  lemma ServedIsChecked(s: Storage, r: Request, payload: Bytes)
    requires ShortText(r.session) && ShortText(r.account)
    ensures Checked(s, Served(s, r, payload))
  {
    var game := Load(s, r.session);
    if r.op == CREATE {
      RequestedMetaFits(payload);
    } else if Owns(s, r.session, r.account) && game.Some? {
      OperationIsChecked(s, r.op, r.session, r.account, game.value, payload);
    }
  }

  lemma EventIsChecked(s: Storage, payload: Bytes)
    ensures Checked(s, EventOf(s, payload))
  {
    FieldFits(payload, SESSION_ID, ID_CAPACITY);
    FieldFits(payload, ACCOUNT, ID_CAPACITY);
    var r := Decode(payload);
    if r.Some? {
      ServedIsChecked(s, r.value, payload);
    }
  }

  // ------------------------------------------------------------------ the session

  lemma LoadSaved(hash: Hash, s: Storage, session: Bytes, g: Game)
    requires |session| < ID_CAPACITY
    ensures Load(Saved(hash, s, session, g), session)
            == Some(ReadState(StateText(session, Hex(hash(session, g)), g)))
    ensures 0 !in session ==> Load(Saved(hash, s, session, g), session) == Some(Reloaded(session, g))
  {
    var digits := Hex(hash(session, g));
    StateFits(session, digits, g);
    if 0 !in session {
      HexLacks(hash(session, g), QUOTE);
      HexLacks(hash(session, g), 0);
      StateRoundTrip(session, digits, g);
    }
  }

  /** A session's loaded game after an event. */
  function GameAfter(was: Option<Game>, e: Event, session: Bytes): Option<Game> {
    if !Concerns(e, session) then was
    else match e
         case Created(_, _, _) => Some(Reloaded(session, NEW_GAME))
         case Executed(_, g, ticks, controls) => Some(Reloaded(session, Play(g, controls, ticks)))
         case Finished(_, _, g, _) => Some(Reloaded(session, g.(completed := true)))
         case _ => was
  }

  /** Which session an event saves, and the game it saves. */
  function SavedGame(e: Event): Option<(Bytes, Game)> {
    match e
    case Created(x, _, _) => Some((x, NEW_GAME))
    case Executed(x, g, ticks, controls) => Some((x, Play(g, controls, ticks)))
    case Finished(x, _, g, _) => Some((x, g.(completed := true)))
    case _ => None
  }

  lemma ReadOther(s: Storage, written: Bytes, value: Bytes, key: Bytes)
    requires written != key
    ensures Read(s[written := value], key, VALUE_MAX - 1) == Read(s, key, VALUE_MAX - 1)
  {
  }

  /** The state key alone decides what is loaded. */
  lemma SameState(s: Storage, s1: Storage, session: Bytes)
    requires Read(s1, StateKey(session), VALUE_MAX - 1) == Read(s, StateKey(session), VALUE_MAX - 1)
    ensures Load(s1, session) == Load(s, session)
  {
  }

  lemma CreateKeepsState(hash: Hash, s: Storage, x: Bytes, account: Bytes, meta: Option<Meta>, session: Bytes)
    ensures Load(AfterCreate(hash, s, x, account, meta), session) == Load(Saved(hash, s, x, NEW_GAME), session)
  {
    SessionKeysDiffer(session, x);
    var s1 := Saved(hash, s, x, NEW_GAME);
    if meta.Some? {
      ReadOther(s1, MetaKey(x), MetaText(account, meta.value), StateKey(session));
      SameState(s1, s1[MetaKey(x) := MetaText(account, meta.value)], session);
    }
  }

  lemma ExecuteKeepsState(hash: Hash, s: Storage, x: Bytes, g: Game, session: Bytes)
    ensures Load(AfterExecute(hash, s, x, g), session) == Load(Saved(hash, s, x, g), session)
  {
    SessionKeysDiffer(session, x);
    SameState(Saved(hash, s, x, g), AfterExecute(hash, s, x, g), session);
  }

  lemma RecordKeepsState(s: Storage, x: Bytes, account: Bytes, score: Word, result: Bytes, session: Bytes)
    ensures Load(Recorded(s, x, account, score, result), session) == Load(s, session)
  {
    SessionKeysDiffer(session, x);
    BestKeyDiffers(session, account);
    var s1 := s[ResultKey(x) := result];
    ReadOther(s, ResultKey(x), result, StateKey(session));
    ReadOther(s1, BestKey(account), result, StateKey(session));
    SameState(s, Recorded(s, x, account, score, result), session);
  }

  /** The loaded game of a session changes by the event's save alone. */
  lemma StateAfter(hash: Hash, s: Storage, e: Event, session: Bytes)
    ensures Load(Apply(hash, s, e), session)
            == match SavedGame(e)
               case None => Load(s, session)
               case Some((x, g)) => Load(Saved(hash, s, x, g), session)
  {
    match e
    case Nothing =>
    case Created(x, account, meta) => CreateKeepsState(hash, s, x, account, meta, session);
    case Queued(x, input) =>
      SessionKeysDiffer(session, x);
      SameState(s, s[InputsKey(x) := input], session);
    case Executed(x, g, ticks, c) => ExecuteKeepsState(hash, s, x, Play(g, c, ticks), session);
    case Finished(x, account, g, stored) =>
      var done := g.(completed := true);
      RecordKeepsState(Saved(hash, s, x, done), x, account, done.score,
                       ResultText(x, account, done, Hex(hash(x, done)), stored), session);
  }

  lemma SavedElsewhere(hash: Hash, s: Storage, x: Bytes, g: Game, session: Bytes)
    requires x != session
    ensures Load(Saved(hash, s, x, g), session) == Load(s, session)
  {
    SameKeySameOwner(x, session);
    SameState(s, Saved(hash, s, x, g), session);
  }

  /** A request changes a session's loaded game exactly as its event says, for every id. */
  lemma StepTracks(hash: Hash, s: Storage, payload: Bytes, session: Bytes)
    ensures Load(Step(hash, s, payload), session) == GameAfter(Load(s, session), EventOf(s, payload), session)
  {
    EventIsChecked(s, payload);
    EventTracks(hash, s, EventOf(s, payload), session);
  }

  lemma EventTracks(hash: Hash, s: Storage, e: Event, session: Bytes)
    requires Checked(s, e)
    ensures Load(Apply(hash, s, e), session) == GameAfter(Load(s, session), e, session)
  {
    StateAfter(hash, s, e, session);
    SaveDecides(e, session, Load(s, session));
    if SavedGame(e).Some? {
      var (x, g) := SavedGame(e).value;
      SavedIsShort(s, e);
      LoadSaved(hash, s, x, g);
      if x != session {
        SavedElsewhere(hash, s, x, g, session);
      }
    }
  }

  lemma SavedIsShort(s: Storage, e: Event)
    requires Checked(s, e) && SavedGame(e).Some?
    ensures ShortText(SavedGame(e).value.0)
  {
  }

  lemma SaveDecides(e: Event, session: Bytes, was: Option<Game>)
    ensures GameAfter(was, e, session)
            == if SavedGame(e).Some? && SavedGame(e).value.0 == session
               then Some(Reloaded(session, SavedGame(e).value.1)) else was
  {
  }

  lemma ReloadedTwice(session: Bytes, g: Game)
    ensures Reloaded(session, Reloaded(session, g)) == Reloaded(session, g)
  {
  }

  /** Over every run a loaded game holds exactly the values its id would give again. */
  lemma {:induction false} LoadedIsKept(hash: Hash, payloads: seq<Bytes>, session: Bytes)
    ensures var game := Load(Run(hash, map[], payloads), session);
            game.Some? ==> Reloaded(session, game.value) == game.value
  {
    if payloads != [] {
      var before, last := payloads[..|payloads| - 1], payloads[|payloads| - 1];
      var s := Run(hash, map[], before);
      LoadedIsKept(hash, before, session);
      StepTracks(hash, s, last, session);
      EventLoadsKept(Load(s, session), EventOf(s, last), session);
    }
  }

  lemma EventLoadsKept(was: Option<Game>, e: Event, session: Bytes)
    requires was.Some? ==> Reloaded(session, was.value) == was.value
    ensures var game := GameAfter(was, e, session); game.Some? ==> Reloaded(session, game.value) == game.value
  {
    SaveDecides(e, session, was);
    if SavedGame(e).Some? {
      ReloadedTwice(session, SavedGame(e).value.1);
    }
  }

  // --------------------------------------------------------------- game invariants

  function TotalTicks(events: seq<Event>, session: Bytes): nat {
    if events == [] then 0
    else
      var e := events[|events| - 1];
      TotalTicks(events[..|events| - 1], session)
      + if e.Executed? && e.session == session then e.ticks else 0
  }

  /** The ticks executed with forward held. */
  function ForwardTicks(events: seq<Event>, session: Bytes): nat {
    if events == [] then 0
    else
      var e := events[|events| - 1];
      ForwardTicks(events[..|events| - 1], session)
      + if e.Executed? && e.session == session && e.controls.forward then e.ticks else 0
  }

  ghost predicate Conserved(g: Game, total: nat, forward: nat) {
    && g.ammo + g.kills == 50
    && g.health <= 100
    && g.tick == total % U32_LIMIT
    && g.score == (1000 * g.kills + forward) % U32_LIMIT
  }

  lemma WrapAdd(a: nat, b: nat)
    ensures (a % U32_LIMIT + b) % U32_LIMIT == (a + b) % U32_LIMIT
  {
  }

  lemma TickConserves(g: Game, c: Controls, total: nat, forward: nat)
    requires Conserved(g, total, forward)
    ensures Conserved(Tick(g, c), total + 1, if c.forward then forward + 1 else forward)
  {
    MoveConserves(g, c, total, forward);
    ActConserves(Moved(g, c), c, total + 1, if c.forward then forward + 1 else forward);
  }

  lemma MoveConserves(g: Game, c: Controls, total: nat, forward: nat)
    requires Conserved(g, total, forward)
    ensures Conserved(Moved(g, c), total + 1, if c.forward then forward + 1 else forward)
  {
    WrapAdd(total, 1);
    WrapAdd(1000 * g.kills + forward, 1);
  }

  lemma ActConserves(g: Game, c: Controls, total: nat, forward: nat)
    requires Conserved(g, total, forward)
    ensures Conserved(Acted(g, c), total, forward)
  {
    WrapAdd(1000 * g.kills + forward, 1000);
    assert g.ammo > 0 ==> Fired(g).kills == g.kills + 1;
  }

  lemma {:induction false} PlayConserves(g: Game, c: Controls, ticks: nat, total: nat, forward: nat)
    requires Conserved(g, total, forward)
    ensures Conserved(Play(g, c, ticks), total + ticks, if c.forward then forward + ticks else forward)
  {
    if ticks > 0 {
      PlayConserves(g, c, ticks - 1, total, forward);
      TickConserves(Play(g, c, ticks - 1), c, total + ticks - 1, if c.forward then forward + (ticks - 1) else forward);
    }
  }

  /** The ids whose games stay conserved: they hold none of the four names the accounts are
      about, and no health above 100. */
  predicate Conserving(session: Bytes) {
    && !Holds(session, Quoted(TICK)) && !Holds(session, Quoted(AMMO)) && !Holds(session, Quoted(KILLS))
    && !Holds(session, Quoted(SCORE)) && Kept(session, HEALTH, 100, 0) <= 100
  }

  lemma ReloadConserves(session: Bytes, g: Game, total: nat, forward: nat)
    requires Conserving(session) && Conserved(g, total, forward)
    ensures Conserved(Reloaded(session, g), total, forward)
  {
  }

  ghost predicate Balanced(game: Option<Game>, total: nat, forward: nat) {
    if game.None? then total == 0 && forward == 0 else Conserved(game.value, total, forward)
  }

  ghost predicate Accounted(game: Option<Game>, events: seq<Event>, session: Bytes) {
    Balanced(game, TotalTicks(events, session), ForwardTicks(events, session))
  }

  lemma NewGameConserved()
    ensures Conserved(NEW_GAME, 0, 0)
  {
  }

  lemma FinishConserves(g: Game, total: nat, forward: nat)
    requires Conserved(g, total, forward)
    ensures Conserved(g.(completed := true), total, forward)
  {
  }

  /** The game an event saves is conserved after it. */
  lemma SavedConserved(s: Storage, e: Event, events: seq<Event>, session: Bytes)
    requires Checked(s, e) && Accounted(Load(s, session), events, session)
    requires SavedGame(e).Some? && SavedGame(e).value.0 == session
    ensures Conserved(SavedGame(e).value.1, TotalTicks(events + [e], session), ForwardTicks(events + [e], session))
  {
    CountSnoc(events, e, session);
    var total, forward := TotalTicks(events, session), ForwardTicks(events, session);
    match e
    case Created(_, _, _) => NewGameConserved();
    case Executed(_, g, ticks, c) => PlayConserves(g, c, ticks, total, forward);
    case Finished(_, _, g, _) => FinishConserves(g, total, forward);
  }

  lemma EventAccounted(s: Storage, e: Event, events: seq<Event>, session: Bytes)
    requires Checked(s, e) && Accounted(Load(s, session), events, session)
    requires ShortText(session) ==> Conserving(session)
    ensures Accounted(GameAfter(Load(s, session), e, session), events + [e], session)
  {
    SaveDecides(e, session, Load(s, session));
    if SavedGame(e).Some? && SavedGame(e).value.0 == session {
      SavedIsShort(s, e);
      SavedConserved(s, e, events, session);
      ReloadConserves(session, SavedGame(e).value.1, TotalTicks(events + [e], session),
                      ForwardTicks(events + [e], session));
    } else {
      CountSnoc(events, e, session);
    }
  }

  lemma CountSnoc(events: seq<Event>, e: Event, session: Bytes)
    ensures TotalTicks(events + [e], session)
            == TotalTicks(events, session) + if e.Executed? && e.session == session then e.ticks else 0
    ensures ForwardTicks(events + [e], session)
            == ForwardTicks(events, session)
               + if e.Executed? && e.session == session && e.controls.forward then e.ticks else 0
  {
    assert (events + [e])[..|events|] == events;
  }

  /** Over every run from an empty storage, whatever the requests, a session's ammunition and
      kills add up to 50, its health is at most 100, and its tick and score are exactly the
      ticks executed and 1000 a kill plus one a forward tick, modulo 2^32; for an id that can
      have a game, if it is a conserving one. */
  lemma {:induction false} GamesAreConserved(hash: Hash, payloads: seq<Bytes>, session: Bytes)
    requires ShortText(session) ==> Conserving(session)
    ensures Accounted(Load(Run(hash, map[], payloads), session), Events(hash, map[], payloads), session)
  {
    if payloads != [] {
      var before, last := payloads[..|payloads| - 1], payloads[|payloads| - 1];
      var s := Run(hash, map[], before);
      GamesAreConserved(hash, before, session);
      EventIsChecked(s, last);
      StepTracks(hash, s, last, session);
      EventAccounted(s, EventOf(s, last), Events(hash, map[], before), session);
    }
  }

  // ------------------------------------------------------- sessions stay, owners stay

  /** A stored, loadable session: no request resets or drops it, and none touches its
      metadata. */
  lemma StepKeepsSession(hash: Hash, s: Storage, payload: Bytes, session: Bytes)
    requires Load(s, session).Some?
    ensures Load(Step(hash, s, payload), session).Some?
    ensures !Creates(EventOf(s, payload), session)
    ensures Read(Step(hash, s, payload), MetaKey(session), META_MAX - 1) == Read(s, MetaKey(session), META_MAX - 1)
    ensures Owned(Step(hash, s, payload), session) == Owned(s, session)
  {
    var e := EventOf(s, payload);
    EventIsChecked(s, payload);
    EventKeepsSession(hash, s, e, session);
    EventKeepsMeta(hash, s, e, session);
  }

  lemma EventKeepsSession(hash: Hash, s: Storage, e: Event, session: Bytes)
    requires Load(s, session).Some? && Checked(s, e)
    ensures Load(Apply(hash, s, e), session).Some? && !Creates(e, session)
  {
    StateAfter(hash, s, e, session);
    if SavedGame(e).Some? {
      var (x, g) := SavedGame(e).value;
      if x == session {
        LoadSaved(hash, s, x, g);
      } else {
        SavedElsewhere(hash, s, x, g, session);
      }
    }
  }

  ghost predicate SameMeta(s: Storage, s1: Storage, session: Bytes) {
    var key := MetaKey(session);
    (key in s1 <==> key in s) && (key in s ==> s1[key] == s[key])
  }

  lemma SavedSameMeta(hash: Hash, s: Storage, x: Bytes, g: Game, session: Bytes)
    ensures SameMeta(s, Saved(hash, s, x, g), session)
  {
    SessionKeysDiffer(x, session);
  }

  lemma CreateSameMeta(hash: Hash, s: Storage, x: Bytes, account: Bytes, meta: Option<Meta>, session: Bytes)
    requires x != session
    ensures SameMeta(s, AfterCreate(hash, s, x, account, meta), session)
  {
    SavedSameMeta(hash, s, x, NEW_GAME, session);
    SameKeySameOwner(x, session);
  }

  lemma FinishSameMeta(s: Storage, x: Bytes, account: Bytes, score: Word, result: Bytes, session: Bytes)
    ensures SameMeta(s, Recorded(s, x, account, score, result), session)
  {
    SessionKeysDiffer(session, x);
    BestKeyDiffers(session, account);
  }

  lemma ExecuteSameMeta(hash: Hash, s: Storage, x: Bytes, g: Game, session: Bytes)
    ensures SameMeta(s, AfterExecute(hash, s, x, g), session)
  {
    SessionKeysDiffer(session, x);
    SessionKeysDiffer(x, session);
  }

  /** Only a create request of the session itself writes its metadata. */
  lemma EventKeepsMeta(hash: Hash, s: Storage, e: Event, session: Bytes)
    requires !Creates(e, session)
    ensures SameMeta(s, Apply(hash, s, e), session)
  {
    match e
    case Nothing =>
    case Created(x, account, meta) => CreateSameMeta(hash, s, x, account, meta, session);
    case Queued(x, _) => SessionKeysDiffer(session, x);
    case Executed(x, g, ticks, c) => ExecuteSameMeta(hash, s, x, Play(g, c, ticks), session);
    case Finished(x, account, g, stored) =>
      var done := g.(completed := true);
      var s1 := Saved(hash, s, x, done);
      SavedSameMeta(hash, s, x, done, session);
      FinishSameMeta(s1, x, account, done.score, ResultText(x, account, done, Hex(hash(x, done)), stored), session);
  }

  /** Over every run: an existing session is never created again, and stays bound to the
      account that owns it. */
  lemma {:induction false} SessionsArePermanent(hash: Hash, s: Storage, payloads: seq<Bytes>, session: Bytes)
    requires Load(s, session).Some?
    ensures Load(Run(hash, s, payloads), session).Some?
    ensures forall i :: 0 <= i < |Events(hash, s, payloads)| ==> !Creates(Events(hash, s, payloads)[i], session)
    ensures forall account :: Owns(Run(hash, s, payloads), session, account) == Owns(s, session, account)
    ensures Owned(Run(hash, s, payloads), session) == Owned(s, session)
  {
    if payloads != [] {
      var before, last := payloads[..|payloads| - 1], payloads[|payloads| - 1];
      SessionsArePermanent(hash, s, before, session);
      StepKeepsSession(hash, Run(hash, s, before), last, session);
    }
  }
}
