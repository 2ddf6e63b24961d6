// A session that is created, played and finished by requests, and what a run comes to.
module DoomSessions {
  import opened Bytes
  import opened CText
  import opened DoomState
  import opened Hexadecimal
  import opened DoomService
  import opened DoomRuns
  import opened DoomOwners
  import opened DoomScores
  import opened DoomPayloads
  import opened DoomRequests

  // ------------------------------------------------------------------ the requests

  /** A session of an account, and the requests that create, play and finish it. */
  datatype Texts = Texts(x: Bytes, account: Bytes, create: Bytes, input: Bytes, tick: Bytes, finish: Bytes)

  predicate OneCharacter(x: Bytes) {
    |x| == 1 && Plain(x) && 0 !in x
  }

  /** The id holds no field's name: its games survive saving. */
  lemma OneCharacterIsTransparent(x: Bytes, g: Game)
    requires |x| == 1
    ensures Reloaded(x, g) == g && !Holds(x, Quoted(SCORE))
  {
    assert |Quoted(x)| == 3;
  }

  function Keys(t: Texts): Controls {
    Held(Some(t.input))
  }

  /** The create request is another account's, whose sessions belong to this one. */
  predicate Creates(t: Texts) {
    var meta := RequestedMeta(t.create);
    && Decode(t.create) == Some(Request(CREATE, t.x, CreatorFor(t.account)))
    && meta.Some? && OwnerField(CreatorFor(t.account), meta.value) == t.account
  }

  /** The request for an operation is what it is for; the input holds forward and fire, and
      the tick asks for one. */
  predicate Answers(t: Texts, op: Bytes) {
    && CanOwn(t.account) && (op == CREATE ==> Creates(t))
    && (op == INPUT ==> Decode(t.input) == Some(Request(INPUT, t.x, t.account)) && |t.input| < VALUE_MAX
                        && Keys(t).forward && Keys(t).fire)
    && (op == EXECUTE ==> Decode(t.tick) == Some(Request(EXECUTE, t.x, t.account)) && NumberValue(t.tick, TICKS, 0) == 1)
    && (op == FINISH ==> Decode(t.finish) == Some(Request(FINISH, t.x, t.account)))
  }

  ghost predicate Serves(t: Texts) {
    OneCharacter(t.x) && forall op {:trigger Answers(t, op)} :: Answers(t, op)
  }

  function Creating(x: Bytes, account: Bytes): Bytes {
    Printed(CREATE, PLAYED, Asker(x, CreatorFor(account), true))
  }

  function Asking(op: Bytes, x: Bytes, account: Bytes): Bytes {
    Printed(op, PLAYED, Asker(x, account, true))
  }

  function TextsFor(x: Bytes, account: Bytes): Texts {
    Texts(x, account, Creating(x, account), Asking(INPUT, x, account), Asking(EXECUTE, x, account),
          Asking(FINISH, x, account))
  }

  lemma CreatingCreates(x: Bytes, account: Bytes)
    requires OneCharacter(x) && CanOwn(account)
    ensures Creates(TextsFor(x, account))
  {
    CreatorFits(account);
    var a := Asker(x, CreatorFor(account), true);
    PrintedDecodes(CREATE, PLAYED, a);
    PlayedMeta(CREATE, a);
    RequestedMetaFits(Creating(x, account));
    CreatorOwns(account, RequestedMeta(Creating(x, account)).value);
  }

  /** There are such requests for every account that can own a session. */
  lemma TextsServe(x: Bytes, account: Bytes)
    requires OneCharacter(x) && CanOwn(account)
    ensures Serves(TextsFor(x, account))
  {
    forall op ensures Answers(TextsFor(x, account), op) {
      TextsAnswer(x, account, op);
    }
  }

  lemma TextsAnswer(x: Bytes, account: Bytes, op: Bytes)
    requires OneCharacter(x) && CanOwn(account)
    ensures Answers(TextsFor(x, account), op)
  {
    var a := Asker(x, account, true);
    CreatingCreates(x, account);
    PrintedDecodes(INPUT, PLAYED, a);
    PrintedDecodes(EXECUTE, PLAYED, a);
    PrintedDecodes(FINISH, PLAYED, a);
    PrintedFits(INPUT, a);
    PrintedHolds(INPUT, a);
    TicksFound(EXECUTE, a);
  }

  /** A session is created for the account, and played for so many ticks. */
  function Session(t: Texts, ticks: nat): seq<Bytes> {
    if ticks == 0 then [t.create]
    else Session(t, ticks - 1) + [t.input] + [t.tick]
  }

  // ---------------------------------------------------------------- what they change

  ghost predicate Playing(s: Storage, t: Texts, g: Game) {
    Owns(s, t.x, t.account) && Load(s, t.x) == Some(g)
  }

  /** Between two storages only games of `x` went on, and the record stayed. */
  ghost predicate OnlyPlays(s: Storage, s1: Storage, t: Texts) {
    SameBest(s, s1, t.account) && forall z {:trigger SameGame(s, s1, z)} :: z != t.x ==> SameGame(s, s1, z)
  }

  ghost predicate SameGame(s: Storage, s1: Storage, z: Bytes) {
    Load(s1, z) == Load(s, z)
  }

  ghost predicate Played(s: Storage, s1: Storage, t: Texts, g: Game) {
    Playing(s1, t, g) && OnlyPlays(s, s1, t)
  }

  lemma OneMore(hash: Hash, s0: Storage, s: Storage, payload: Bytes, t: Texts)
    requires OnlyPlays(s0, s, t)
    requires var e := EventOf(s, payload); Concerns(e, t.x) && !e.Finished?
    ensures OnlyPlays(s0, Step(hash, s, payload), t)
  {
    OthersSameBest(hash, s, EventOf(s, payload), t.account);
    forall z | z != t.x ensures SameGame(s0, Step(hash, s, payload), z) {
      assert SameGame(s0, s, z);
      StepTracks(hash, s, payload, z);
    }
  }

  lemma CreateServed(s: Storage, t: Texts)
    requires Serves(t) && Load(s, t.x).None?
    ensures var payload := t.create; var meta := RequestedMeta(payload);
            meta.Some? && EventOf(s, payload) == Created(t.x, CreatorFor(t.account), meta)
            && OwnerField(CreatorFor(t.account), meta.value) == t.account != []
  {
    assert Answers(t, CREATE);
  }

  lemma CreatedLoads(hash: Hash, s: Storage, payload: Bytes, x: Bytes, account: Bytes, meta: Option<Meta>)
    requires EventOf(s, payload) == Created(x, account, meta) && |x| == 1
    ensures Load(Step(hash, s, payload), x) == Some(NEW_GAME)
  {
    StepTracks(hash, s, payload, x);
    OneCharacterIsTransparent(x, NEW_GAME);
  }

  lemma CreatedPlays(hash: Hash, s: Storage, t: Texts)
    requires Serves(t) && Load(s, t.x).None?
    ensures Played(s, Step(hash, s, t.create), t, NEW_GAME)
  {
    CreateServed(s, t);
    OneMore(hash, s, s, t.create, t);
    CreatedLoads(hash, s, t.create, t.x, CreatorFor(t.account), RequestedMeta(t.create));
    CreatedOwns(hash, s, t.create, t.account);
  }

  lemma CreatedOwns(hash: Hash, s: Storage, payload: Bytes, account: Bytes)
    requires var e := EventOf(s, payload);
             e.Created? && e.meta.Some? && OwnerField(e.account, e.meta.value) == account
    requires account != []
    ensures Owns(Step(hash, s, payload), EventOf(s, payload).session, account)
  {
    var s1 := Step(hash, s, payload);
    BoundToCreator(hash, s, payload, [], account);
    assert Run(hash, s1, []) == s1;
  }

  lemma InputAsked(s: Storage, t: Texts, g: Game)
    requires Serves(t) && Playing(s, t, g)
    ensures EventOf(s, t.input) == Queued(t.x, t.input) && |t.input| < VALUE_MAX
  {
    assert Answers(t, INPUT);
  }

  lemma QueueKeeps(hash: Hash, s: Storage, payload: Bytes, x: Bytes, account: Bytes, g: Game)
    requires EventOf(s, payload) == Queued(x, payload) && |payload| < VALUE_MAX
    requires Owns(s, x, account) && Load(s, x) == Some(g)
    ensures Owns(Step(hash, s, payload), x, account) && Load(Step(hash, s, payload), x) == Some(g)
    ensures InputsOf(Step(hash, s, payload), x) == Some(payload)
  {
    StepTracks(hash, s, payload, x);
    StepKeepsSession(hash, s, payload, x);
  }

  lemma InputServed(hash: Hash, s: Storage, t: Texts, g: Game)
    requires Serves(t) && Playing(s, t, g)
    ensures EventOf(s, t.input) == Queued(t.x, t.input) && Playing(Step(hash, s, t.input), t, g)
    ensures InputsOf(Step(hash, s, t.input), t.x) == Some(t.input)
  {
    InputAsked(s, t, g);
    QueueKeeps(hash, s, t.input, t.x, t.account, g);
  }

  lemma TickAsked(s: Storage, t: Texts, g: Game)
    requires Serves(t) && Playing(s, t, g) && InputsOf(s, t.x) == Some(t.input)
    ensures EventOf(s, t.tick) == Executed(t.x, g, 1, Keys(t)) && |t.x| == 1
  {
    assert Answers(t, EXECUTE);
  }

  lemma ExecuteKeeps(hash: Hash, s: Storage, payload: Bytes, x: Bytes, account: Bytes, g: Game, c: Controls)
    requires EventOf(s, payload) == Executed(x, g, 1, c) && |x| == 1 && Owns(s, x, account) && Load(s, x) == Some(g)
    ensures Owns(Step(hash, s, payload), x, account) && Load(Step(hash, s, payload), x) == Some(Play(g, c, 1))
  {
    StepTracks(hash, s, payload, x);
    StepKeepsSession(hash, s, payload, x);
    OneCharacterIsTransparent(x, Play(g, c, 1));
  }

  lemma TickServed(hash: Hash, s: Storage, t: Texts, g: Game)
    requires Serves(t) && Playing(s, t, g) && InputsOf(s, t.x) == Some(t.input)
    ensures EventOf(s, t.tick) == Executed(t.x, g, 1, Keys(t))
    ensures Playing(Step(hash, s, t.tick), t, Play(g, Keys(t), 1))
  {
    TickAsked(s, t, g);
    ExecuteKeeps(hash, s, t.tick, t.x, t.account, g, Keys(t));
  }

  lemma KeysHeld(t: Texts)
    requires Serves(t)
    ensures Keys(t).forward && Keys(t).fire && ShortText(t.x) && ShortText(t.account)
  {
    assert Answers(t, INPUT);
  }

  /** The game of such a session. */
  function GameOf(t: Texts, ticks: nat): Game {
    Play(NEW_GAME, Keys(t), ticks)
  }

  lemma {:induction false} ShotsScore(c: Controls, ticks: nat)
    requires c.forward && c.fire && ticks <= 50
    ensures var g := Play(NEW_GAME, c, ticks); g.ammo + ticks == 50 && g.kills == ticks && g.score == 1001 * ticks
  {
    if ticks > 0 {
      ShotsScore(c, ticks - 1);
      OneShot(Play(NEW_GAME, c, ticks - 1), c);
      PlayOne(Play(NEW_GAME, c, ticks - 1), c);
    }
  }

  lemma GameScores(t: Texts, ticks: nat)
    requires Serves(t) && ticks <= 50
    ensures GameOf(t, ticks).score == 1001 * ticks
  {
    KeysHeld(t);
    ShotsScore(Keys(t), ticks);
  }

  // ------------------------------------------------------------------- the finish

  lemma FinishServed(s: Storage, t: Texts, g: Game)
    requires Serves(t) && Playing(s, t, g)
    ensures EventOf(s, t.finish) == Finished(t.x, t.account, g, ReadMeta(MetaOf(s, t.x)))
  {
    assert Answers(t, FINISH);
  }

  /** The result that a finish stores. */
  function ResultOf(hash: Hash, s: Storage, t: Texts, g: Game): Bytes {
    ResultText(t.x, t.account, g.(completed := true), Hex(hash(t.x, g.(completed := true))), ReadMeta(MetaOf(s, t.x)))
  }

  ghost predicate BestFrom(hash: Hash, s: Storage, s1: Storage, t: Texts, g: Game) {
    BestIs(s1, t.x, t.account, g.(completed := true), Hex(hash(t.x, g.(completed := true))), ReadMeta(MetaOf(s, t.x)))
  }

  lemma ResultIsBest(hash: Hash, s: Storage, s1: Storage, t: Texts, g: Game)
    requires ShortText(t.x) && ShortText(t.account)
    requires BestKey(t.account) in s1 && s1[BestKey(t.account)] == ResultOf(hash, s, t, g)
    ensures BestFrom(hash, s, s1, t, g)
  {
    var done := g.(completed := true);
    ReadMetaFits(MetaOf(s, t.x));
    HexLacks(hash(t.x, done), 0);
  }

  lemma FinishedRecords(hash: Hash, s: Storage, t: Texts, g: Game, done: Game)
    requires done == g.(completed := true)
    ensures Apply(hash, s, Finished(t.x, t.account, g, ReadMeta(MetaOf(s, t.x))))
            == Recorded(Saved(hash, s, t.x, done), t.x, t.account, done.score, ResultOf(hash, s, t, g))
  {
    assert Apply(hash, s, Finished(t.x, t.account, g, ReadMeta(MetaOf(s, t.x))))
        == AfterFinish(hash, s, t.x, t.account, done, ReadMeta(MetaOf(s, t.x)));
  }

  lemma FinishRecords(hash: Hash, s: Storage, t: Texts, g: Game)
    requires Serves(t) && Playing(s, t, g)
    ensures Step(hash, s, t.finish)
            == Recorded(Saved(hash, s, t.x, g.(completed := true)), t.x, t.account, g.score, ResultOf(hash, s, t, g))
    ensures SameBest(s, Saved(hash, s, t.x, g.(completed := true)), t.account)
  {
    FinishServed(s, t, g);
    FinishedRecords(hash, s, t, g, g.(completed := true));
    SavedSameBest(hash, s, t.x, g.(completed := true), t.account);
  }

  lemma FirstRecorded(s: Storage, x: Bytes, account: Bytes, score: Word, result: Bytes)
    requires BestKey(account) !in s
    ensures Recorded(s, x, account, score, result) == s[ResultKey(x) := result][BestKey(account) := result]
  {
    BestKeyDiffers(x, account);
  }

  /** The first finish of an account goes on record. */
  lemma FirstFinish(hash: Hash, s: Storage, t: Texts, g: Game)
    requires Serves(t) && Playing(s, t, g) && BestKey(t.account) !in s
    ensures BestFrom(hash, s, Step(hash, s, t.finish), t, g)
  {
    KeysHeld(t);
    FinishRecords(hash, s, t, g);
    FirstRecorded(Saved(hash, s, t.x, g.(completed := true)), t.x, t.account, g.score, ResultOf(hash, s, t, g));
    ResultIsBest(hash, s, Step(hash, s, t.finish), t, g);
  }

  /** A later one replaces the record when its score is higher than the number read there. */
  lemma NextFinish(hash: Hash, s0: Storage, s: Storage, u: Texts, g0: Game, t: Texts, g: Game)
    requires Serves(t) && Playing(s, t, g) && u.account == t.account
    requires BestFrom(hash, s0, s, u, g0) && g.score > ReadScore(u.x, u.account, g0.score)
    ensures BestFrom(hash, s, Step(hash, s, t.finish), t, g)
  {
    var saved := Saved(hash, s, t.x, g.(completed := true));
    FinishRecords(hash, s, t, g);
    BestReplaced(saved, u.x, u.account, g0.(completed := true), Hex(hash(u.x, g0.(completed := true))),
                 ReadMeta(MetaOf(s0, u.x)), t.x, g.score, ResultOf(hash, s, t, g));
    ResultIsBest(hash, s, Step(hash, s, t.finish), t, g);
  }

  // ---------------------------------------------------------------------- the runs

  /** Where a run has come to: its storage, and the account's highest score. */
  ghost predicate Reached(hash: Hash, payloads: seq<Bytes>, account: Bytes, s: Storage, best: Option<Word>) {
    Run(hash, map[], payloads) == s && MaxScore(Events(hash, map[], payloads), account) == best
  }

  lemma Onward(hash: Hash, payloads: seq<Bytes>, account: Bytes, s: Storage, best: Option<Word>, payload: Bytes)
    requires Reached(hash, payloads, account, s, best)
    ensures var e := EventOf(s, payload);
            Reached(hash, payloads + [payload], account, Step(hash, s, payload),
                    if !(e.Finished? && e.account == account) then best
                    else if best.None? || e.game.score > best.value then Some(e.game.score) else best)
  {
    RunSnoc(hash, payloads, payload);
    MaxSnoc(Events(hash, map[], payloads), EventOf(s, payload), account);
  }

  lemma TwoBehind(before: seq<Bytes>, front: seq<Bytes>, a: Bytes, b: Bytes)
    ensures before + (front + [a] + [b]) == before + front + [a] + [b]
  {
  }

  /** A run and its storage after a session of the account went on from `s`. */
  ghost predicate Running(hash: Hash, payloads: seq<Bytes>, t: Texts, s: Storage, s1: Storage, g: Game,
                          best: Option<Word>) {
    Played(s, s1, t, g) && Reached(hash, payloads, t.account, s1, best)
  }

  lemma CreateRuns(hash: Hash, before: seq<Bytes>, t: Texts, s: Storage, best: Option<Word>) returns (s1: Storage)
    requires Serves(t) && Load(s, t.x).None? && Reached(hash, before, t.account, s, best)
    ensures Running(hash, before + [t.create], t, s, s1, GameOf(t, 0), best)
  {
    s1 := Step(hash, s, t.create);
    CreateServed(s, t);
    CreatedPlays(hash, s, t);
    Onward(hash, before, t.account, s, best, t.create);
  }

  lemma InputRuns(hash: Hash, payloads: seq<Bytes>, t: Texts, s: Storage, s1: Storage, g: Game, best: Option<Word>)
    returns (s2: Storage)
    requires Serves(t) && Running(hash, payloads, t, s, s1, g, best)
    ensures Running(hash, payloads + [t.input], t, s, s2, g, best) && InputsOf(s2, t.x) == Some(t.input)
  {
    s2 := Step(hash, s1, t.input);
    InputServed(hash, s1, t, g);
    OneMore(hash, s, s1, t.input, t);
    Onward(hash, payloads, t.account, s1, best, t.input);
  }

  lemma TickRuns(hash: Hash, payloads: seq<Bytes>, t: Texts, s: Storage, s1: Storage, g: Game, best: Option<Word>)
    returns (s2: Storage)
    requires Serves(t) && Running(hash, payloads, t, s, s1, g, best) && InputsOf(s1, t.x) == Some(t.input)
    ensures Running(hash, payloads + [t.tick], t, s, s2, Play(g, Keys(t), 1), best)
  {
    s2 := Step(hash, s1, t.tick);
    TickServed(hash, s1, t, g);
    OneMore(hash, s, s1, t.tick, t);
    Onward(hash, payloads, t.account, s1, best, t.tick);
  }

  /** A session that is created and played in a run. */
  lemma {:induction false} SessionRuns(hash: Hash, before: seq<Bytes>, t: Texts, s: Storage, best: Option<Word>, ticks: nat)
    returns (s1: Storage)
    requires Serves(t) && Load(s, t.x).None? && Reached(hash, before, t.account, s, best)
    ensures Running(hash, before + Session(t, ticks), t, s, s1, GameOf(t, ticks), best)
  {
    if ticks == 0 {
      s1 := CreateRuns(hash, before, t, s, best);
    } else {
      var play := Session(t, ticks - 1);
      s1 := SessionRuns(hash, before, t, s, best, ticks - 1);
      s1 := InputRuns(hash, before + play, t, s, s1, GameOf(t, ticks - 1), best);
      s1 := TickRuns(hash, before + play + [t.input], t, s, s1, GameOf(t, ticks - 1), best);
      PlayOne(GameOf(t, ticks - 1), Keys(t));
      TwoBehind(before, play, t.input, t.tick);
    }
  }

  /** A game of so many ticks, finished. */
  function FinishedGame(t: Texts, ticks: nat): seq<Bytes> {
    Session(t, ticks) + [t.finish]
  }

  function Higher(best: Option<Word>, score: Word): Option<Word> {
    if best.None? || score > best.value then Some(score) else best
  }

  lemma FinishRuns(hash: Hash, payloads: seq<Bytes>, t: Texts, s: Storage, g: Game, best: Option<Word>)
    requires Serves(t) && Playing(s, t, g) && Reached(hash, payloads, t.account, s, best)
    ensures Reached(hash, payloads + [t.finish], t.account, Step(hash, s, t.finish), Higher(best, g.score))
  {
    FinishServed(s, t, g);
    Onward(hash, payloads, t.account, s, best, t.finish);
  }

  /** A session that is played and finished in a run. */
  lemma GameRuns(hash: Hash, before: seq<Bytes>, t: Texts, s: Storage, best: Option<Word>, ticks: nat)
    returns (s1: Storage)
    requires Serves(t) && Load(s, t.x).None? && Reached(hash, before, t.account, s, best)
    ensures Played(s, s1, t, GameOf(t, ticks))
    ensures Reached(hash, before + FinishedGame(t, ticks), t.account, Step(hash, s1, t.finish),
                    Higher(best, GameOf(t, ticks).score))
  {
    var play := Session(t, ticks);
    s1 := SessionRuns(hash, before, t, s, best, ticks);
    FinishRuns(hash, before + play, t, s1, GameOf(t, ticks), best);
    assert before + (play + [t.finish]) == before + play + [t.finish];
  }

  lemma NoRecordYet(s: Storage, t: Texts, y: Bytes, g: Game)
    requires t.x != y && Played(map[], s, t, g)
    ensures BestKey(t.account) !in s && Load(s, y).None?
  {
    assert SameGame(map[], s, y);
  }

  lemma FinishElsewhere(hash: Hash, s: Storage, t: Texts, y: Bytes, g: Game)
    requires Serves(t) && t.x != y && Playing(s, t, g)
    ensures Load(Step(hash, s, t.finish), y) == Load(s, y)
  {
    FinishServed(s, t, g);
    StepTracks(hash, s, t.finish, y);
  }

  lemma FirstEnds(hash: Hash, s: Storage, t: Texts, y: Bytes, g: Game, s1: Storage)
    requires Serves(t) && t.x != y && Played(map[], s, t, g) && s1 == Step(hash, s, t.finish)
    ensures BestFrom(hash, s, s1, t, g) && Load(s1, y).None?
  {
    NoRecordYet(s, t, y, g);
    FirstFinish(hash, s, t, g);
    FinishElsewhere(hash, s, t, y, g);
  }

  /** After the account's first game its result is on record, and no other session is there. */
  lemma FirstGame(hash: Hash, t: Texts, y: Bytes, ticks: nat) returns (s: Storage, s1: Storage)
    requires Serves(t) && t.x != y && ticks <= 50
    ensures Reached(hash, FinishedGame(t, ticks), t.account, s1, Some(1001 * ticks))
    ensures BestFrom(hash, s, s1, t, GameOf(t, ticks)) && Load(s1, y).None?
  {
    var none: seq<Bytes> := [];
    GameScores(t, ticks);
    s := GameRuns(hash, none, t, map[], None, ticks);
    s1 := Step(hash, s, t.finish);
    assert none + FinishedGame(t, ticks) == FinishedGame(t, ticks);
    FirstEnds(hash, s, t, y, GameOf(t, ticks), s1);
  }
}
