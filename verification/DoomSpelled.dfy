// The DOOM service's keys and texts as they are stored, its defaults, and the rules of play,
// spelled out.
module DoomSpelled {
  import opened Bytes
  import opened Spelling
  import opened CText
  import opened TextAnswers
  import opened DoomState
  import opened DoomService
  import opened DoomRuns
  import opened Hexadecimal
  import Decimal

  // -------------------------------------------------------------------------- keys

  lemma KeysSpelled(session: Bytes, account: Bytes)
    ensures StateKey(session) == Ascii("doom:session:") + session + Ascii(":state")
    ensures MetaKey(session) == Ascii("doom:session:") + session + Ascii(":meta")
    ensures InputsKey(session) == Ascii("doom:session:") + session + Ascii(":inputs")
    ensures ResultKey(session) == Ascii("doom:session:") + session + Ascii(":result")
    ensures BestKey(account) == Ascii("doom:best:") + account
  {
    PrefixesSpelled();
    SuffixesSpelled();
  }

  lemma PrefixesSpelled()
    ensures SESSION_PREFIX == Ascii("doom:session:") && BEST_PREFIX == Ascii("doom:best:")
  {
  }

  lemma SuffixesSpelled()
    ensures STATE_SUFFIX == Ascii(":state") && META_SUFFIX == Ascii(":meta")
    ensures INPUTS_SUFFIX == Ascii(":inputs") && RESULT_SUFFIX == Ascii(":result")
  {
  }

  // ------------------------------------------------------------------------- names

  lemma SessionNamesSpelled()
    ensures SESSION_ID == Ascii("sessionId") && STATE_HASH == Ascii("stateHash")
  {
  }

  lemma MetaNamesSpelled()
    ensures ACCOUNT == Ascii("account") && MAP == Ascii("map") && DIFFICULTY == Ascii("difficulty")
  {
  }

  lemma VersionNamesSpelled()
    ensures RULESET == Ascii("rulesetVersion") && RUNTIME == Ascii("runtimeVersion")
  {
  }

  lemma RequestNamesSpelled()
    ensures VERSION == Ascii("version") && OP == Ascii("op") && TICKS == Ascii("ticks")
  {
  }

  lemma OperationsSpelled()
    ensures CREATE == Ascii("create_session") && INPUT == Ascii("input")
    ensures EXECUTE == Ascii("execute") && FINISH == Ascii("finish")
  {
  }

  // ------------------------------------------------------------------------- texts

  lemma StateLabels()
    ensures Key([OPEN], SESSION_ID) + [QUOTE] == Ascii("{\"sessionId\":\"")
    ensures Key([QUOTE, COMMA], TICK) == Ascii("\",\"tick\":")
  {
  }

  lemma HashLabels()
    ensures Key([COMMA], STATE_HASH) + [QUOTE] + ZERO_X == Ascii(",\"stateHash\":\"0x")
    ensures [QUOTE] + Key([COMMA], HEALTH) == Ascii("\",\"health\":")
  {
  }

  lemma NumberLabels()
    ensures Key([COMMA], AMMO) == Ascii(",\"ammo\":") && Key([COMMA], KILLS) == Ascii(",\"kills\":")
  {
  }

  lemma ScoreLabels()
    ensures Key([COMMA], SCORE) == Ascii(",\"score\":") && Key([COMMA], COMPLETED) == Ascii(",\"completed\":")
    ensures Flag(true) == Ascii("true") && Flag(false) == Ascii("false") && [CLOSE] == Ascii("}")
  {
  }

  /** The stored game, as text. */
  lemma StateSpelled(session: Bytes, hash: Bytes, g: Game)
    ensures StateText(session, hash, g)
            == Ascii("{\"sessionId\":\"") + session + Ascii("\",\"tick\":") + Decimal.Print(g.tick)
               + Ascii(",\"stateHash\":\"0x") + hash + Ascii("\",\"health\":") + Decimal.Print(g.health)
               + Ascii(",\"ammo\":") + Decimal.Print(g.ammo) + Ascii(",\"kills\":") + Decimal.Print(g.kills)
               + Ascii(",\"score\":") + Decimal.Print(g.score)
               + Ascii(",\"completed\":") + Ascii(if g.completed then "true" else "false") + Ascii("}")
  {
    StateLabels();
    HashLabels();
    NumberLabels();
    ScoreLabels();
  }

  lemma MetaLabels()
    ensures Key([OPEN], ACCOUNT) + [QUOTE] == Ascii("{\"account\":\"")
    ensures Key([QUOTE, COMMA], MAP) + [QUOTE] == Ascii("\",\"map\":\"")
  {
  }

  lemma DifficultyLabel()
    ensures Key([QUOTE, COMMA], DIFFICULTY) + [QUOTE] == Ascii("\",\"difficulty\":\"")
  {
  }

  lemma RulesetLabel()
    ensures Key([QUOTE, COMMA], RULESET) == Ascii("\",\"rulesetVersion\":")
  {
  }

  lemma RuntimeLabel()
    ensures Key([COMMA], RUNTIME) + [QUOTE] == Ascii(",\"runtimeVersion\":\"") && [QUOTE, CLOSE] == Ascii("\"}")
  {
  }

  /** A session's stored metadata, as text. */
  lemma MetaSpelled(account: Bytes, m: Meta)
    ensures MetaText(account, m)
            == Ascii("{\"account\":\"") + account + Ascii("\",\"map\":\"") + m.level
               + Ascii("\",\"difficulty\":\"") + m.difficulty
               + Ascii("\",\"rulesetVersion\":") + Decimal.Print(m.ruleset)
               + Ascii(",\"runtimeVersion\":\"") + m.runtime + Ascii("\"}")
  {
    MetaLabels();
    DifficultyLabel();
    RulesetLabel();
    RuntimeLabel();
  }

  lemma ResultLabels()
    ensures Key([OPEN], SESSION_ID) + [QUOTE] == Ascii("{\"sessionId\":\"")
    ensures Key([QUOTE, COMMA], ACCOUNT) + [QUOTE] == Ascii("\",\"account\":\"")
  {
  }

  lemma DurationLabels()
    ensures Key([QUOTE, COMMA], SCORE) == Ascii("\",\"score\":")
    ensures Key([COMMA], DURATION) == Ascii(",\"durationTicks\":")
  {
  }

  lemma ResultHeadSpelled(session: Bytes, account: Bytes, g: Game)
    ensures ResultHead(session, account, g)
            == Ascii("{\"sessionId\":\"") + session + Ascii("\",\"account\":\"") + account
               + Ascii("\",\"score\":") + Decimal.Print(g.score) + Ascii(",\"kills\":") + Decimal.Print(g.kills)
               + Ascii(",\"durationTicks\":") + Decimal.Print(g.tick)
  {
    ResultLabels();
    DurationLabels();
    NumberLabels();
  }

  lemma TailLabels()
    ensures CompletedLiteral() == Ascii(",\"completed\":true") + Ascii(",\"finalStateHash\":\"0x")
  {
    CompletedLabel();
    FinalLabel();
  }

  lemma CompletedLabel()
    ensures Key([COMMA], COMPLETED) + TRUE == Ascii(",\"completed\":true")
  {
  }

  lemma FinalLabel()
    ensures Key([COMMA], FINAL_HASH) + [QUOTE] + ZERO_X == Ascii(",\"finalStateHash\":\"0x")
  {
  }

  lemma LevelLabels()
    ensures Key([QUOTE, COMMA], RUNTIME) + [QUOTE] == Ascii("\",\"runtimeVersion\":\"")
    ensures Key([COMMA], MAP) + [QUOTE] == Ascii(",\"map\":\"")
  {
  }

  /** A finished game's stored result, as text. */
  lemma ResultSpelled(session: Bytes, account: Bytes, g: Game, hash: Bytes, m: Meta)
    ensures ResultText(session, account, g, hash, m)
            == Ascii("{\"sessionId\":\"") + session + Ascii("\",\"account\":\"") + account
               + Ascii("\",\"score\":") + Decimal.Print(g.score) + Ascii(",\"kills\":") + Decimal.Print(g.kills)
               + Ascii(",\"durationTicks\":") + Decimal.Print(g.tick)
               + Ascii(",\"completed\":true") + Ascii(",\"finalStateHash\":\"0x") + hash
               + Ascii("\",\"runtimeVersion\":\"") + m.runtime
               + Ascii("\",\"rulesetVersion\":") + Decimal.Print(m.ruleset)
               + Ascii(",\"map\":\"") + m.level + Ascii("\",\"difficulty\":\"") + m.difficulty + Ascii("\"}")
  {
    ResultHeadSpelled(session, account, g);
    TailLabels();
    LevelLabels();
    DifficultyLabel();
    RulesetLabel();
    RuntimeLabel();
  }

  // ---------------------------------------------------------------------- requests

  /** A request is version 1 and names an operation, a session and an account, all shorter
      than their buffers. */
  lemma RequestsSpelled(payload: Bytes)
    ensures Decode(payload).Some?
            <==> && NumberValue(payload, Ascii("version"), 0) == 1
                 && StringValue(payload, Ascii("op"), 32) != []
                 && StringValue(payload, Ascii("sessionId"), 160) != []
                 && StringValue(payload, Ascii("account"), 160) != []
  {
    RequestNamesSpelled();
    SessionNamesSpelled();
    MetaNamesSpelled();
  }

  /** A session that is not there is created by its first such request, with a new game. */
  lemma CreateMakesNewGame(hash: Hash, s: Storage, payload: Bytes, session: Bytes)
    requires Decode(payload).Some? && Decode(payload).value.op == Ascii("create_session")
    requires Decode(payload).value.session == session
    ensures Load(s, session).Some? ==> Step(hash, s, payload) == s
    ensures Load(s, session).None? ==> StoresNewGame(Step(hash, s, payload), session)
  {
    OperationsSpelled();
    if Load(s, session).None? {
      var e := EventOf(s, payload);
      assert e.Created? && e.session == session;
      NewGameStored(hash, s, session, e.account, e.meta);
    }
  }

  ghost predicate StoresNewGame(s: Storage, session: Bytes) {
    StateKey(session) in s
    && exists digest: Bytes ::
         |digest| == 64 && s[StateKey(session)] == StateText(session, digest, Game(0, 100, 50, 0, 0, false))
  }

  lemma NewGameStored(hash: Hash, s: Storage, session: Bytes, account: Bytes, meta: Option<Meta>)
    ensures StoresNewGame(AfterCreate(hash, s, session, account, meta), session)
  {
    SessionKeysDiffer(session, session);
    var digest := Hex(hash(session, NEW_GAME));
    assert AfterCreate(hash, s, session, account, meta)[StateKey(session)] == StateText(session, digest, NEW_GAME);
  }

  /** Nobody but the owner acts on a session, and on none that is not there. */
  lemma OnlyOwnersAct(hash: Hash, s: Storage, payload: Bytes)
    requires Decode(payload).Some? && Decode(payload).value.op != Ascii("create_session")
    requires var r := Decode(payload).value; Load(s, r.session).None? || !Owns(s, r.session, r.account)
    ensures EventOf(s, payload) == Nothing && Step(hash, s, payload) == s
  {
    OperationsSpelled();
  }

  lemma OperationTicks(s: Storage, op: Bytes, session: Bytes, account: Bytes, game: Game, payload: Bytes)
    ensures var e := Operation(s, op, session, account, game, payload);
            e.Executed? ==> e.session == session && e.game == game && e.ticks == NumberValue(payload, TICKS, 0)
  {
  }

  /** An execution plays the ticks that the request gives, and none when it gives none, on the
      game that is stored. */
  lemma ExecutionSpelled(s: Storage, payload: Bytes)
    ensures var e := EventOf(s, payload);
            e.Executed? ==>
              Load(s, e.session) == Some(e.game) && e.ticks == NumberValue(payload, Ascii("ticks"), 0)
              && ((forall i: nat :: !NamedAt(payload, Ascii("ticks"), i)) ==> e.ticks == 0)
  {
    RequestNamesSpelled();
    if Decode(payload).Some? {
      var Request(op, session, account) := Decode(payload).value;
      if Load(s, session).Some? {
        OperationTicks(s, op, session, account, Load(s, session).value, payload);
      }
    }
    if forall i: nat :: !NamedAt(payload, Ascii("ticks"), i) {
      NumberFallback(payload, Ascii("ticks"), 0);
    }
  }

  /** Metadata is stored for a request with a map and a difficulty, with its texts and its
      ruleset, which is 1 when it gives none. */
  lemma RequestedSpelled(payload: Bytes)
    ensures RequestedMeta(payload).Some?
            <==> StringValue(payload, Ascii("map"), 64) != [] && StringValue(payload, Ascii("difficulty"), 64) != []
    ensures RequestedMeta(payload).Some? ==>
              RequestedMeta(payload).value
              == Meta(Field(payload, Ascii("map"), 64), Field(payload, Ascii("difficulty"), 64),
                      NumberValue(payload, Ascii("rulesetVersion"), 1), Field(payload, Ascii("runtimeVersion"), 96))
  {
    MetaNamesSpelled();
    VersionNamesSpelled();
  }

  lemma ReadMetaSpelled(text: Bytes)
    ensures ReadMeta(text)
            == Meta(Field(text, Ascii("map"), 96), Field(text, Ascii("difficulty"), 96),
                    NumberValue(text, Ascii("rulesetVersion"), 1), Field(text, Ascii("runtimeVersion"), 96))
  {
    MetaNamesSpelled();
    VersionNamesSpelled();
  }

  // -------------------------------------------------------------------------- play

  /** A tick counts; forward scores 1; backward costs 1 health; a shot takes 1 ammunition
      for 1 kill and 1000 points, while there is any; use gives 1 health below 100. */
  lemma TickSpelled(g: Game, c: Controls)
    ensures var shot := if c.fire && g.ammo > 0 then 1 else 0;
            var hurt := if c.backward && g.health > 0 then g.health - 1 else g.health;
            && Tick(g, c).tick == (g.tick + 1) % 0x1_0000_0000
            && Tick(g, c).ammo == g.ammo - shot
            && Tick(g, c).kills == (g.kills + shot) % 0x1_0000_0000
            && Tick(g, c).score == (g.score + (if c.forward then 1 else 0) + 1000 * shot) % 0x1_0000_0000
            && Tick(g, c).health == (if c.use && hurt < 100 then hurt + 1 else hurt)
            && Tick(g, c).completed == g.completed
  {
    WrapAdd(g.score + 1, 1000);
    WrapAdd(g.score, 1);
  }

  function Least(a: nat, b: nat): nat {
    if a < b then a else b
  }

  /** The health of a healthy game after `ticks` ticks under the same controls. */
  function HealthAfter(health: nat, c: Controls, ticks: nat): nat
    requires health <= 100
  {
    if c.backward && c.use then if ticks > 0 && health == 0 then 1 else health
    else if c.backward then health - Least(health, ticks)
    else if c.use then Least(100, health + ticks)
    else health
  }

  function Shots(g: Game, c: Controls, ticks: nat): nat {
    if c.fire then Least(g.ammo, ticks) else 0
  }

  /** A whole execution, in closed form: the shots end with the ammunition, and the counts
      wrap at 2^32. */
  lemma {:induction false} PlaySpelled(g: Game, c: Controls, ticks: nat)
    ensures Play(g, c, ticks).tick == (g.tick + ticks) % 0x1_0000_0000
    ensures Play(g, c, ticks).ammo == g.ammo - Shots(g, c, ticks)
    ensures Play(g, c, ticks).kills == (g.kills + Shots(g, c, ticks)) % 0x1_0000_0000
    ensures Play(g, c, ticks).completed == g.completed
  {
    if ticks > 0 {
      PlaySpelled(g, c, ticks - 1);
      TickSpelled(Play(g, c, ticks - 1), c);
      WrapAdd(g.tick + (ticks - 1), 1);
      WrapAdd(g.kills + Shots(g, c, ticks - 1), Shots(g, c, ticks) - Shots(g, c, ticks - 1));
    }
  }

  lemma ScoreStep(steps: nat, step: nat, shots: nat, shot: nat, was: Word, now: Word)
    requires was == (steps + 1000 * shots) % 0x1_0000_0000
    requires now == (was + step + 1000 * shot) % 0x1_0000_0000
    ensures now == (steps + step + 1000 * (shots + shot)) % 0x1_0000_0000
  {
    WrapAdd(steps + 1000 * shots, step + 1000 * shot);
  }

  /** Every forward tick scores 1 and every shot 1000. */
  lemma {:induction false} ScoreSpelled(g: Game, c: Controls, ticks: nat, forward: nat)
    requires forward == if c.forward then ticks else 0
    ensures Play(g, c, ticks).score == (g.score + forward + 1000 * Shots(g, c, ticks)) % 0x1_0000_0000
  {
    if ticks > 0 {
      var before := Play(g, c, ticks - 1);
      var walked := if c.forward then ticks - 1 else 0;
      ScoreSpelled(g, c, ticks - 1, walked);
      PlaySpelled(g, c, ticks - 1);
      TickSpelled(before, c);
      var shots := Shots(g, c, ticks - 1);
      var shot := if c.fire && before.ammo > 0 then 1 else 0;
      assert Shots(g, c, ticks) == shots + shot;
      ScoreStep(g.score + walked, forward - walked, shots, shot, before.score, Play(g, c, ticks).score);
    }
  }

  /** The health stops at 0 and at 100; backward and use together cancel out. */
  lemma {:induction false} HealthSpelled(g: Game, c: Controls, ticks: nat)
    requires g.health <= 100
    ensures Play(g, c, ticks).health == HealthAfter(g.health, c, ticks)
  {
    if ticks > 0 {
      HealthSpelled(g, c, ticks - 1);
      TickSpelled(Play(g, c, ticks - 1), c);
    }
  }
}
