// The DOOM service: its storage keys, its texts, and dispatch, the one entry that creates
// sessions, queues input, executes ticks and finishes games.
module DoomService {
  import opened Bytes
  import opened CText
  import opened DoomState
  import opened Hexadecimal
  import Decimal

  type Storage = map<Bytes, Bytes>

  // ----------------------------------------------------------------------- keys

  const SESSION_PREFIX: Bytes := [100, 111, 111, 109, 58, 115, 101, 115, 115, 105, 111, 110, 58]
  const BEST_PREFIX: Bytes := [100, 111, 111, 109, 58, 98, 101, 115, 116, 58]
  const STATE_SUFFIX: Bytes := [58, 115, 116, 97, 116, 101]
  const META_SUFFIX: Bytes := [58, 109, 101, 116, 97]
  const INPUTS_SUFFIX: Bytes := [58, 105, 110, 112, 117, 116, 115]
  const RESULT_SUFFIX: Bytes := [58, 114, 101, 115, 117, 108, 116]

  function StateKey(session: Bytes): Bytes { SESSION_PREFIX + session + STATE_SUFFIX }
  function MetaKey(session: Bytes): Bytes { SESSION_PREFIX + session + META_SUFFIX }
  function InputsKey(session: Bytes): Bytes { SESSION_PREFIX + session + INPUTS_SUFFIX }
  function ResultKey(session: Bytes): Bytes { SESSION_PREFIX + session + RESULT_SUFFIX }
  function BestKey(account: Bytes): Bytes { BEST_PREFIX + account }

  lemma SessionKeysDiffer(a: Bytes, b: Bytes)
    ensures StateKey(a) != MetaKey(b) && StateKey(a) != InputsKey(b) && StateKey(a) != ResultKey(b)
    ensures MetaKey(a) != InputsKey(b) && MetaKey(a) != ResultKey(b) && InputsKey(a) != ResultKey(b)
  {
    var s, m, i, r := StateKey(a), MetaKey(b), InputsKey(b), ResultKey(b);
    assert s[|s| - 1] == 101 && m[|m| - 1] == 97 && i[|i| - 1] == 115 && r[|r| - 1] == 116;
    assert MetaKey(a)[|MetaKey(a)| - 1] == 97 && InputsKey(a)[|InputsKey(a)| - 1] == 115;
  }

  lemma BestKeyDiffers(session: Bytes, account: Bytes)
    ensures BestKey(account) != StateKey(session) && BestKey(account) != MetaKey(session)
    ensures BestKey(account) != InputsKey(session) && BestKey(account) != ResultKey(session)
  {
    assert BestKey(account)[5] == 98;
    assert StateKey(session)[5] == 115 && MetaKey(session)[5] == 115;
    assert InputsKey(session)[5] == 115 && ResultKey(session)[5] == 115;
  }

  lemma SameKeySameOwner(a: Bytes, b: Bytes)
    ensures StateKey(a) == StateKey(b) <==> a == b
    ensures MetaKey(a) == MetaKey(b) <==> a == b
    ensures BestKey(a) == BestKey(b) <==> a == b
  {
    assert StateKey(a)[13..|StateKey(a)| - 6] == a && StateKey(b)[13..|StateKey(b)| - 6] == b;
    assert MetaKey(a)[13..|MetaKey(a)| - 5] == a && MetaKey(b)[13..|MetaKey(b)| - 5] == b;
    assert BestKey(a)[10..] == a && BestKey(b)[10..] == b;
  }

  /** minijam_storage_read into a buffer: fails on a missing key or a longer value. */
  function Read(s: Storage, key: Bytes, capacity: nat): Option<Bytes> {
    if key in s && |s[key]| <= capacity then Some(s[key]) else None
  }

  const VALUE_MAX := 8192
  const META_MAX := 512

  // ---------------------------------------------------------------------- texts

  const ACCOUNT: Bytes := [97, 99, 99, 111, 117, 110, 116]
  const MAP: Bytes := [109, 97, 112]
  const DIFFICULTY: Bytes := [100, 105, 102, 102, 105, 99, 117, 108, 116, 121]
  const RULESET: Bytes := [114, 117, 108, 101, 115, 101, 116, 86, 101, 114, 115, 105, 111, 110]
  const RUNTIME: Bytes := [114, 117, 110, 116, 105, 109, 101, 86, 101, 114, 115, 105, 111, 110]
  const DURATION: Bytes := [100, 117, 114, 97, 116, 105, 111, 110, 84, 105, 99, 107, 115]
  const FINAL_HASH: Bytes := [102, 105, 110, 97, 108, 83, 116, 97, 116, 101, 72, 97, 115, 104]

  /** What is stored about a session beside its state. */
  datatype Meta = Meta(level: Bytes, difficulty: Bytes, ruleset: Word, runtime: Bytes)

  function MetaHead(account: Bytes, level: Bytes): Bytes {
    Key([OPEN], ACCOUNT) + [QUOTE] + account + (Key([QUOTE, COMMA], MAP) + [QUOTE]) + level
  }

  function MetaText(account: Bytes, m: Meta): Bytes {
    MetaHead(account, m.level)
    + (Key([QUOTE, COMMA], DIFFICULTY) + [QUOTE]) + m.difficulty
    + Key([QUOTE, COMMA], RULESET) + Decimal.Print(m.ruleset)
    + (Key([COMMA], RUNTIME) + [QUOTE]) + m.runtime + [QUOTE, CLOSE]
  }

  function ResultNames(session: Bytes, account: Bytes): Bytes {
    Key([OPEN], SESSION_ID) + [QUOTE] + session + (Key([QUOTE, COMMA], ACCOUNT) + [QUOTE]) + account
  }

  function ResultHead(session: Bytes, account: Bytes, g: Game): Bytes {
    ResultNames(session, account)
    + Key([QUOTE, COMMA], SCORE) + Decimal.Print(g.score)
    + Key([COMMA], KILLS) + Decimal.Print(g.kills)
    + Key([COMMA], DURATION) + Decimal.Print(g.tick)
  }

  function ResultText(session: Bytes, account: Bytes, g: Game, hash: Bytes, m: Meta): Bytes {
    ResultHead(session, account, g)
    + CompletedLiteral() + hash
    + (Key([QUOTE, COMMA], RUNTIME) + [QUOTE]) + m.runtime
    + Key([QUOTE, COMMA], RULESET) + Decimal.Print(m.ruleset)
    + (Key([COMMA], MAP) + [QUOTE]) + m.level
    + (Key([QUOTE, COMMA], DIFFICULTY) + [QUOTE]) + m.difficulty + [QUOTE, CLOSE]
  }

  /** A C string field of a text, as its buffer holds it. */
  function Field(text: Bytes, name: Bytes, capacity: nat): (r: Bytes)
    ensures 0 !in r
  {
    CString(StringValue(text, name, capacity))
  }

  /** What finish reads of the stored metadata; missing fields become empty. */
  function ReadMeta(text: Bytes): Meta {
    Meta(Field(text, MAP, 96), Field(text, DIFFICULTY, 96), NumberValue(text, RULESET, 1), Field(text, RUNTIME, 96))
  }

  // ------------------------------------------------------------------- requests

  const VERSION: Bytes := [118, 101, 114, 115, 105, 111, 110]
  const OP: Bytes := [111, 112]
  const TICKS: Bytes := [116, 105, 99, 107, 115]
  const CREATE: Bytes := [99, 114, 101, 97, 116, 101, 95, 115, 101, 115, 115, 105, 111, 110]
  const INPUT: Bytes := [105, 110, 112, 117, 116]
  const EXECUTE: Bytes := [101, 120, 101, 99, 117, 116, 101]
  const FINISH: Bytes := [102, 105, 110, 105, 115, 104]
  const FORWARD: Bytes := [102, 111, 114, 119, 97, 114, 100]
  const BACKWARD: Bytes := [98, 97, 99, 107, 119, 97, 114, 100]
  const FIRE: Bytes := [102, 105, 114, 101]
  const USE: Bytes := [117, 115, 101]

  datatype Request = Request(op: Bytes, session: Bytes, account: Bytes)

  function Decode(payload: Bytes): (r: Option<Request>)
  {
    if NumberValue(payload, VERSION, 0) != 1 || StringValue(payload, OP, 32) == []
       || StringValue(payload, SESSION_ID, ID_CAPACITY) == [] || StringValue(payload, ACCOUNT, ID_CAPACITY) == []
    then None
    else Some(Request(Field(payload, OP, 32), Field(payload, SESSION_ID, ID_CAPACITY),
                      Field(payload, ACCOUNT, ID_CAPACITY)))
  }

  /** The metadata of a create request; none without a map and a difficulty. */
  function RequestedMeta(payload: Bytes): Option<Meta> {
    if StringValue(payload, MAP, 64) == [] || StringValue(payload, DIFFICULTY, 64) == [] then None
    else Some(Meta(Field(payload, MAP, 64), Field(payload, DIFFICULTY, 64), NumberValue(payload, RULESET, 1),
                   Field(payload, RUNTIME, 96)))
  }

  lemma FieldFits(text: Bytes, name: Bytes, capacity: nat)
    requires capacity > 0
    ensures |Field(text, name, capacity)| < capacity
  {
    match AfterName(text, name)
    case None =>
    case Some(s) =>
      var t := SkipSeparators(s);
      if t != [] && t[0] == QUOTE {
        UnquoteFits(t[1..], capacity, []);
      }
  }

  // ----------------------------------------------------------------------- play

  datatype Controls = Controls(forward: bool, backward: bool, fire: bool, use: bool)

  function Mentions(inputs: Option<Bytes>, word: Bytes): bool {
    inputs.Some? && IndexOf(CString(inputs.value), word).Some?
  }

  /** The controls held, by substring search over the queued input. */
  function Held(inputs: Option<Bytes>): Controls {
    Controls(Mentions(inputs, FORWARD), Mentions(inputs, BACKWARD), Mentions(inputs, FIRE), Mentions(inputs, USE))
  }

  function Wrap(n: int): Word {
    n % U32_LIMIT
  }

  function Fired(g: Game): Game {
    if g.ammo > 0
    then g.(ammo := g.ammo - 1, kills := Wrap(g.kills + 1), score := Wrap(g.score + 1000))
    else g
  }

  /** The first half of a tick: the tick count, forward and backward. */
  function Moved(g: Game, c: Controls): Game {
    var g1 := g.(tick := Wrap(g.tick + 1));
    var g2 := if c.forward then g1.(score := Wrap(g1.score + 1)) else g1;
    if c.backward && g2.health > 0 then g2.(health := g2.health - 1) else g2
  }

  /** The second half: fire and use. */
  function Acted(g: Game, c: Controls): Game {
    var g1 := if c.fire then Fired(g) else g;
    if c.use && g1.health < 100 then g1.(health := g1.health + 1) else g1
  }

  /** One tick under the controls held, in 32-bit arithmetic. */
  function Tick(g: Game, c: Controls): Game {
    Acted(Moved(g, c), c)
  }

  function Play(g: Game, c: Controls, ticks: nat): Game {
    if ticks == 0 then g else Tick(Play(g, c, ticks - 1), c)
  }

  const NEW_GAME := Game(0, 100, 50, 0, 0, false)

  // --------------------------------------------------------------------- effects

  function Load(s: Storage, session: Bytes): Option<Game> {
    match Read(s, StateKey(session), VALUE_MAX - 1)
    case None => None
    case Some(text) => Some(ReadState(text))
  }

  function Saved(hash: Hash, s: Storage, session: Bytes, g: Game): Storage {
    s[StateKey(session) := StateText(session, Hex(hash(session, g)), g)]
  }

  predicate Owns(s: Storage, session: Bytes, account: Bytes) {
    var meta := Read(s, MetaKey(session), META_MAX - 1);
    meta.Some?
    && StringValue(meta.value, ACCOUNT, ID_CAPACITY) != []
    && Field(meta.value, ACCOUNT, ID_CAPACITY) == account
  }

  function MetaOf(s: Storage, session: Bytes): Bytes {
    var meta := Read(s, MetaKey(session), META_MAX - 1);
    if meta.Some? then meta.value else []
  }

  function InputsOf(s: Storage, session: Bytes): Option<Bytes> {
    Read(s, InputsKey(session), VALUE_MAX - 1)
  }

  lemma SavedKeepsMeta(hash: Hash, s: Storage, session: Bytes, g: Game)
    ensures MetaOf(Saved(hash, s, session, g), session) == MetaOf(s, session)
  {
    SessionKeysDiffer(session, session);
  }

  /** What one request does, with the values it read. */
  datatype Event =
    | Nothing
    | Created(session: Bytes, account: Bytes, meta: Option<Meta>)
    | Queued(session: Bytes, input: Bytes)
    | Executed(session: Bytes, game: Game, ticks: Word, controls: Controls)
    | Finished(session: Bytes, account: Bytes, game: Game, stored: Meta)

  /** The three operations of a session's owner. */
  function Operation(s: Storage, op: Bytes, session: Bytes, account: Bytes, game: Game, payload: Bytes): Event {
    if op == INPUT then Queued(session, payload)
    else if op == EXECUTE then
      Executed(session, game, NumberValue(payload, TICKS, 0), Held(InputsOf(s, session)))
    else if op == FINISH then Finished(session, account, game, ReadMeta(MetaOf(s, session)))
    else Nothing
  }

  function Served(s: Storage, request: Request, payload: Bytes): Event {
    var Request(op, session, account) := request;
    var game := Load(s, session);
    if op == CREATE then
      if game.Some? then Nothing else Created(session, account, RequestedMeta(payload))
    else if !Owns(s, session, account) || game.None? then Nothing
    else Operation(s, op, session, account, game.value, payload)
  }

  function EventOf(s: Storage, payload: Bytes): Event {
    match Decode(payload)
    case None => Nothing
    case Some(request) => Served(s, request, payload)
  }

  function PreviousBest(best: Option<Bytes>): Word {
    if best.None? then 0 else NumberValue(best.value, SCORE, 0)
  }

  /** A result replaces the account's best when it is higher, or when there was none. */
  predicate Beats(score: Word, best: Option<Bytes>) {
    score > PreviousBest(best) || best.None? || best.value == []
  }

  function Recorded(s: Storage, session: Bytes, account: Bytes, score: Word, result: Bytes): Storage {
    var s1 := s[ResultKey(session) := result];
    if Beats(score, Read(s1, BestKey(account), VALUE_MAX - 1)) then s1[BestKey(account) := result] else s1
  }

  function AfterCreate(hash: Hash, s: Storage, session: Bytes, account: Bytes, meta: Option<Meta>): Storage {
    var s1 := Saved(hash, s, session, NEW_GAME);
    if meta.None? then s1 else s1[MetaKey(session) := MetaText(account, meta.value)]
  }

  function AfterExecute(hash: Hash, s: Storage, session: Bytes, g: Game): Storage {
    Saved(hash, s - {InputsKey(session)}, session, g)
  }

  function AfterFinish(hash: Hash, s: Storage, session: Bytes, account: Bytes, g: Game, stored: Meta): Storage {
    Recorded(Saved(hash, s, session, g), session, account, g.score,
             ResultText(session, account, g, Hex(hash(session, g)), stored))
  }

  function Apply(hash: Hash, s: Storage, e: Event): Storage {
    match e
    case Nothing => s
    case Created(session, account, meta) => AfterCreate(hash, s, session, account, meta)
    case Queued(session, input) => s[InputsKey(session) := input]
    case Executed(session, game, ticks, controls) =>
      AfterExecute(hash, s, session, Play(game, controls, ticks))
    case Finished(session, account, game, stored) =>
      AfterFinish(hash, s, session, account, game.(completed := true), stored)
  }

  lemma ExecuteApplies(hash: Hash, s: Storage, session: Bytes, account: Bytes, game: Game, payload: Bytes)
    ensures Apply(hash, s, Operation(s, EXECUTE, session, account, game, payload))
            == AfterExecute(hash, s, session,
                            Play(game, Held(InputsOf(s, session)), NumberValue(payload, TICKS, 0)))
  {
    assert INPUT[0] != EXECUTE[0];
  }

  lemma FinishApplies(hash: Hash, s: Storage, session: Bytes, account: Bytes, game: Game, payload: Bytes)
    ensures Apply(hash, s, Operation(s, FINISH, session, account, game, payload))
            == AfterFinish(hash, s, session, account, game.(completed := true), ReadMeta(MetaOf(s, session)))
  {
    assert INPUT[0] != FINISH[0] && EXECUTE[0] != FINISH[0];
  }

  /** One accumulated request. */
  function Step(hash: Hash, s: Storage, payload: Bytes): Storage {
    Apply(hash, s, EventOf(s, payload))
  }

  // ------------------------------------------------------------------- the service

  class Service {
    var storage: Storage
    const hash: Hash

    constructor (hash: Hash)
      ensures storage == map[] && this.hash == hash
    {
      storage := map[];
      this.hash := hash;
    }

    /** load_state: five number lookups and a search for the completion flag. */
    method LoadState(session: Bytes) returns (g: Option<Game>)
      ensures g == Load(storage, session)
    {
      var text := Read(storage, StateKey(session), VALUE_MAX - 1);
      if text.None? { return None; }
      var tick := ScanNumber(text.value, TICK, 0);
      var health := ScanNumber(text.value, HEALTH, 100);
      var ammo := ScanNumber(text.value, AMMO, 50);
      var kills := ScanNumber(text.value, KILLS, 0);
      var score := ScanNumber(text.value, SCORE, 0);
      var flag := StrStr(CString(text.value), Quoted(COMPLETED) + ([COLON] + TRUE));
      return Some(Game(tick, health, ammo, kills, score, flag.Some?));
    }

    method SaveState(session: Bytes, g: Game)
      requires 0 !in session && |session| < ID_CAPACITY
      modifies this
      ensures storage == Saved(hash, old(storage), session, g)
    {
      var digits := Hex32(hash(session, g));
      HexLacks(hash(session, g), QUOTE);
      HexLacks(hash(session, g), 0);
      var text, size := PrintState(session, digits[..64], g);
      storage := storage[StateKey(session) := text[..size]];
    }

    /** session_owner_matches. */
    method OwnerMatches(session: Bytes, account: Bytes) returns (r: bool)
      ensures r == Owns(storage, session, account)
    {
      var meta := Read(storage, MetaKey(session), META_MAX - 1);
      if meta.None? { return false; }
      var owner := ScanString(meta.value, ACCOUNT, ID_CAPACITY);
      return owner != [] && CString(owner) == account;
    }

    method Mentioned(inputs: Option<Bytes>, word: Bytes) returns (r: bool)
      requires 0 !in word
      ensures r == Mentions(inputs, word)
    {
      if inputs.None? { return false; }
      var at := StrStr(CString(inputs.value), word);
      return at.Some?;
    }

    /** The body of the tick loop. */
    method RunTick(start: Game, inputs: Option<Bytes>) returns (g: Game)
      ensures g == Tick(start, Held(inputs))
    {
      g := RunMoves(start, inputs);
      g := RunActions(g, inputs);
    }

    method RunMoves(start: Game, inputs: Option<Bytes>) returns (g: Game)
      ensures g == Moved(start, Held(inputs))
    {
      g := start.(tick := Wrap(start.tick + 1));
      var forward := Mentioned(inputs, FORWARD);
      if forward { g := g.(score := Wrap(g.score + 1)); }
      var backward := Mentioned(inputs, BACKWARD);
      if backward && g.health > 0 { g := g.(health := g.health - 1); }
    }

    method RunActions(start: Game, inputs: Option<Bytes>) returns (g: Game)
      ensures g == Acted(start, Held(inputs))
    {
      g := start;
      var fire := Mentioned(inputs, FIRE);
      if fire && g.ammo > 0 {
        g := g.(ammo := g.ammo - 1, kills := Wrap(g.kills + 1), score := Wrap(g.score + 1000));
      }
      var use := Mentioned(inputs, USE);
      if use { g := g.(health := if g.health < 100 then g.health + 1 else g.health); }
    }

    /** The tick loop of execute. */
    method RunTicks(start: Game, inputs: Option<Bytes>, ticks: Word) returns (g: Game)
      ensures g == Play(start, Held(inputs), ticks)
    {
      g := start;
      var i := 0;
      while i < ticks
        invariant 0 <= i <= ticks && g == Play(start, Held(inputs), i)
      {
        g := RunTick(g, inputs);
        i := i + 1;
      }
    }

    method ReadRequest(payload: Bytes) returns (r: Option<Request>)
      ensures r == Decode(payload)
    {
      var version := ScanNumber(payload, VERSION, 0);
      if version != 1 { return None; }
      var op := ScanString(payload, OP, 32);
      if op == [] { return None; }
      var session := ScanString(payload, SESSION_ID, ID_CAPACITY);
      if session == [] { return None; }
      var account := ScanString(payload, ACCOUNT, ID_CAPACITY);
      if account == [] { return None; }
      return Some(Request(CString(op), CString(session), CString(account)));
    }

    method ReadRequestedMeta(payload: Bytes) returns (r: Option<Meta>)
      ensures r == RequestedMeta(payload)
    {
      var level := ScanString(payload, MAP, 64);
      if level == [] { return None; }
      var difficulty := ScanString(payload, DIFFICULTY, 64);
      if difficulty == [] { return None; }
      var runtime := ScanString(payload, RUNTIME, 96);
      var ruleset := ScanNumber(payload, RULESET, 1);
      return Some(Meta(CString(level), CString(difficulty), ruleset, CString(runtime)));
    }

    method Create(session: Bytes, account: Bytes, payload: Bytes)
      requires 0 !in session && |session| < ID_CAPACITY && 0 !in account && |account| < ID_CAPACITY
      modifies this
      ensures storage == AfterCreate(hash, old(storage), session, account, RequestedMeta(payload))
    {
      SaveState(session, NEW_GAME);
      var meta := ReadRequestedMeta(payload);
      if meta.Some? {
        RequestedMetaFits(payload);
        var text, size := PrintMeta(account, meta.value);
        storage := storage[MetaKey(session) := text[..size]];
      }
    }

    method Execute(session: Bytes, game: Game, payload: Bytes)
      requires 0 !in session && |session| < ID_CAPACITY
      modifies this
      ensures storage == AfterExecute(hash, old(storage), session,
                                      Play(game, Held(InputsOf(old(storage), session)), NumberValue(payload, TICKS, 0)))
    {
      var ticks := ScanNumber(payload, TICKS, 0);
      var inputs := InputsOf(storage, session);
      var g := RunTicks(game, inputs, ticks);
      storage := storage - {InputsKey(session)};
      SaveState(session, g);
    }

    method Finish(session: Bytes, account: Bytes, game: Game)
      requires 0 !in session && |session| < ID_CAPACITY && 0 !in account && |account| < ID_CAPACITY
      modifies this
      ensures storage == AfterFinish(hash, old(storage), session, account, game.(completed := true),
                                     ReadMeta(MetaOf(old(storage), session)))
    {
      var g := game.(completed := true);
      SaveState(session, g);
      SavedKeepsMeta(hash, old(storage), session, g);
      var stored := ReadStored(MetaOf(storage, session));
      ReadMetaFits(MetaOf(storage, session));
      var digits := Hex32(hash(session, g));
      HexLacks(hash(session, g), QUOTE);
      HexLacks(hash(session, g), 0);
      var text, size := PrintResult(session, account, g, digits[..64], stored);
      Record(session, account, g.score, text[..size]);
    }

    method ReadStored(text: Bytes) returns (m: Meta)
      ensures m == ReadMeta(text)
    {
      var runtime := ScanString(text, RUNTIME, 96);
      var level := ScanString(text, MAP, 96);
      var ruleset := ScanNumber(text, RULESET, 1);
      var difficulty := ScanString(text, DIFFICULTY, 96);
      return Meta(CString(level), CString(difficulty), ruleset, CString(runtime));
    }

    /** The end of finish: the result is stored, and kept as the account's best. */
    method Record(session: Bytes, account: Bytes, score: Word, result: Bytes)
      modifies this
      ensures storage == Recorded(old(storage), session, account, score, result)
    {
      storage := storage[ResultKey(session) := result];
      var previous, size := 0, 0;
      var best := Read(storage, BestKey(account), VALUE_MAX - 1);
      if best.Some? {
        size := |best.value|;
        previous := ScanNumber(best.value, SCORE, 0);
      }
      if score > previous || size == 0 {
        storage := storage[BestKey(account) := result];
      }
    }

    /** dispatch. */
    method Dispatch(payload: Bytes)
      modifies this
      ensures storage == Step(hash, old(storage), payload)
    {
      var request := ReadRequest(payload);
      if request.None? { return; }
      FieldFits(payload, SESSION_ID, ID_CAPACITY);
      FieldFits(payload, ACCOUNT, ID_CAPACITY);
      Serve(request.value, payload);
    }

    method Serve(request: Request, payload: Bytes)
      requires 0 !in request.session && |request.session| < ID_CAPACITY
      requires 0 !in request.account && |request.account| < ID_CAPACITY
      modifies this
      ensures storage == Apply(hash, old(storage), Served(old(storage), request, payload))
    {
      var Request(op, session, account) := request;
      if op == CREATE {
        var existing := LoadState(session);
        if existing.None? {
          Create(session, account, payload);
        }
        return;
      }
      var owner := OwnerMatches(session, account);
      if !owner { return; }
      var game := LoadState(session);
      if game.None? { return; }
      Operate(op, session, account, game.value, payload);
    }

    method Operate(op: Bytes, session: Bytes, account: Bytes, game: Game, payload: Bytes)
      requires 0 !in session && |session| < ID_CAPACITY && 0 !in account && |account| < ID_CAPACITY
      modifies this
      ensures storage == Apply(hash, old(storage), Operation(old(storage), op, session, account, game, payload))
    {
      ghost var before := storage;
      if op == INPUT {
        storage := storage[InputsKey(session) := payload];
        assert Operation(before, op, session, account, game, payload) == Queued(session, payload);
      } else if op == EXECUTE {
        Execute(session, game, payload);
        ExecuteApplies(hash, before, session, account, game, payload);
      } else if op == FINISH {
        Finish(session, account, game);
        FinishApplies(hash, before, session, account, game, payload);
      }
    }
  }

  // ------------------------------------------------------------------- printing

  predicate MetaFits(m: Meta) {
    0 !in m.level && 0 !in m.difficulty && 0 !in m.runtime
    && |m.level| < 96 && |m.difficulty| < 96 && |m.runtime| < 96
  }

  lemma RequestedMetaFits(payload: Bytes)
    ensures var r := RequestedMeta(payload);
            r.Some? ==> MetaFits(r.value) && |r.value.level| < 64 && |r.value.difficulty| < 64
  {
    FieldFits(payload, MAP, 64);
    FieldFits(payload, DIFFICULTY, 64);
    FieldFits(payload, RUNTIME, 96);
  }

  lemma ReadMetaFits(text: Bytes)
    ensures MetaFits(ReadMeta(text))
  {
    FieldFits(text, MAP, 96);
    FieldFits(text, DIFFICULTY, 96);
    FieldFits(text, RUNTIME, 96);
  }

  lemma MetaKeysAreText()
    ensures 0 !in Key([OPEN], ACCOUNT) && 0 !in Key([QUOTE, COMMA], MAP) && 0 !in Key([QUOTE, COMMA], DIFFICULTY)
    ensures 0 !in Key([QUOTE, COMMA], RULESET) && 0 !in Key([COMMA], RUNTIME)
    ensures |Key([OPEN], ACCOUNT)| == 11 && |Key([QUOTE, COMMA], MAP)| == 8
    ensures |Key([QUOTE, COMMA], DIFFICULTY)| == 15 && |Key([QUOTE, COMMA], RULESET)| == 19
    ensures |Key([COMMA], RUNTIME)| == 18
  {
  }

  method PrintMetaHead(output: array<Byte>, account: Bytes, level: Bytes) returns (r: nat)
    requires 0 !in account && |account| < ID_CAPACITY && 0 !in level && |level| < 64 && output.Length == META_MAX
    modifies output
    ensures r == |MetaHead(account, level)| <= 250 && output[..r] == MetaHead(account, level)
  {
    MetaKeysAreText();
    r := AppendString(output, 0, Key([OPEN], ACCOUNT) + [QUOTE], account);
    r := AppendString(output, r, Key([QUOTE, COMMA], MAP) + [QUOTE], level);
  }

  /** The metadata of a create request fits its 512-byte buffer. */
  method PrintMeta(account: Bytes, m: Meta) returns (output: array<Byte>, r: nat)
    requires 0 !in account && |account| < ID_CAPACITY && MetaFits(m) && |m.level| < 64 && |m.difficulty| < 64
    ensures fresh(output) && output.Length == META_MAX && r < META_MAX - 1
    ensures output[..r] == MetaText(account, m) && output[r] == 0
  {
    output := new Byte[512];
    MetaKeysAreText();
    r := PrintMetaHead(output, account, m.level);
    r := AppendFitting(output, r, Key([QUOTE, COMMA], DIFFICULTY) + [QUOTE]);
    r := AppendFitting(output, r, m.difficulty);
    r := AppendField(output, r, Key([QUOTE, COMMA], RULESET), m.ruleset);
    r := AppendFitting(output, r, Key([COMMA], RUNTIME) + [QUOTE]);
    r := AppendFitting(output, r, m.runtime);
    r := AppendFitting(output, r, [QUOTE, CLOSE]);
  }

  lemma ResultKeysAreText()
    ensures 0 !in Key([OPEN], SESSION_ID) && 0 !in Key([QUOTE, COMMA], ACCOUNT) && 0 !in Key([QUOTE, COMMA], SCORE)
    ensures 0 !in Key([COMMA], KILLS) && 0 !in Key([COMMA], DURATION)
    ensures |Key([OPEN], SESSION_ID)| == 13 && |Key([QUOTE, COMMA], ACCOUNT)| == 12
    ensures |Key([QUOTE, COMMA], SCORE)| == 10 && |Key([COMMA], KILLS)| == 9 && |Key([COMMA], DURATION)| == 17
  {
  }

  method PrintResultNames(output: array<Byte>, session: Bytes, account: Bytes) returns (r: nat)
    requires 0 !in session && |session| < ID_CAPACITY && 0 !in account && |account| < ID_CAPACITY
    requires output.Length == 1024
    modifies output
    ensures r <= 345 && output[..r] == ResultNames(session, account)
  {
    ResultKeysAreText();
    r := AppendString(output, 0, Key([OPEN], SESSION_ID) + [QUOTE], session);
    r := AppendString(output, r, Key([QUOTE, COMMA], ACCOUNT) + [QUOTE], account);
  }

  method PrintResultHead(output: array<Byte>, session: Bytes, account: Bytes, g: Game) returns (r: nat)
    requires 0 !in session && |session| < ID_CAPACITY && 0 !in account && |account| < ID_CAPACITY
    requires output.Length == 1024
    modifies output
    ensures r < 450 && output[..r] == ResultHead(session, account, g) && output[r] == 0
  {
    ResultKeysAreText();
    r := PrintResultNames(output, session, account);
    r := AppendField(output, r, Key([QUOTE, COMMA], SCORE), g.score);
    r := AppendField(output, r, Key([COMMA], KILLS), g.kills);
    r := AppendField(output, r, Key([COMMA], DURATION), g.tick);
  }

  function CompletedLiteral(): Bytes {
    Key([COMMA], COMPLETED) + TRUE + Key([COMMA], FINAL_HASH) + [QUOTE] + ZERO_X
  }

  lemma TailKeysAreText()
    ensures 0 !in CompletedLiteral() && |CompletedLiteral()| == 38
    ensures 0 !in Key([QUOTE, COMMA], RUNTIME) && 0 !in Key([COMMA], MAP)
    ensures |Key([QUOTE, COMMA], RUNTIME)| == 19 && |Key([COMMA], MAP)| == 7
  {
  }

  /** A result always fits its 1024-byte buffer. */
  method PrintResult(session: Bytes, account: Bytes, g: Game, hash: Bytes, m: Meta)
    returns (output: array<Byte>, r: nat)
    requires 0 !in session && |session| < ID_CAPACITY && 0 !in account && |account| < ID_CAPACITY
    requires 0 !in hash && |hash| == 64 && MetaFits(m)
    ensures fresh(output) && output.Length == 1024 && r < output.Length
    ensures output[..r] == ResultText(session, account, g, hash, m) && output[r] == 0
  {
    output := new Byte[1024];
    MetaKeysAreText();
    TailKeysAreText();
    r := PrintResultHead(output, session, account, g);
    r := AppendFitting(output, r, CompletedLiteral());
    r := AppendFitting(output, r, hash);
    r := AppendFitting(output, r, Key([QUOTE, COMMA], RUNTIME) + [QUOTE]);
    r := AppendFitting(output, r, m.runtime);
    r := AppendField(output, r, Key([QUOTE, COMMA], RULESET), m.ruleset);
    r := AppendFitting(output, r, Key([COMMA], MAP) + [QUOTE]);
    r := AppendFitting(output, r, m.level);
    r := AppendFitting(output, r, Key([QUOTE, COMMA], DIFFICULTY) + [QUOTE]);
    r := AppendFitting(output, r, m.difficulty);
    r := AppendFitting(output, r, [QUOTE, CLOSE]);
  }
}
