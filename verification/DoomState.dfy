// The DOOM service keeps a game as JSON text: what save_state prints and load_state reads.
module DoomState {
  import opened Bytes
  import opened Text
  import opened CText
  import opened Hexadecimal
  import Decimal

  type Word = n: nat | n < U32_LIMIT

  datatype Game = Game(tick: Word, health: Word, ammo: Word, kills: Word, score: Word, completed: bool)

  /** minijam_blake2b_256 over the canonical text of a session's six values. */
  type Digest = d: Bytes | |d| == 32
    witness [0, 0, 0, 0, 0, 0, 0, 0, 0, 0, 0, 0, 0, 0, 0, 0, 0, 0, 0, 0, 0, 0, 0, 0, 0, 0, 0, 0, 0, 0, 0, 0]

  type Hash = (Bytes, Game) -> Digest

  const SESSION_ID: Bytes := [115, 101, 115, 115, 105, 111, 110, 73, 100]
  const TICK: Bytes := [116, 105, 99, 107]
  const STATE_HASH: Bytes := [115, 116, 97, 116, 101, 72, 97, 115, 104]
  const HEALTH: Bytes := [104, 101, 97, 108, 116, 104]
  const AMMO: Bytes := [97, 109, 109, 111]
  const KILLS: Bytes := [107, 105, 108, 108, 115]
  const SCORE: Bytes := [115, 99, 111, 114, 101]
  const COMPLETED: Bytes := [99, 111, 109, 112, 108, 101, 116, 101, 100]
  const TRUE: Bytes := [116, 114, 117, 101]
  const FALSE: Bytes := [102, 97, 108, 115, 101]
  const ZERO_X: Bytes := [48, 120]
  const OPEN: Byte := 123
  const CLOSE: Byte := 125

  /** Longest id or account: their buffers hold 160 characters with the NUL. */
  const ID_CAPACITY := 160

  // ------------------------------------------------------------------ the hash

  /** hex32: two characters a byte, and a NUL. */
  method Hex32(bytes: Digest) returns (output: array<Byte>)
    ensures fresh(output) && output.Length == 65
    ensures output[..64] == Hex(bytes) && output[64] == 0
  {
    output := new Byte[65];
    var i := 0;
    while i < 32
      invariant 0 <= i <= 32 && output[..2 * i] == Hex(bytes[..i])
    {
      ghost var before := output[..2 * i];
      output[2 * i] := HexDigit(bytes[i] / 16);
      output[2 * i + 1] := HexDigit(bytes[i] % 16);
      assert output[..2 * i + 2] == before + [HexDigit(bytes[i] / 16), HexDigit(bytes[i] % 16)];
      assert bytes[..i + 1][..i] == bytes[..i] && bytes[..i + 1][i] == bytes[i];
      i := i + 1;
    }
    output[64] := 0;
    assert bytes[..32] == bytes;
  }

  // ------------------------------------------------------------------ the text

  /** The literal that opens a field: `lead`, the quoted name and a colon. */
  function Key(lead: Bytes, name: Bytes): Bytes {
    lead + Quoted(name) + [COLON]
  }

  function StateHead(session: Bytes, hash: Bytes, tick: nat): Bytes {
    Key([OPEN], SESSION_ID) + [QUOTE] + session + Key([QUOTE, COMMA], TICK) + Decimal.Print(tick)
    + (Key([COMMA], STATE_HASH) + [QUOTE] + ZERO_X) + hash + [QUOTE]
  }

  function Flag(completed: bool): Bytes {
    if completed then TRUE else FALSE
  }

  /** The text save_state prints. */
  function StateText(session: Bytes, hash: Bytes, g: Game): Bytes {
    StateHead(session, hash, g.tick)
    + Key([COMMA], HEALTH) + Decimal.Print(g.health)
    + Key([COMMA], AMMO) + Decimal.Print(g.ammo)
    + Key([COMMA], KILLS) + Decimal.Print(g.kills)
    + Key([COMMA], SCORE) + Decimal.Print(g.score)
    + Key([COMMA], COMPLETED) + Flag(g.completed) + [CLOSE]
  }

  /** The values load_state reads from a stored text, with its defaults. */
  function ReadState(text: Bytes): Game {
    Game(NumberValue(text, TICK, 0), NumberValue(text, HEALTH, 100), NumberValue(text, AMMO, 50),
         NumberValue(text, KILLS, 0), NumberValue(text, SCORE, 0),
         IndexOf(CString(text), Quoted(COMPLETED) + ([COLON] + TRUE)).Some?)
  }

  // ---------------------------------------------------- the text cut at its quotes

  function AfterColon(n: nat): Bytes {
    [COLON] + Decimal.Print(n)
  }

  /** A number between its colon and the comma before the next field. */
  function Amount(n: nat): Bytes {
    AfterColon(n) + [COMMA]
  }

  function StateParts(session: Bytes, hash: Bytes, g: Game): seq<Bytes> {
    [[OPEN], SESSION_ID, [COLON], session, [COMMA], TICK, Amount(g.tick), STATE_HASH, [COLON], ZERO_X + hash,
     [COMMA], HEALTH, Amount(g.health), AMMO, Amount(g.ammo), KILLS, Amount(g.kills), SCORE, Amount(g.score),
     COMPLETED, [COLON] + Flag(g.completed) + [CLOSE]]
  }

  /** Printing more into the open last piece. */
  lemma GrowStep(closed: seq<Bytes>, last: Bytes, more: Bytes)
    ensures Join(closed + [last], QUOTE) + more == Join(closed + [last + more], QUOTE)
  {
    if closed == [] {
      assert closed + [last] == [last] && closed + [last + more] == [last + more];
    } else {
      JoinSnoc(closed, last, QUOTE);
      JoinSnoc(closed, last + more, QUOTE);
    }
  }

  /** Printing a quote closes the last piece. */
  lemma QuoteStep(closed: seq<Bytes>, last: Bytes)
    ensures Join(closed + [last], QUOTE) + [QUOTE] == Join(closed + [last] + [[]], QUOTE)
  {
    JoinSnoc(closed + [last], [], QUOTE);
  }

  /** Printing a field's name and colon. */
  lemma KeyStep(closed: seq<Bytes>, last: Bytes, lead: Bytes, name: Bytes)
    ensures Join(closed + [last], QUOTE) + Key(lead, name)
            == Join(closed + [last + lead, name] + [[COLON]], QUOTE)
  {
    var text, grown := Join(closed + [last], QUOTE), closed + [last + lead];
    GrowStep(closed, last, lead);
    JoinSnoc(grown, name, QUOTE);
    JoinSnoc(grown + [name], [COLON], QUOTE);
    assert closed + [last + lead, name] + [[COLON]] == grown + [name] + [[COLON]];
    assert text + Key(lead, name) == text + lead + [QUOTE] + name + [QUOTE] + [COLON];
  }

  lemma SessionParts(session: Bytes)
    ensures Key([OPEN], SESSION_ID) + [QUOTE] + session
            == Join([[OPEN], SESSION_ID, [COLON]] + [session], QUOTE)
  {
    var key, closed := Key([OPEN], SESSION_ID), [[OPEN], SESSION_ID];
    KeyStep([], [], [OPEN], SESSION_ID);
    var none: seq<Bytes> := [];
    assert none + [[]] == [[]] && [] + [OPEN] == [OPEN] && Join([[]], QUOTE) + key == key;
    assert none + [[] + [OPEN], SESSION_ID] == closed;
    QuoteStep(closed, [COLON]);
    GrowStep(closed + [[COLON]], [], session);
    assert closed + [[COLON]] == [[OPEN], SESSION_ID, [COLON]] && [] + session == session;
  }

  lemma TickParts(session: Bytes, tick: nat)
    ensures Key([OPEN], SESSION_ID) + [QUOTE] + session + Key([QUOTE, COMMA], TICK) + Decimal.Print(tick)
            == Join([[OPEN], SESSION_ID, [COLON], session, [COMMA], TICK] + [AfterColon(tick)], QUOTE)
  {
    var closed, text := [[OPEN], SESSION_ID, [COLON]], Key([OPEN], SESSION_ID) + [QUOTE] + session;
    SessionParts(session);
    QuoteStep(closed, session);
    KeyStep(closed + [session], [], [COMMA], TICK);
    assert text + Key([QUOTE, COMMA], TICK) == text + [QUOTE] + Key([COMMA], TICK);
    var more := [[OPEN], SESSION_ID, [COLON], session, [COMMA], TICK];
    assert [] + [COMMA] == [COMMA] && closed + [session] + [[COMMA], TICK] == more;
    GrowStep(more, [COLON], Decimal.Print(tick));
  }

  function HeadParts(session: Bytes, hash: Bytes, tick: nat): seq<Bytes> {
    [[OPEN], SESSION_ID, [COLON], session, [COMMA], TICK, Amount(tick), STATE_HASH, [COLON], ZERO_X + hash]
  }

  lemma HeadIsParts(session: Bytes, hash: Bytes, tick: nat)
    ensures StateHead(session, hash, tick) == Join(HeadParts(session, hash, tick) + [[]], QUOTE)
  {
    var closed := [[OPEN], SESSION_ID, [COLON], session, [COMMA], TICK];
    TickParts(session, tick);
    var text := Join(closed + [AfterColon(tick)], QUOTE);
    KeyStep(closed, AfterColon(tick), [COMMA], STATE_HASH);
    var more := closed + [Amount(tick), STATE_HASH];
    QuoteStep(more, [COLON]);
    GrowStep(more + [[COLON]], [], ZERO_X + hash);
    QuoteStep(more + [[COLON]], ZERO_X + hash);
    assert [] + (ZERO_X + hash) == ZERO_X + hash;
    assert more + [[COLON]] + [ZERO_X + hash] == HeadParts(session, hash, tick);
    assert text + (Key([COMMA], STATE_HASH) + [QUOTE] + ZERO_X) + hash
        == text + Key([COMMA], STATE_HASH) + [QUOTE] + (ZERO_X + hash);
  }

  /** One more numeric field after an open piece. */
  lemma NumberStep(closed: seq<Bytes>, last: Bytes, name: Bytes, n: nat)
    ensures Join(closed + [last], QUOTE) + Key([COMMA], name) + Decimal.Print(n)
            == Join(closed + [last + [COMMA], name] + [AfterColon(n)], QUOTE)
  {
    KeyStep(closed, last, [COMMA], name);
    GrowStep(closed + [last + [COMMA], name], [COLON], Decimal.Print(n));
  }

  function MiddleParts(session: Bytes, hash: Bytes, g: Game): seq<Bytes> {
    HeadParts(session, hash, g.tick) + [[COMMA], HEALTH, Amount(g.health), AMMO, Amount(g.ammo), KILLS]
  }

  lemma MiddleIsParts(session: Bytes, hash: Bytes, g: Game)
    ensures StateHead(session, hash, g.tick) + Key([COMMA], HEALTH) + Decimal.Print(g.health)
            + Key([COMMA], AMMO) + Decimal.Print(g.ammo) + Key([COMMA], KILLS) + Decimal.Print(g.kills)
            == Join(MiddleParts(session, hash, g) + [AfterColon(g.kills)], QUOTE)
  {
    var p0 := HeadParts(session, hash, g.tick);
    HeadIsParts(session, hash, g.tick);
    var p1 := p0 + [[COMMA], HEALTH];
    assert [] + [COMMA] == [COMMA];
    NumberStep(p0, [], HEALTH, g.health);
    var p2 := p1 + [Amount(g.health), AMMO];
    NumberStep(p1, AfterColon(g.health), AMMO, g.ammo);
    NumberStep(p2, AfterColon(g.ammo), KILLS, g.kills);
    assert p2 + [Amount(g.ammo), KILLS] == MiddleParts(session, hash, g);
  }

  lemma ScoreIsParts(session: Bytes, hash: Bytes, g: Game)
    ensures StateText(session, hash, g)
            == Join(MiddleParts(session, hash, g) + [Amount(g.kills), SCORE] + [AfterColon(g.score)], QUOTE)
               + Key([COMMA], COMPLETED) + Flag(g.completed) + [CLOSE]
  {
    MiddleIsParts(session, hash, g);
    NumberStep(MiddleParts(session, hash, g), AfterColon(g.kills), SCORE, g.score);
  }

  /** The printed text, cut at its quotes. */
  lemma StateTextParts(session: Bytes, hash: Bytes, g: Game)
    ensures StateText(session, hash, g) == Join(StateParts(session, hash, g), QUOTE)
  {
    ScoreIsParts(session, hash, g);
    var p1 := MiddleParts(session, hash, g) + [Amount(g.kills), SCORE];
    var p2 := p1 + [Amount(g.score), COMPLETED];
    KeyStep(p1, AfterColon(g.score), [COMMA], COMPLETED);
    GrowStep(p2, [COLON], Flag(g.completed));
    GrowStep(p2, [COLON] + Flag(g.completed), [CLOSE]);
    assert p2 + [[COLON] + Flag(g.completed) + [CLOSE]] == StateParts(session, hash, g);
  }

  // ---------------------------------------------------------------- reading it back

  lemma {:induction false} JoinSplit(parts: seq<Bytes>, j: nat)
    requires 0 < j < |parts|
    ensures Join(parts, QUOTE) == Join(parts[..j], QUOTE) + [QUOTE] + Join(parts[j..], QUOTE)
  {
    if j > 1 {
      JoinSplit(parts[1..], j - 1);
      assert parts[..j][1..] == parts[1..][..j - 1];
      assert parts[1..][j - 1..] == parts[j..];
    }
  }

  lemma QuotedMoves(head: Bytes, name: Bytes, rest: Bytes)
    ensures head + [QUOTE] + (name + [QUOTE] + rest) == head + (Quoted(name) + rest)
  {
  }

  lemma TextAroundName(parts: seq<Bytes>, j: nat, name: Bytes)
    requires 1 <= j && j + 1 < |parts| && parts[j] == name
    ensures Join(parts, QUOTE) == Join(parts[..j], QUOTE) + (Quoted(name) + Join(parts[j + 1..], QUOTE))
  {
    JoinSplit(parts, j);
    assert parts[j..][0] == name && parts[j..][1..] == parts[j + 1..];
    QuotedMoves(Join(parts[..j], QUOTE), name, Join(parts[j + 1..], QUOTE));
  }

  lemma NameFound(parts: seq<Bytes>, name: Bytes, rest: Bytes)
    requires parts != [] && Free(parts, QUOTE) && QUOTE !in name
    requires forall i :: 1 <= i < |parts| ==> parts[i] != name
    requires 0 !in Join(parts, QUOTE) + (Quoted(name) + rest)
    ensures AfterName(Join(parts, QUOTE) + (Quoted(name) + rest), name) == Some(rest)
  {
    var text := Join(parts, QUOTE) + (Quoted(name) + rest);
    var at := |Join(parts, QUOTE)|;
    assert IndexOf(text, Quoted(name)) == Some(at) && text[at + |name| + 2..] == rest by {
      FoundAfter(parts, name, [], rest);
      assert Quoted(name) + [] == Quoted(name);
      assert [] + rest == rest;
    }
    AfterNameAt(text, name, at);
  }

  /** The lookup stops after the first quoted piece that is the name. */
  lemma NameAt(parts: seq<Bytes>, j: nat, name: Bytes)
    requires Free(parts, QUOTE) && Free(parts, 0)
    requires 1 <= j && j + 1 < |parts| && parts[j] == name
    requires forall i :: 1 <= i < j ==> parts[i] != name
    ensures AfterName(Join(parts, QUOTE), name) == Some(Join(parts[j + 1..], QUOTE))
  {
    JoinWithout(parts, QUOTE, 0);
    TextAroundName(parts, j, name);
    assert QUOTE !in parts[j];
    NameFound(parts[..j], name, Join(parts[j + 1..], QUOTE));
  }

  lemma AmountReads(parts: seq<Bytes>, n: Word, fallback: Word)
    requires parts != [] && parts[0] == Amount(n)
    ensures NumberAt(Join(parts, QUOTE), fallback) == n
  {
    JoinFirst(parts, []);
    NumberAtPrinted(n, fallback, [COMMA] + AfterFirst(parts));
    assert Join(parts, QUOTE) + [] == Join(parts, QUOTE);
    assert Amount(n) + (AfterFirst(parts) + []) == [COLON] + Decimal.Print(n) + ([COMMA] + AfterFirst(parts));
  }

  // ------------------------------------------------------------ what an id holds

  /** A lookup for `needle` stops inside the quoted id. */
  predicate Holds(id: Bytes, needle: Bytes) {
    IndexOf(Quoted(id), needle).Some?
  }

  /** The number a lookup gives behind a quoted id: the id's own where it stops there. */
  function Kept(id: Bytes, name: Bytes, fallback: Word, value: Word): Word {
    if Holds(id, Quoted(name)) then NumberValue(Quoted(id), name, fallback) else value
  }

  /** A name that is no prefix of what begins with a comma. */
  predicate FieldName(name: Bytes) {
    name != [] && name[0] != COMMA && QUOTE !in name
  }

  lemma CommaParts(after: Bytes, name: Bytes, tail: Bytes)
    requires FieldName(name) && QUOTE !in tail && (tail != [] ==> tail[0] != COMMA)
    requires after != [] && after[0] == COMMA
    ensures Parted(after, name, tail)
  {
    assert (name + [QUOTE] + tail)[0] == name[0];
  }

  /** Pieces in front, a quoted id, and fields behind it. */
  ghost predicate AroundId(head: seq<Bytes>, after: Bytes, name: Bytes) {
    && head != [] && Free(head, QUOTE) && FieldName(name)
    && after != [] && after[0] == COMMA
    && forall i :: 1 <= i < |head| ==> head[i] != name
  }

  /** A search runs past the front, then through the id, then through what is behind. */
  lemma IdSearch(head: seq<Bytes>, id: Bytes, after: Bytes, name: Bytes, tail: Bytes)
    requires AroundId(head, after, name) && QUOTE !in tail && (tail != [] ==> tail[0] != COMMA)
    ensures var needle := Quoted(name) + tail;
            IndexOf(Join(head, QUOTE) + (Quoted(id) + after), needle)
            == Shift(if Holds(id, needle) then IndexOf(Quoted(id), needle)
                     else Shift(IndexOf(after, needle), |id| + 2), |Join(head, QUOTE)|)
  {
    assert Lacks(head, name, tail);
    CommaParts(after, name, tail);
    SearchSkips(head, Quoted(id) + after, name, tail);
    SearchAcross(Quoted(id), after, name, tail, Quoted(name) + tail);
  }

  lemma SuffixPast(front: Bytes, text: Bytes, k: nat)
    requires k <= |text|
    ensures (front + text)[|front| + k..] == text[k..]
  {
  }

  /** A number lookup that found its quoted name at `at`. */
  function NumberFrom(text: Bytes, at: Option<nat>, size: nat, fallback: Word): Word {
    if at.None? || at.value + size > |text| then fallback else NumberAt(text[at.value + size..], fallback)
  }

  lemma NumberFoundAt(text: Bytes, name: Bytes, at: nat, fallback: Word)
    requires 0 !in text && IndexOf(text, Quoted(name)) == Some(at)
    ensures at + |name| + 2 <= |text| && NumberValue(text, name, fallback) == NumberAt(text[at + |name| + 2..], fallback)
  {
    AfterNameAt(text, name, at);
  }

  lemma NumberMissing(text: Bytes, name: Bytes, fallback: Word)
    requires 0 !in text && IndexOf(text, Quoted(name)).None?
    ensures NumberValue(text, name, fallback) == fallback
  {
    AfterNameNone(text, name);
  }

  lemma NumberFound(text: Bytes, name: Bytes, at: Option<nat>, fallback: Word)
    requires 0 !in text && IndexOf(text, Quoted(name)) == at
    ensures NumberValue(text, name, fallback) == NumberFrom(text, at, |name| + 2, fallback)
  {
    if at.Some? {
      NumberFoundAt(text, name, at.value, fallback);
    } else {
      NumberMissing(text, name, fallback);
    }
  }

  lemma NumberInId(front: Bytes, inside: Bytes, after: Bytes, i: nat, size: nat, fallback: Word)
    requires after != [] && after[0] == COMMA && i + size <= |inside|
    ensures NumberFrom(front + (inside + after), Some(|front| + i), size, fallback)
            == NumberFrom(inside, Some(i), size, fallback)
  {
    SuffixPast(front, inside + after, i + size);
    assert (inside + after)[i + size..] == inside[i + size..] + after;
    NumberStops(inside[i + size..], after, fallback);
  }

  lemma NumberBehindId(front: Bytes, inside: Bytes, after: Bytes, i: nat, size: nat, fallback: Word)
    requires i + size <= |after|
    ensures NumberFrom(front + (inside + after), Some(|front| + (|inside| + i)), size, fallback)
            == NumberFrom(after, Some(i), size, fallback)
  {
    SuffixPast(inside, after, i + size);
    SuffixPast(front, inside + after, |inside| + i + size);
  }

  /** A number behind an id is read from the fields there, unless the id holds its quoted name:
      then from the id. */
  lemma IdNumber(head: seq<Bytes>, id: Bytes, after: Bytes, name: Bytes, fallback: Word)
    requires AroundId(head, after, name) && 0 !in Join(head, QUOTE) + (Quoted(id) + after)
    ensures NumberValue(Join(head, QUOTE) + (Quoted(id) + after), name, fallback)
            == Kept(id, name, fallback, NumberValue(after, name, fallback))
  {
    var front, inside, needle := Join(head, QUOTE), Quoted(id), Quoted(name);
    IdSearch(head, id, after, name, []);
    assert needle + [] == needle;
    NumberFound(front + (inside + after), name, IndexOf(front + (inside + after), needle), fallback);
    NumberFound(inside, name, IndexOf(inside, needle), fallback);
    NumberFound(after, name, IndexOf(after, needle), fallback);
    NumberCases(front, inside, after, IndexOf(inside, needle), IndexOf(after, needle), |name| + 2, fallback);
  }

  lemma NumberCases(front: Bytes, inside: Bytes, after: Bytes, first: Option<nat>, second: Option<nat>, size: nat,
                    fallback: Word)
    requires after != [] && after[0] == COMMA
    requires (first.Some? ==> first.value + size <= |inside|) && (second.Some? ==> second.value + size <= |after|)
    ensures NumberFrom(front + (inside + after),
                       Shift(if first.Some? then first else Shift(second, |inside|), |front|), size, fallback)
            == if first.Some? then NumberFrom(inside, first, size, fallback) else NumberFrom(after, second, size, fallback)
  {
    if first.Some? {
      NumberInId(front, inside, after, first.value, size, fallback);
    } else if second.Some? {
      NumberBehindId(front, inside, after, second.value, size, fallback);
    }
  }

  lemma AmountFree(n: nat)
    ensures QUOTE !in Amount(n) && 0 !in Amount(n)
  {
    Decimal.PrintDigits(n);
  }

  // ------------------------------------------------------- the fields behind the id

  /** The text behind the session's closing quote, cut at its quotes. */
  function FieldParts(hash: Bytes, g: Game): seq<Bytes> {
    [[COMMA], TICK, Amount(g.tick), STATE_HASH, [COLON], ZERO_X + hash, [COMMA], HEALTH, Amount(g.health),
     AMMO, Amount(g.ammo), KILLS, Amount(g.kills), SCORE, Amount(g.score),
     COMPLETED, [COLON] + Flag(g.completed) + [CLOSE]]
  }

  const FRONT: seq<Bytes> := [[OPEN], SESSION_ID, [COLON]]

  function FieldText(hash: Bytes, g: Game): Bytes {
    Join(FieldParts(hash, g), QUOTE)
  }

  lemma PartsCut(session: Bytes, hash: Bytes, g: Game)
    ensures var parts := StateParts(session, hash, g);
            parts[..3] == FRONT && parts[3] == session && parts[4..] == FieldParts(hash, g)
  {
  }

  lemma StateCut(session: Bytes, hash: Bytes, g: Game)
    ensures StateText(session, hash, g) == Join(FRONT, QUOTE) + (Quoted(session) + FieldText(hash, g))
  {
    StateTextParts(session, hash, g);
    PartsCut(session, hash, g);
    TextAroundName(StateParts(session, hash, g), 3, session);
  }

  /** Hexadecimal digits, or any text that does not end the field it is in. */
  predicate Printable(text: Bytes) {
    QUOTE !in text && 0 !in text
  }

  lemma AmountsFree(g: Game)
    ensures forall b :: b == QUOTE || b == 0 ==>
              b !in Amount(g.tick) && b !in Amount(g.health) && b !in Amount(g.ammo) && b !in Amount(g.kills)
              && b !in Amount(g.score)
  {
    AmountFree(g.tick);
    AmountFree(g.health);
    AmountFree(g.ammo);
    AmountFree(g.kills);
    AmountFree(g.score);
  }

  lemma PartsLack(hash: Bytes, g: Game, b: Byte)
    requires Printable(hash) && (b == QUOTE || b == 0)
    ensures Free(FieldParts(hash, g), b)
  {
    AmountsFree(g);
  }

  lemma PartsFree(hash: Bytes, g: Game)
    requires Printable(hash)
    ensures Free(FieldParts(hash, g), QUOTE) && Free(FieldParts(hash, g), 0)
  {
    PartsLack(hash, g, QUOTE);
    PartsLack(hash, g, 0);
  }

  lemma FieldTextStarts(hash: Bytes, g: Game)
    ensures FieldText(hash, g) != [] && FieldText(hash, g)[0] == COMMA
    ensures Printable(hash) ==> 0 !in FieldText(hash, g)
  {
    JoinFirst(FieldParts(hash, g), []);
    assert FieldText(hash, g) + [] == FieldText(hash, g);
    if Printable(hash) {
      PartsFree(hash, g);
      JoinWithout(FieldParts(hash, g), QUOTE, 0);
    }
  }

  /** Where a field's name stands among those pieces. */
  function FieldIndex(name: Bytes): (j: nat)
    ensures j <= 13
  {
    if name == TICK then 1 else if name == HEALTH then 7 else if name == AMMO then 9
    else if name == KILLS then 11 else if name == SCORE then 13 else 0
  }

  predicate IsField(name: Bytes) {
    name == TICK || name == HEALTH || name == AMMO || name == KILLS || name == SCORE
  }

  function FieldValue(g: Game, name: Bytes): Word
    requires IsField(name)
  {
    if name == TICK then g.tick else if name == HEALTH then g.health else if name == AMMO then g.ammo
    else if name == KILLS then g.kills else g.score
  }

  lemma FieldsAreDistinct(hash: Bytes, g: Game, name: Bytes, i: nat)
    requires IsField(name) && 1 <= i < FieldIndex(name)
    ensures FieldParts(hash, g)[i] != name
  {
    var piece := FieldParts(hash, g)[i];
    assert |piece| == |name| ==> piece[0] != name[0];
  }

  lemma FieldLookup(hash: Bytes, g: Game, name: Bytes)
    requires Printable(hash) && IsField(name)
    ensures AfterName(FieldText(hash, g), name) == Some(Join(FieldParts(hash, g)[FieldIndex(name) + 1..], QUOTE))
  {
    var parts, j := FieldParts(hash, g), FieldIndex(name);
    PartsFree(hash, g);
    forall i | 1 <= i < j ensures parts[i] != name {
      FieldsAreDistinct(hash, g, name, i);
    }
    NameAt(parts, j, name);
  }

  lemma FieldPiece(hash: Bytes, g: Game, name: Bytes)
    requires IsField(name)
    ensures FieldParts(hash, g)[FieldIndex(name) + 1] == Amount(FieldValue(g, name))
  {
  }

  lemma FieldTextReads(hash: Bytes, g: Game, name: Bytes, fallback: Word)
    requires Printable(hash) && IsField(name)
    ensures NumberValue(FieldText(hash, g), name, fallback) == FieldValue(g, name)
  {
    FieldLookup(hash, g, name);
    FieldPiece(hash, g, name);
    var rest := FieldParts(hash, g)[FieldIndex(name) + 1..];
    assert rest[0] == Amount(FieldValue(g, name));
    AmountReads(rest, FieldValue(g, name), fallback);
  }

  lemma FrontLacks(name: Bytes)
    requires name != [COLON] && name != SESSION_ID
    ensures Free(FRONT, QUOTE) && forall i :: 1 <= i < |FRONT| ==> FRONT[i] != name
  {
  }

  lemma StateIsText(session: Bytes, hash: Bytes, g: Game)
    requires 0 !in session && Printable(hash)
    ensures 0 !in StateText(session, hash, g)
  {
    StateCut(session, hash, g);
    FieldTextStarts(hash, g);
    JoinWithout(FRONT, QUOTE, 0);
  }

  /** Each number of a saved game reads back, unless the session's id holds that field's
      quoted name: then whatever follows the name in the id is read. */
  lemma FieldReads(session: Bytes, hash: Bytes, g: Game, name: Bytes, fallback: Word)
    requires 0 !in session && Printable(hash) && IsField(name)
    ensures NumberValue(StateText(session, hash, g), name, fallback)
            == Kept(session, name, fallback, FieldValue(g, name))
  {
    StateCut(session, hash, g);
    StateIsText(session, hash, g);
    FieldTextStarts(hash, g);
    FrontLacks(name);
    IdNumber(FRONT, session, FieldText(hash, g), name, fallback);
    FieldTextReads(hash, g, name, fallback);
  }

  // ------------------------------------------------------------ the completion flag

  function TrueTail(): Bytes {
    [COLON] + TRUE
  }

  lemma OnlyCompleted(hash: Bytes, g: Game, i: nat)
    requires 1 <= i < 17 && FieldParts(hash, g)[i] == COMPLETED
    ensures i == 15
  {
    assert FieldParts(hash, g)[i][0] == 99;
  }

  lemma FalseClashes()
    ensures Clash([COLON] + FALSE + [CLOSE], TrueTail())
  {
    assert ([COLON] + FALSE + [CLOSE])[1] != TrueTail()[1];
  }

  lemma CompletedTrue(hash: Bytes, g: Game)
    requires Printable(hash) && g.completed
    ensures IndexOf(FieldText(hash, g), Quoted(COMPLETED) + TrueTail()).Some?
  {
    var parts := FieldParts(hash, g);
    PartsFree(hash, g);
    TextAroundName(parts, 15, COMPLETED);
    var head := parts[..15];
    assert Lacks(head, COMPLETED, TrueTail()) by {
      forall i | 1 <= i < 15 ensures head[i] != COMPLETED {
        assert head[i] == parts[i];
        if parts[i] == COMPLETED { OnlyCompleted(hash, g, i); }
      }
    }
    FoundAfter(head, COMPLETED, TrueTail(), [CLOSE]);
    assert parts[16..] == [TrueTail() + [CLOSE]];
    assert Quoted(COMPLETED) + TrueTail() + [CLOSE] == Quoted(COMPLETED) + (TrueTail() + [CLOSE]);
  }

  lemma CompletedFalse(hash: Bytes, g: Game)
    requires Printable(hash) && !g.completed
    ensures IndexOf(FieldText(hash, g), Quoted(COMPLETED) + TrueTail()).None?
  {
    var parts := FieldParts(hash, g);
    PartsFree(hash, g);
    assert Lacks(parts, COMPLETED, TrueTail()) by {
      forall i | 1 <= i < 17 && parts[i] == COMPLETED ensures i + 1 < 17 && Clash(parts[i + 1], TrueTail()) {
        OnlyCompleted(hash, g, i);
        FalseClashes();
      }
    }
    SearchSkips(parts, [], COMPLETED, TrueTail());
    assert Join(parts, QUOTE) + [] == Join(parts, QUOTE);
    assert !(Quoted(COMPLETED) + TrueTail() <= []);
  }

  /** The completion flag reads back, unless the id itself holds the quoted word and true. */
  lemma FlagReads(session: Bytes, hash: Bytes, g: Game)
    requires 0 !in session && Printable(hash)
    ensures IndexOf(StateText(session, hash, g), Quoted(COMPLETED) + TrueTail()).Some?
            <==> g.completed || Holds(session, Quoted(COMPLETED) + TrueTail())
  {
    StateCut(session, hash, g);
    FieldTextStarts(hash, g);
    FrontLacks(COMPLETED);
    IdSearch(FRONT, session, FieldText(hash, g), COMPLETED, TrueTail());
    if g.completed {
      CompletedTrue(hash, g);
    } else {
      CompletedFalse(hash, g);
    }
  }

  // ------------------------------------------------------------------ the round trip

  /** What load_state makes of a saved game. */
  function Reloaded(session: Bytes, g: Game): Game {
    Game(Kept(session, TICK, 0, g.tick), Kept(session, HEALTH, 100, g.health), Kept(session, AMMO, 50, g.ammo),
         Kept(session, KILLS, 0, g.kills), Kept(session, SCORE, 0, g.score),
         g.completed || Holds(session, Quoted(COMPLETED) + TrueTail()))
  }

  /** Loading what was saved, for every id and all 32-bit values: each of the six values
      returns unless the id holds its quoted name. */
  lemma StateRoundTrip(session: Bytes, hash: Bytes, g: Game)
    requires 0 !in session && Printable(hash)
    ensures ReadState(StateText(session, hash, g)) == Reloaded(session, g)
  {
    FieldReads(session, hash, g, TICK, 0);
    FieldReads(session, hash, g, HEALTH, 100);
    FieldReads(session, hash, g, AMMO, 50);
    FieldReads(session, hash, g, KILLS, 0);
    FieldReads(session, hash, g, SCORE, 0);
    StateIsText(session, hash, g);
    CStringOfText(StateText(session, hash, g));
    FlagReads(session, hash, g);
  }

  /** No lookup of load_state stops inside the quoted id. */
  predicate Transparent(id: Bytes) {
    && !Holds(id, Quoted(TICK)) && !Holds(id, Quoted(HEALTH)) && !Holds(id, Quoted(AMMO))
    && !Holds(id, Quoted(KILLS)) && !Holds(id, Quoted(SCORE)) && !Holds(id, Quoted(COMPLETED) + TrueTail())
  }

  function Other(v: Word): Word {
    if v == 0 then 1 else 0
  }

  /** A game none of whose values the id gives. */
  function Unlike(id: Bytes): Game {
    Game(Other(NumberValue(Quoted(id), TICK, 0)), Other(NumberValue(Quoted(id), HEALTH, 100)),
         Other(NumberValue(Quoted(id), AMMO, 50)), Other(NumberValue(Quoted(id), KILLS, 0)),
         Other(NumberValue(Quoted(id), SCORE, 0)), false)
  }

  lemma UnlikeChanges(session: Bytes)
    ensures Reloaded(session, Unlike(session)) == Unlike(session) <==> Transparent(session)
  {
  }

  /** All games of a session survive saving exactly when the quoted id holds none of the six
      needles. */
  lemma FaithfulSessions(session: Bytes, hash: Bytes)
    requires 0 !in session && Printable(hash)
    ensures (forall g :: ReadState(StateText(session, hash, g)) == g) <==> Transparent(session)
  {
    StateRoundTrip(session, hash, Unlike(session));
    UnlikeChanges(session);
    if Transparent(session) {
      forall g ensures ReadState(StateText(session, hash, g)) == g {
        StateRoundTrip(session, hash, g);
      }
    }
  }

  /** In a session whose id is a field's name, that field is lost: the fallback is read. */
  lemma NamedSession(session: Bytes, name: Bytes)
    requires IsField(name) && session == name
    ensures Holds(session, Quoted(name)) && forall fallback: Word :: Kept(session, name, fallback, 0) == fallback
  {
    CStringOfText(Quoted(name));
  }

  /** An id that closes its own quote and prints a field gives its games that field. */
  lemma InjectedField(first: Bytes, name: Bytes, n: Word, more: seq<Bytes>, fallback: Word, value: Word)
    requires IsField(name) && Printable(first) && first != name && Free(more, QUOTE) && Free(more, 0)
    ensures Kept(Join([first, [COMMA], name, Amount(n)] + more, QUOTE), name, fallback, value) == n
  {
    var inner := [first, [COMMA], name, Amount(n)] + more;
    var id := Join(inner, QUOTE);
    var parts := [[]] + inner + [[]];
    AmountFree(n);
    QuotedIsJoin(inner);
    assert parts[1] == first && parts[2] == [COMMA] && parts[3] == name && parts[4] == Amount(n);
    NameAt(parts, 3, name);
    assert parts[4..][0] == Amount(n);
    AmountReads(parts[4..], n, fallback);
    JoinWithout(parts, QUOTE, 0);
    CStringOfText(Quoted(id));
  }

  lemma QuotedIsJoin(inner: seq<Bytes>)
    requires inner != []
    ensures Quoted(Join(inner, QUOTE)) == Join([[]] + inner + [[]], QUOTE)
  {
    JoinSnoc([[]] + inner, [], QUOTE);
    assert ([[]] + inner)[1..] == inner;
  }

  // ------------------------------------------------------------------- save_state

  lemma TextPiecesFit()
    ensures |Key([OPEN], SESSION_ID)| == 13 && |Key([QUOTE, COMMA], TICK)| == 9
            && |Key([COMMA], STATE_HASH)| == 13 && |Key([COMMA], HEALTH)| == 10 && |Key([COMMA], AMMO)| == 8
            && |Key([COMMA], KILLS)| == 9 && |Key([COMMA], SCORE)| == 9 && |Key([COMMA], COMPLETED)| == 13
  {
  }

  lemma HeadFits(session: Bytes, hash: Bytes, tick: Word)
    requires |session| < ID_CAPACITY && |hash| == 64
    ensures |StateHead(session, hash, tick)| < 400
  {
    TextPiecesFit();
    PrintSize(tick);
  }

  /** A state of any session fits the 1024-byte buffer. */
  lemma StateFits(session: Bytes, hash: Bytes, g: Game)
    requires |session| < ID_CAPACITY && |hash| == 64
    ensures |StateText(session, hash, g)| < 600
  {
    TextPiecesFit();
    HeadFits(session, hash, g.tick);
    PrintSize(g.health);
    PrintSize(g.ammo);
    PrintSize(g.kills);
    PrintSize(g.score);
  }

  lemma KeysAreText()
    ensures 0 !in Key([OPEN], SESSION_ID) && 0 !in Key([QUOTE, COMMA], TICK) && 0 !in Key([COMMA], STATE_HASH)
    ensures 0 !in Key([COMMA], HEALTH) && 0 !in Key([COMMA], AMMO) && 0 !in Key([COMMA], KILLS)
    ensures 0 !in Key([COMMA], SCORE) && 0 !in Key([COMMA], COMPLETED)
  {
  }

  /** append_text of a literal, then append_u32, with room for both. */
  method AppendField(output: array<Byte>, offset: nat, key: Bytes, n: Word) returns (r: nat)
    requires 0 !in key && offset + |key| + 12 < output.Length
    modifies output
    ensures offset <= r <= offset + |key| + 10
    ensures output[..r] == old(output[..offset]) + key + Decimal.Print(n) && output[r] == 0
  {
    PrintSize(n);
    r := AppendText(output, offset, key);
    r := AppendU32(output, r, n);
  }

  /** append_text with room for it. */
  method AppendFitting(output: array<Byte>, offset: nat, text: Bytes) returns (r: nat)
    requires 0 !in text && offset + |text| + 1 < output.Length
    modifies output
    ensures r == offset + |text|
    ensures output[..r] == old(output[..offset]) + text && output[r] == 0
  {
    r := AppendText(output, offset, text);
  }

  /** A key with its opening quote, then the text it opens. */
  method AppendString(output: array<Byte>, offset: nat, key: Bytes, text: Bytes) returns (r: nat)
    requires 0 !in key && 0 !in text && offset + |key| + |text| + 1 < output.Length
    modifies output
    ensures r == offset + |key| + |text|
    ensures output[..r] == old(output[..offset]) + key + text && output[r] == 0
  {
    r := AppendFitting(output, offset, key);
    r := AppendFitting(output, r, text);
  }

  method PrintSession(output: array<Byte>, session: Bytes) returns (r: nat)
    requires 0 !in session && |session| < ID_CAPACITY && output.Length == 1024
    modifies output
    ensures r == 14 + |session| && output[..r] == Key([OPEN], SESSION_ID) + [QUOTE] + session
  {
    TextPiecesFit();
    KeysAreText();
    r := AppendString(output, 0, Key([OPEN], SESSION_ID) + [QUOTE], session);
  }

  method PrintHead(output: array<Byte>, session: Bytes, hash: Bytes, tick: Word) returns (r: nat)
    requires 0 !in session && 0 !in hash && |session| < ID_CAPACITY && |hash| == 64 && output.Length == 1024
    modifies output
    ensures r < 400 && output[..r] == StateHead(session, hash, tick) && output[r] == 0
  {
    TextPiecesFit();
    KeysAreText();
    r := PrintSession(output, session);
    r := AppendField(output, r, Key([QUOTE, COMMA], TICK), tick);
    r := AppendFitting(output, r, Key([COMMA], STATE_HASH) + [QUOTE] + ZERO_X);
    r := AppendFitting(output, r, hash);
    r := AppendFitting(output, r, [QUOTE]);
  }

  /** The printing of save_state: the whole text fits, and a NUL follows it. */
  method PrintState(session: Bytes, hash: Bytes, g: Game) returns (output: array<Byte>, r: nat)
    requires 0 !in session && 0 !in hash && |session| < ID_CAPACITY && |hash| == 64
    ensures fresh(output) && output.Length == 1024 && r < output.Length
    ensures output[..r] == StateText(session, hash, g) && output[r] == 0
  {
    output := new Byte[1024];
    TextPiecesFit();
    KeysAreText();
    r := PrintHead(output, session, hash, g.tick);
    r := AppendField(output, r, Key([COMMA], HEALTH), g.health);
    r := AppendField(output, r, Key([COMMA], AMMO), g.ammo);
    r := AppendField(output, r, Key([COMMA], KILLS), g.kills);
    r := AppendField(output, r, Key([COMMA], SCORE), g.score);
    r := AppendFitting(output, r, Key([COMMA], COMPLETED));
    r := AppendFitting(output, r, Flag(g.completed));
    r := AppendFitting(output, r, [CLOSE]);
  }
}
