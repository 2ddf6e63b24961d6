// The stored best score of an account is the maximum over its finished games.
module DoomScores {
  import opened Bytes
  import opened Text
  import opened CText
  import opened DoomState
  import opened Hexadecimal
  import opened DoomService
  import opened DoomRuns
  import opened DoomOwners
  import Decimal

  // ---------------------------------------------------------- the score in a result

  /** The result is its names, then the score field, then more fields. */
  lemma ResultStarts(session: Bytes, account: Bytes, g: Game, hash: Bytes, m: Meta)
    ensures ResultNames(session, account) + Key([QUOTE, COMMA], SCORE) + Decimal.Print(g.score) + [COMMA]
            <= ResultText(session, account, g, hash, m)
  {
    var p := ResultNames(session, account) + Key([QUOTE, COMMA], SCORE) + Decimal.Print(g.score);
    var kills := Key([COMMA], KILLS);
    assert kills == [COMMA] + kills[1..];
    assert p + kills == p + [COMMA] + kills[1..];
    var t0 := p + kills + Decimal.Print(g.kills) + Key([COMMA], DURATION) + Decimal.Print(g.tick);
    assert t0 == ResultHead(session, account, g);
    var t1 := t0 + CompletedLiteral() + hash + (Key([QUOTE, COMMA], RUNTIME) + [QUOTE]) + m.runtime;
    var t2 := t1 + Key([QUOTE, COMMA], RULESET) + Decimal.Print(m.ruleset);
    var t3 := t2 + (Key([COMMA], MAP) + [QUOTE]) + m.level;
    var t4 := t3 + (Key([QUOTE, COMMA], DIFFICULTY) + [QUOTE]) + m.difficulty + [QUOTE, CLOSE];
    assert p + [COMMA] <= t0 <= t1 <= t2 <= t3 <= t4;
  }

  const BETWEEN: seq<Bytes> := [[COMMA], ACCOUNT, [COLON]]

  /** The score's field and what follows it, behind the account's closing quote. */
  function ScoreField(score: Word, tail: Bytes): Bytes {
    [COMMA] + (Quoted(SCORE) + ([COLON] + Decimal.Print(score) + ([COMMA] + tail)))
  }

  /** The part of a result behind the session's closing quote. */
  function AccountField(account: Bytes, score: Word, tail: Bytes): Bytes {
    Join(BETWEEN, QUOTE) + (Quoted(account) + ScoreField(score, tail))
  }

  lemma KeyIsJoin(lead: Bytes, name: Bytes)
    ensures Join([lead, name, [COLON]], QUOTE) == Key(lead, name)
  {
    assert [lead, name, [COLON]][1..] == [name, [COLON]] && [name, [COLON]][1..] == [[COLON]];
    assert Join([name, [COLON]], QUOTE) == name + [QUOTE] + [COLON];
  }

  lemma NamesRegroup(session: Bytes, account: Bytes, rest: Bytes)
    ensures ResultNames(session, account) + [QUOTE] + rest
            == Join(FRONT, QUOTE) + (Quoted(session) + (Join(BETWEEN, QUOTE) + (Quoted(account) + rest)))
  {
    KeyIsJoin([OPEN], SESSION_ID);
    KeyIsJoin([COMMA], ACCOUNT);
    var open, between := Key([OPEN], SESSION_ID), Key([COMMA], ACCOUNT);
    assert Key([QUOTE, COMMA], ACCOUNT) == [QUOTE] + between;
    assert open + [QUOTE] + session + ([QUOTE] + between + [QUOTE]) + account + [QUOTE] + rest
        == open + (Quoted(session) + (between + (Quoted(account) + rest)));
  }

  lemma ScoreRegroup(names: Bytes, score: Word, tail: Bytes)
    ensures names + Key([QUOTE, COMMA], SCORE) + Decimal.Print(score) + [COMMA] + tail
            == names + [QUOTE] + ScoreField(score, tail)
  {
    var digits := Decimal.Print(score);
    assert Key([QUOTE, COMMA], SCORE) == [QUOTE] + [COMMA] + Quoted(SCORE) + [COLON];
    assert names + ([QUOTE] + [COMMA] + Quoted(SCORE) + [COLON]) + digits + [COMMA] + tail
        == names + [QUOTE] + ([COMMA] + (Quoted(SCORE) + ([COLON] + digits + ([COMMA] + tail))));
  }

  lemma ScoreCut(text: Bytes, session: Bytes, account: Bytes, score: Word) returns (tail: Bytes)
    requires ResultNames(session, account) + Key([QUOTE, COMMA], SCORE) + Decimal.Print(score) + [COMMA] <= text
    ensures text == ResultNames(session, account) + [QUOTE] + ScoreField(score, tail)
  {
    var front := ResultNames(session, account) + Key([QUOTE, COMMA], SCORE) + Decimal.Print(score) + [COMMA];
    tail := text[|front|..];
    assert text == front + tail;
    ScoreRegroup(ResultNames(session, account), score, tail);
  }

  /** A result, cut behind its two ids. */
  lemma ResultCut(session: Bytes, account: Bytes, g: Game, hash: Bytes, m: Meta) returns (tail: Bytes)
    ensures ResultText(session, account, g, hash, m)
            == Join(FRONT, QUOTE) + (Quoted(session) + AccountField(account, g.score, tail))
  {
    ResultStarts(session, account, g, hash, m);
    tail := ScoreCut(ResultText(session, account, g, hash, m), session, account, g.score);
    NamesRegroup(session, account, ScoreField(g.score, tail));
  }

  lemma ScoreFieldReads(score: Word, tail: Bytes)
    requires 0 !in tail
    ensures NumberValue(ScoreField(score, tail), SCORE, 0) == score
  {
    var rest := [COLON] + Decimal.Print(score) + ([COMMA] + tail);
    Decimal.PrintDigits(score);
    assert Join([[COMMA]], QUOTE) == [COMMA];
    NameFound([[COMMA]], SCORE, rest);
    NumberAtPrinted(score, 0, [COMMA] + tail);
  }

  lemma AccountFieldReads(account: Bytes, score: Word, tail: Bytes)
    requires 0 !in AccountField(account, score, tail)
    ensures NumberValue(AccountField(account, score, tail), SCORE, 0) == Kept(account, SCORE, 0, score)
  {
    IdNumber(BETWEEN, account, ScoreField(score, tail), SCORE, 0);
    ScoreFieldReads(score, tail);
  }

  /** What a lookup of the score finds in a stored result: the session id's number, else the
      account's, else the score. */
  function ReadScore(session: Bytes, account: Bytes, score: Word): Word {
    Kept(session, SCORE, 0, Kept(account, SCORE, 0, score))
  }

  /** The score read back from a stored result is the score, unless the session's id or the
      account holds the quoted name of the field. */
  lemma ResultReads(session: Bytes, account: Bytes, g: Game, hash: Bytes, m: Meta)
    requires 0 !in ResultText(session, account, g, hash, m)
    ensures NumberValue(ResultText(session, account, g, hash, m), SCORE, 0) == ReadScore(session, account, g.score)
  {
    var tail := ResultCut(session, account, g, hash, m);
    var field := AccountField(account, g.score, tail);
    KeyIsJoin([COMMA], ACCOUNT);
    FrontLacks(SCORE);
    IdNumber(FRONT, session, field, SCORE, 0);
    AccountFieldReads(account, g.score, tail);
  }

  predicate Scorable(name: Bytes) {
    0 !in name && !Holds(name, Quoted(SCORE))
  }

  lemma NamesText(session: Bytes, account: Bytes)
    requires ShortText(session) && ShortText(account)
    ensures 0 !in ResultNames(session, account) && |ResultNames(session, account)| <= 345
  {
    ResultKeysAreText();
  }

  lemma HeadText(session: Bytes, account: Bytes, g: Game)
    requires ShortText(session) && ShortText(account)
    ensures 0 !in ResultHead(session, account, g) && |ResultHead(session, account, g)| < 450
  {
    NamesText(session, account);
    ResultKeysAreText();
    Decimal.PrintDigits(g.score);
    Decimal.PrintDigits(g.kills);
    Decimal.PrintDigits(g.tick);
    PrintSize(g.score);
    PrintSize(g.kills);
    PrintSize(g.tick);
  }

  lemma ResultTextFits(session: Bytes, account: Bytes, g: Game, hash: Bytes, m: Meta)
    requires ShortText(session) && ShortText(account) && MetaFits(m) && 0 !in hash && |hash| == 64
    ensures 0 !in ResultText(session, account, g, hash, m)
    ensures 0 < |ResultText(session, account, g, hash, m)| < 1024
  {
    HeadText(session, account, g);
    MetaKeysAreText();
    TailKeysAreText();
    Decimal.PrintDigits(m.ruleset);
    PrintSize(m.ruleset);
  }

  /** When a finished game replaces a stored best result: when its score is higher than the
      number read from that result. */
  lemma BeatsExactly(score: Word, session: Bytes, account: Bytes, g: Game, hash: Bytes, m: Meta)
    requires ShortText(session) && ShortText(account) && MetaFits(m) && 0 !in hash && |hash| == 64
    ensures Beats(score, Some(ResultText(session, account, g, hash, m)))
            <==> score > ReadScore(session, account, g.score)
  {
    ResultTextFits(session, account, g, hash, m);
    ResultReads(session, account, g, hash, m);
  }

  /** The account's best is the result of game `g` in `session`. */
  ghost predicate BestIs(s: Storage, session: Bytes, account: Bytes, g: Game, hash: Bytes, m: Meta) {
    && ShortText(session) && ShortText(account) && MetaFits(m) && 0 !in hash && |hash| == 64
    && BestKey(account) in s && s[BestKey(account)] == ResultText(session, account, g, hash, m)
  }

  lemma BestRead(s: Storage, account: Bytes, next: Bytes, result: Bytes)
    requires BestKey(account) in s && |s[BestKey(account)]| < 1024
    ensures Read(s[ResultKey(next) := result], BestKey(account), VALUE_MAX - 1) == Some(s[BestKey(account)])
  {
    BestKeyDiffers(next, account);
  }

  /** A stored best is replaced exactly by the results whose score is higher than the number
      read from it. */
  lemma BestReplaced(s: Storage, session: Bytes, account: Bytes, g: Game, hash: Bytes, m: Meta,
                     next: Bytes, score: Word, result: Bytes)
    requires BestIs(s, session, account, g, hash, m)
    ensures Recorded(s, next, account, score, result)
            == if score > ReadScore(session, account, g.score)
               then s[ResultKey(next) := result][BestKey(account) := result] else s[ResultKey(next) := result]
  {
    ResultTextFits(session, account, g, hash, m);
    BestRead(s, account, next, result);
    BeatsExactly(score, session, account, g, hash, m);
  }

  /** The best of an account called score is overwritten by any positive score, however much
      lower. */
  lemma LowerScoreOverwrites(s: Storage, session: Bytes, account: Bytes, g: Game, hash: Bytes, m: Meta,
                             next: Bytes, score: Word, result: Bytes)
    requires account == SCORE && !Holds(session, Quoted(SCORE))
    requires BestIs(s, session, account, g, hash, m) && 0 < score < g.score
    ensures Recorded(s, next, account, score, result)
            == s[ResultKey(next) := result][BestKey(account) := result]
  {
    NamedSession(SCORE, SCORE);
    BestReplaced(s, session, account, g, hash, m, next, score, result);
  }

  // ----------------------------------------------------------------- the best score

  /** The highest score among an account's finished games. */
  function MaxScore(events: seq<Event>, account: Bytes): Option<Word> {
    if events == [] then None
    else
      var e := events[|events| - 1];
      var best := MaxScore(events[..|events| - 1], account);
      if !(e.Finished? && e.account == account) then best
      else if best.None? || e.game.score > best.value then Some(e.game.score)
      else best
  }

  /** The best score on record. */
  ghost predicate OnRecord(s: Storage, account: Bytes, best: Option<Word>) {
    var key := BestKey(account);
    if best.None? then key !in s
    else key in s && 0 < |s[key]| < 1024 && NumberValue(s[key], SCORE, 0) == best.value
  }

  ghost predicate SameBest(s: Storage, s1: Storage, account: Bytes) {
    var key := BestKey(account);
    (key in s1 <==> key in s) && (key in s ==> s1[key] == s[key])
  }

  lemma SavedSameBest(hash: Hash, s: Storage, x: Bytes, g: Game, account: Bytes)
    ensures SameBest(s, Saved(hash, s, x, g), account)
  {
    BestKeyDiffers(x, account);
  }

  lemma OthersSameBest(hash: Hash, s: Storage, e: Event, account: Bytes)
    requires !(e.Finished? && e.account == account)
    ensures SameBest(s, Apply(hash, s, e), account)
  {
    match e
    case Nothing =>
    case Created(x, a, meta) => BestKeyDiffers(x, account);
    case Queued(x, _) => BestKeyDiffers(x, account);
    case Executed(x, g, ticks, c) => BestKeyDiffers(x, account);
    case Finished(x, a, g, stored) =>
      SavedSameBest(hash, s, x, g.(completed := true), account);
      BestKeyDiffers(x, account);
      SameKeySameOwner(a, account);
  }

  lemma RecordUpdates(s: Storage, x: Bytes, account: Bytes, score: Word, result: Bytes, best: Option<Word>)
    requires OnRecord(s, account, best)
    requires 0 < |result| < 1024 && NumberValue(result, SCORE, 0) == score
    ensures OnRecord(Recorded(s, x, account, score, result), account,
                      if best.None? || score > best.value then Some(score) else best)
  {
    BestKeyDiffers(x, account);
  }

  lemma FinishUpdates(hash: Hash, s: Storage, x: Bytes, account: Bytes, g: Game, stored: Meta, best: Option<Word>)
    requires OnRecord(s, account, best)
    requires ShortText(x) && ShortText(account) && Scorable(account) && MetaFits(stored)
    requires Kept(x, SCORE, 0, g.score) == g.score
    ensures OnRecord(AfterFinish(hash, s, x, account, g, stored), account,
                      if best.None? || g.score > best.value then Some(g.score) else best)
  {
    var digits := Hex(hash(x, g));
    HexLacks(hash(x, g), QUOTE);
    HexLacks(hash(x, g), 0);
    ResultTextFits(x, account, g, digits, stored);
    ResultReads(x, account, g, digits, stored);
    var text := ResultText(x, account, g, digits, stored);
    SavedSameBest(hash, s, x, g, account);
    RecordUpdates(Saved(hash, s, x, g), x, account, g.score, text, best);
  }

  lemma MaxSnoc(events: seq<Event>, e: Event, account: Bytes)
    ensures MaxScore(events + [e], account)
            == var best := MaxScore(events, account);
               if !(e.Finished? && e.account == account) then best
               else if best.None? || e.game.score > best.value then Some(e.game.score) else best
  {
    assert (events + [e])[..|events|] == events;
  }

  lemma EventUpdates(hash: Hash, s: Storage, e: Event, events: seq<Event>, account: Bytes)
    requires Checked(s, e) && (e.Finished? && e.account == account ==> Scorable(account))
    requires e.Finished? ==> Kept(e.session, SCORE, 0, e.game.score) == e.game.score
    requires OnRecord(s, account, MaxScore(events, account))
    ensures OnRecord(Apply(hash, s, e), account, MaxScore(events + [e], account))
  {
    MaxSnoc(events, e, account);
    if e.Finished? && e.account == account {
      FinishUpdates(hash, s, e.session, account, e.game.(completed := true), e.stored, MaxScore(events, account));
    } else {
      OthersSameBest(hash, s, e, account);
    }
  }

  /** A finished game holds the score that its session's id would give. */
  lemma FinishedIsKept(hash: Hash, payloads: seq<Bytes>, e: Event)
    requires Checked(Run(hash, map[], payloads), e)
    ensures e.Finished? ==> Kept(e.session, SCORE, 0, e.game.score) == e.game.score
  {
    if e.Finished? {
      LoadedIsKept(hash, payloads, e.session);
    }
  }

  /** Over every run from an empty storage, whatever its sessions are called: the score on
      record for a scorable account is the maximum over all its finish steps, and there is a
      record exactly when it finished a game. An account that can own nothing needs no
      condition. */
  lemma {:induction false} BestIsMaximum(hash: Hash, payloads: seq<Bytes>, account: Bytes)
    requires CanOwn(account) ==> Scorable(account)
    ensures OnRecord(Run(hash, map[], payloads), account, MaxScore(Events(hash, map[], payloads), account))
  {
    if payloads != [] {
      var before, last := payloads[..|payloads| - 1], payloads[|payloads| - 1];
      var s, events := Run(hash, map[], before), Events(hash, map[], before);
      var e := EventOf(s, last);
      BestIsMaximum(hash, before, account);
      EventIsChecked(s, last);
      FinishedIsKept(hash, before, e);
      FinisherCanOwn(hash, before, e);
      EventUpdates(hash, s, e, events, account);
    }
  }
}
