// For which accounts the best score is the maximum over every run, and the runs that show it
// is not for the others.
module DoomBest {
  import opened Bytes
  import opened CText
  import opened DoomState
  import opened Hexadecimal
  import opened DoomService
  import opened DoomRuns
  import opened DoomOwners
  import opened DoomScores
  import opened DoomRequests
  import opened DoomSessions

  // ----------------------------------------------------------------- what is on record

  /** What the record of a game reads. */
  lemma RecordReads(hash: Hash, s: Storage, s1: Storage, t: Texts, g: Game)
    requires |t.x| == 1 && BestFrom(hash, s, s1, t, g)
    ensures NumberValue(s1[BestKey(t.account)], SCORE, 0) == Kept(t.account, SCORE, 0, g.score)
    ensures ReadScore(t.x, t.account, g.score) == Kept(t.account, SCORE, 0, g.score)
  {
    var done := g.(completed := true);
    OneCharacterIsTransparent(t.x, g);
    ResultTextFits(t.x, t.account, done, Hex(hash(t.x, done)), ReadMeta(MetaOf(s, t.x)));
    ResultReads(t.x, t.account, done, Hex(hash(t.x, done)), ReadMeta(MetaOf(s, t.x)));
  }

  ghost predicate AlwaysBest(hash: Hash, account: Bytes) {
    forall payloads ::
      OnRecord(Run(hash, map[], payloads), account, MaxScore(Events(hash, map[], payloads), account))
  }

  /** If the record is always right, the account's name leaves the scores of these games. */
  lemma FirstReads(hash: Hash, t: Texts, ticks: nat)
    requires Serves(t) && ticks <= 50 && AlwaysBest(hash, t.account)
    ensures Kept(t.account, SCORE, 0, 1001 * ticks) == 1001 * ticks
  {
    var payloads := FinishedGame(t, ticks);
    GameScores(t, ticks);
    var s, s1 := FirstGame(hash, t, [], ticks);
    assert OnRecord(Run(hash, map[], payloads), t.account, MaxScore(Events(hash, map[], payloads), t.account));
    RecordReads(hash, s, s1, t, GameOf(t, ticks));
  }

  /** Over every run the record of an account is the maximum over its finished games exactly
      when it can own no session, or does not hold the score's quoted name. */
  lemma BestExactly(hash: Hash, account: Bytes)
    ensures AlwaysBest(hash, account) <==> (CanOwn(account) ==> Scorable(account))
  {
    if CanOwn(account) ==> Scorable(account) {
      forall payloads
        ensures OnRecord(Run(hash, map[], payloads), account, MaxScore(Events(hash, map[], payloads), account)) {
        BestIsMaximum(hash, payloads, account);
      }
    } else if AlwaysBest(hash, account) {
      var x: Bytes := [115];
      TextsServe(x, account);
      FirstReads(hash, TextsFor(x, account), 0);
      FirstReads(hash, TextsFor(x, account), 1);
    }
  }

  /** Of the accounts without a quote and a backslash, score is the only exception. */
  lemma BestOfPlainAccounts(hash: Hash, account: Bytes)
    requires Plain(account) && account != [] && ShortText(account)
    ensures AlwaysBest(hash, account) <==> account != SCORE
  {
    EscapeOfPlain(account);
    PlainIdHolds(account, SCORE);
    BestExactly(hash, account);
  }

  // ---------------------------------------------------------------- a lower score wins

  /** Two sessions of an account, the first played for longer; the account holds the score's
      quoted name, and a number below the second score. */
  ghost predicate Falls(t: Texts, u: Texts, long: nat, short: nat) {
    && Serves(t) && Serves(u) && t.x != u.x && t.account == u.account && short < long <= 50
    && Holds(u.account, Quoted(SCORE)) && NumberValue(Quoted(u.account), SCORE, 0) < 1001 * short
  }

  lemma SecondFinish(hash: Hash, t: Texts, u: Texts, long: nat, short: nat, s0: Storage, s1: Storage, s: Storage)
    requires Falls(t, u, long, short)
    requires BestFrom(hash, s0, s1, t, GameOf(t, long)) && Played(s1, s, u, GameOf(u, short))
    ensures BestFrom(hash, s, Step(hash, s, u.finish), u, GameOf(u, short))
  {
    GameScores(u, short);
    RecordReads(hash, s0, s1, t, GameOf(t, long));
    NextFinish(hash, s0, s, t, GameOf(t, long), u, GameOf(u, short));
  }

  /** After them the lower score is on record. */
  lemma LowerScoreOnRecord(hash: Hash, t: Texts, u: Texts, long: nat, short: nat) returns (s: Storage)
    requires Falls(t, u, long, short)
    ensures var payloads := FinishedGame(t, long) + FinishedGame(u, short);
            MaxScore(Events(hash, map[], payloads), u.account) == Some(1001 * long)
            && BestFrom(hash, s, Run(hash, map[], payloads), u, GameOf(u, short))
    ensures GameOf(u, short).score == 1001 * short
  {
    var s0, s1 := FirstGame(hash, t, u.x, long);
    GameScores(u, short);
    s := GameRuns(hash, FinishedGame(t, long), u, s1, Some(1001 * long), short);
    SecondFinish(hash, t, u, long, short, s0, s1, s);
  }

  /** There are such sessions of the account called score. */
  lemma ScoreFalls(x: Bytes, y: Bytes, account: Bytes, long: nat, short: nat)
    requires account == SCORE && OneCharacter(x) && OneCharacter(y) && x != y && 0 < short < long <= 50
    ensures Falls(TextsFor(x, account), TextsFor(y, account), long, short)
  {
    NamedSession(account, SCORE);
    EscapeOfPlain(account);
    TextsServe(x, account);
    TextsServe(y, account);
    assert Kept(account, SCORE, 0, 0) == 0;
  }
}
