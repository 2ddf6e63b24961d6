// Requests as text: any session and any account can be asked for.
module DoomPayloads {
  import opened Bytes
  import opened Text
  import opened CText
  import opened DoomState
  import opened DoomService
  import opened DoomRuns
  import opened DoomOwners
  import Decimal

  // -------------------------------------------------------------------- the text

  /** "keys" */
  const KEYS: Bytes := [107, 101, 121, 115]
  /** The map "m" and the difficulty "d". */
  const LEVEL: Bytes := [109]
  const SKILL: Bytes := [100]

  /** Who asks, for which session, and which of the two comes last, as the one that may be
      any text. */
  datatype Asker = Asker(session: Bytes, account: Bytes, accountLast: bool) {
    function FrontName(): Bytes { if accountLast then SESSION_ID else ACCOUNT }
    function FrontValue(): Bytes { if accountLast then session else account }
    function BackName(): Bytes { if accountLast then ACCOUNT else SESSION_ID }
    function BackValue(): Bytes { if accountLast then account else session }

    predicate Fits() {
      && |FrontValue()| == 1 && Plain(FrontValue()) && 0 !in FrontValue()
      && ShortText(BackValue()) && BackValue() != []
    }
  }

  /** The fields in front, cut at the quotes. */
  function Fields(op: Bytes, a: Asker): seq<Bytes> {
    [[OPEN], VERSION, Amount(1), OP, [COLON], op, [COMMA], a.FrontName(), [COLON], a.FrontValue(), [COMMA]]
  }

  /** The fields of a game that is played: where, and one tick with forward and fire held. */
  const PLAYED: seq<Bytes> := [MAP, [COLON], LEVEL, [COMMA], DIFFICULTY, [COLON], SKILL, [COMMA], TICKS, Amount(1),
                               KEYS, [COLON], FORWARD + FIRE, [COMMA]]

  function Front(op: Bytes, more: seq<Bytes>, a: Asker): seq<Bytes> {
    Fields(op, a) + more + [a.BackName(), [COLON]]
  }

  function Back(a: Asker): Bytes {
    [QUOTE] + (Escape(a.BackValue()) + [QUOTE] + [CLOSE])
  }

  /** A request's text. */
  function Printed(op: Bytes, more: seq<Bytes>, a: Asker): Bytes {
    Join(Front(op, more, a), QUOTE) + Back(a)
  }

  /** A request that is printed here. */
  predicate Asks(op: Bytes, more: seq<Bytes>, a: Asker) {
    && (op == CREATE || op == INPUT || op == EXECUTE || op == FINISH)
    && (more == [] || more == PLAYED) && a.Fits()
  }

  lemma FieldsFree(op: Bytes, a: Asker)
    requires Asks(op, [], a)
    ensures Free(Fields(op, a), QUOTE) && Free(Fields(op, a), 0)
  {
    AmountFree(1);
  }

  lemma PlayedFree()
    ensures Free(PLAYED, QUOTE) && Free(PLAYED, 0)
  {
    AmountFree(1);
  }

  lemma FrontCuts(op: Bytes, more: seq<Bytes>, a: Asker)
    ensures |Front(op, more, a)| == 13 + |more| && Front(op, more, a)[11 + |more|] == a.BackName()
    ensures Front(op, more, a)[..11] == Fields(op, a) && Front(op, more, a)[11..11 + |more|] == more
    ensures Front(op, more, a)[12 + |more|..] == [[COLON]]
  {
  }

  lemma FrontFree(op: Bytes, more: seq<Bytes>, a: Asker)
    requires Asks(op, more, a)
    ensures Free(Front(op, more, a), QUOTE) && Free(Front(op, more, a), 0)
  {
    FieldsFree(op, a);
    PlayedFree();
    assert Free([a.BackName(), [COLON]], QUOTE) && Free([a.BackName(), [COLON]], 0);
  }

  lemma PrintedIsText(op: Bytes, more: seq<Bytes>, a: Asker)
    requires Asks(op, more, a)
    ensures 0 !in Printed(op, more, a)
  {
    FrontFree(op, more, a);
    JoinWithout(Front(op, more, a), QUOTE, 0);
    EscapedIsText(a.BackValue());
  }

  // ------------------------------------------------------------------ looking it up

  lemma FrontCut(front: seq<Bytes>, back: Bytes, j: nat, name: Bytes)
    requires 1 <= j && j + 1 < |front| && front[j] == name
    ensures Join(front, QUOTE) + back
            == Join(front[..j], QUOTE) + (Quoted(name) + (Join(front[j + 1..], QUOTE) + back))
  {
    TextAroundName(front, j, name);
    LastMoves(Join(front[..j], QUOTE), Quoted(name), Join(front[j + 1..], QUOTE), back);
  }

  lemma LastMoves(a: Bytes, b: Bytes, c: Bytes, d: Bytes)
    ensures a + (b + c) + d == a + (b + (c + d))
  {
  }

  /** A lookup stops after the first piece that is the name. */
  lemma FrontLookup(front: seq<Bytes>, back: Bytes, j: nat, name: Bytes)
    requires Free(front, QUOTE) && 0 !in Join(front, QUOTE) + back
    requires 1 <= j && j + 1 < |front| && front[j] == name
    requires forall i :: 1 <= i < j ==> front[i] != name
    ensures AfterName(Join(front, QUOTE) + back, name) == Some(Join(front[j + 1..], QUOTE) + back)
  {
    FrontCut(front, back, j, name);
    assert QUOTE !in front[j];
    NameFound(front[..j], name, Join(front[j + 1..], QUOTE) + back);
  }

  lemma PlainField(parts: seq<Bytes>, back: Bytes, capacity: nat)
    requires |parts| > 2 && parts[0] == [COLON] && Plain(parts[1]) && |parts[1]| < capacity
    ensures StringAt(Join(parts, QUOTE) + back, capacity) == parts[1]
  {
    var v, rest := parts[1], Join(parts[2..], QUOTE) + back;
    assert parts[1..][1..] == parts[2..];
    assert Join(parts[1..], QUOTE) == v + [QUOTE] + Join(parts[2..], QUOTE);
    assert Join(parts, QUOTE) + back == [COLON] + ([QUOTE] + (v + [QUOTE] + rest));
    StringScanned(v + [QUOTE] + rest, capacity);
    UnquoteExact(v, rest, capacity, 0);
    assert (v + [QUOTE] + rest)[0..] == v + [QUOTE] + rest && v[..0] == [];
  }

  lemma AmountInFront(digits: Bytes, after: Bytes)
    ensures [COLON] + digits + [COMMA] + after == [COLON] + digits + ([COMMA] + after)
  {
  }

  lemma NumberField(parts: seq<Bytes>, back: Bytes, n: Word, fallback: Word)
    requires parts != [] && parts[0] == Amount(n)
    ensures NumberAt(Join(parts, QUOTE) + back, fallback) == n
  {
    var after := AfterFirst(parts) + back;
    JoinFirst(parts, back);
    AmountInFront(Decimal.Print(n), after);
    NumberAtPrinted(n, fallback, [COMMA] + after);
  }

  /** Which piece a field's name is. */
  function NameIndex(name: Bytes, more: seq<Bytes>, a: Asker): nat {
    if name == VERSION then 1 else if name == OP then 3 else if name == a.FrontName() then 7
    else if name == MAP then 11 else if name == DIFFICULTY then 15 else if name == TICKS then 19
    else 11 + |more|
  }

  predicate Named(name: Bytes, more: seq<Bytes>) {
    || name == VERSION || name == OP || name == ACCOUNT || name == SESSION_ID
    || (more == PLAYED && (name == MAP || name == DIFFICULTY || name == TICKS))
  }

  lemma NamesDiffer(op: Bytes, more: seq<Bytes>, a: Asker, name: Bytes, i: nat)
    requires Asks(op, more, a) && Named(name, more)
    requires 1 <= i < NameIndex(name, more, a)
    ensures Front(op, more, a)[i] != name
  {
    FrontCuts(op, more, a);
    if i < 11 {
      assert Front(op, more, a)[i] == Fields(op, a)[i];
      FieldsDiffer(op, a, name, i);
    } else {
      assert Front(op, more, a)[i] == more[i - 11];
      PlayedDiffers(name, i - 11);
    }
  }

  lemma FieldsDiffer(op: Bytes, a: Asker, name: Bytes, i: nat)
    requires Asks(op, [], a) && Named(name, PLAYED)
    requires 1 <= i < 11 && i < NameIndex(name, PLAYED, a)
    ensures Fields(op, a)[i] != name
  {
    var piece := Fields(op, a)[i];
    assert |piece| == |name| ==> piece[0] != name[0];
  }

  lemma PlayedDiffers(name: Bytes, i: nat)
    requires Named(name, PLAYED) && name != MAP && i < |PLAYED|
    requires name == DIFFICULTY ==> i < 4
    requires name == TICKS ==> i < 8
    ensures PLAYED[i] != name
  {
    var piece := PLAYED[i];
    assert |piece| == |name| ==> piece[0] != name[0];
  }

  lemma FieldFound(op: Bytes, more: seq<Bytes>, a: Asker, name: Bytes)
    requires Asks(op, more, a) && Named(name, more)
    ensures NameIndex(name, more, a) + 1 < |Front(op, more, a)|
    ensures AfterName(Printed(op, more, a), name)
            == Some(Join(Front(op, more, a)[NameIndex(name, more, a) + 1..], QUOTE) + Back(a))
  {
    var front, j := Front(op, more, a), NameIndex(name, more, a);
    FrontCuts(op, more, a);
    FrontFree(op, more, a);
    PrintedIsText(op, more, a);
    assert j < 11 ==> front[j] == Fields(op, a)[j];
    assert 11 <= j < 11 + |more| ==> front[j] == more[j - 11];
    forall i | 1 <= i < j ensures front[i] != name {
      NamesDiffer(op, more, a, name, i);
    }
    FrontLookup(front, Back(a), j, name);
  }

  // ------------------------------------------------------------- what a request says

  /** The string field whose name is the piece before two others. */
  lemma StringFound(op: Bytes, more: seq<Bytes>, a: Asker, name: Bytes, capacity: nat)
    requires Asks(op, more, a) && Named(name, more)
    requires name != a.BackName() && name != VERSION && name != TICKS
    requires NameIndex(name, more, a) + 2 < |Front(op, more, a)|
    requires var v := Front(op, more, a)[NameIndex(name, more, a) + 2]; Plain(v) && |v| < capacity
    ensures StringValue(Printed(op, more, a), name, capacity) == Front(op, more, a)[NameIndex(name, more, a) + 2]
  {
    var front, j := Front(op, more, a), NameIndex(name, more, a);
    FieldFound(op, more, a, name);
    FrontCuts(op, more, a);
    assert j < 9 ==> front[j + 1] == Fields(op, a)[j + 1];
    assert j >= 11 ==> front[j + 1] == more[j - 10];
    PlainField(front[j + 1..], Back(a), capacity);
  }

  lemma LastFound(op: Bytes, more: seq<Bytes>, a: Asker)
    requires Asks(op, more, a)
    ensures StringValue(Printed(op, more, a), a.BackName(), ID_CAPACITY) == a.BackValue()
  {
    var body := Escape(a.BackValue()) + [QUOTE] + [CLOSE];
    FieldFound(op, more, a, a.BackName());
    FrontCuts(op, more, a);
    assert Join([[COLON]], QUOTE) == [COLON];
    StringScanned(body, ID_CAPACITY);
    UnquoteEscaped(a.BackValue(), [CLOSE], ID_CAPACITY, []);
    assert [] + a.BackValue() == a.BackValue();
  }

  lemma VersionFound(op: Bytes, more: seq<Bytes>, a: Asker)
    requires Asks(op, more, a)
    ensures NumberValue(Printed(op, more, a), VERSION, 0) == 1
  {
    FieldFound(op, more, a, VERSION);
    FrontCuts(op, more, a);
    assert Front(op, more, a)[2] == Fields(op, a)[2];
    NumberField(Front(op, more, a)[2..], Back(a), 1, 0);
  }

  lemma TicksFound(op: Bytes, a: Asker)
    requires Asks(op, PLAYED, a)
    ensures NumberValue(Printed(op, PLAYED, a), TICKS, 0) == 1
  {
    FieldFound(op, PLAYED, a, TICKS);
    FrontCuts(op, PLAYED, a);
    assert Front(op, PLAYED, a)[20] == PLAYED[9];
    NumberField(Front(op, PLAYED, a)[20..], Back(a), 1, 0);
  }

  lemma DecodesAs(payload: Bytes, op: Bytes, session: Bytes, account: Bytes)
    requires NumberValue(payload, VERSION, 0) == 1 && StringValue(payload, OP, 32) == op
    requires StringValue(payload, SESSION_ID, ID_CAPACITY) == session
    requires StringValue(payload, ACCOUNT, ID_CAPACITY) == account
    requires op != [] && session != [] && account != [] && 0 !in op && 0 !in session && 0 !in account
    ensures Decode(payload) == Some(Request(op, session, account))
  {
    CStringOfText(op);
    CStringOfText(session);
    CStringOfText(account);
  }

  lemma OperatorText(op: Bytes, a: Asker)
    requires Asks(op, [], a)
    ensures 0 !in op && Plain(op) && 0 < |op| < 32
  {
  }

  lemma OpFound(op: Bytes, more: seq<Bytes>, a: Asker)
    requires Asks(op, more, a)
    ensures StringValue(Printed(op, more, a), OP, 32) == op
  {
    OperatorText(op, a);
    FrontCuts(op, more, a);
    assert Front(op, more, a)[5] == Fields(op, a)[5] == op;
    StringFound(op, more, a, OP, 32);
  }

  lemma FirstFound(op: Bytes, more: seq<Bytes>, a: Asker)
    requires Asks(op, more, a)
    ensures StringValue(Printed(op, more, a), a.FrontName(), ID_CAPACITY) == a.FrontValue()
  {
    FrontCuts(op, more, a);
    assert Front(op, more, a)[9] == Fields(op, a)[9] == a.FrontValue();
    StringFound(op, more, a, a.FrontName(), ID_CAPACITY);
  }

  /** Every request asks for what it says: any session, or any account, that is not empty. */
  lemma PrintedDecodes(op: Bytes, more: seq<Bytes>, a: Asker)
    requires Asks(op, more, a)
    ensures Decode(Printed(op, more, a)) == Some(Request(op, a.session, a.account))
  {
    OperatorText(op, a);
    VersionFound(op, more, a);
    OpFound(op, more, a);
    FirstFound(op, more, a);
    LastFound(op, more, a);
    DecodesAs(Printed(op, more, a), op, a.session, a.account);
  }

  lemma PlayedMeta(op: Bytes, a: Asker)
    requires Asks(op, PLAYED, a)
    ensures RequestedMeta(Printed(op, PLAYED, a)).Some?
  {
    FrontCuts(op, PLAYED, a);
    assert Front(op, PLAYED, a)[13] == PLAYED[2] == LEVEL && Front(op, PLAYED, a)[17] == PLAYED[6] == SKILL;
    StringFound(op, PLAYED, a, MAP, 64);
    StringFound(op, PLAYED, a, DIFFICULTY, 64);
  }

  // --------------------------------------------------------------- what is held

  lemma {:induction false} Occurs(a: Bytes, needle: Bytes, b: Bytes)
    ensures IndexOf(a + (needle + b), needle).Some?
  {
    if a == [] {
      assert a + (needle + b) == needle + b;
    } else {
      assert (a + (needle + b))[1..] == a[1..] + (needle + b);
      Occurs(a[1..], needle, b);
    }
  }

  /** The text around the keys. */
  lemma KeysCut(op: Bytes, a: Asker) returns (head: Bytes, rest: Bytes)
    requires Asks(op, PLAYED, a)
    ensures Printed(op, PLAYED, a) == head + (Quoted(FORWARD + FIRE) + rest)
  {
    var front, back := Front(op, PLAYED, a), Back(a);
    FrontCuts(op, PLAYED, a);
    assert front[23] == PLAYED[12] == FORWARD + FIRE;
    FrontCut(front, back, 23, FORWARD + FIRE);
    head, rest := Join(front[..23], QUOTE), Join(front[24..], QUOTE) + back;
  }

  lemma TwoWords(head: Bytes, a: Bytes, b: Bytes, rest: Bytes)
    ensures head + (Quoted(a + b) + rest) == (head + [QUOTE]) + (a + (b + [QUOTE] + rest))
    ensures head + (Quoted(a + b) + rest) == (head + [QUOTE] + a) + (b + ([QUOTE] + rest))
  {
    assert Quoted(a + b) == [QUOTE] + a + b + [QUOTE];
  }

  lemma KeysPressed(op: Bytes, a: Asker)
    requires Asks(op, PLAYED, a)
    ensures IndexOf(Printed(op, PLAYED, a), FORWARD).Some?
    ensures IndexOf(Printed(op, PLAYED, a), FIRE).Some?
  {
    var head, rest := KeysCut(op, a);
    TwoWords(head, FORWARD, FIRE, rest);
    Occurs(head + [QUOTE], FORWARD, FIRE + [QUOTE] + rest);
    Occurs(head + [QUOTE] + FORWARD, FIRE, [QUOTE] + rest);
  }

  lemma PrintedHolds(op: Bytes, a: Asker)
    requires Asks(op, PLAYED, a)
    ensures Held(Some(Printed(op, PLAYED, a))).forward && Held(Some(Printed(op, PLAYED, a))).fire
  {
    PrintedIsText(op, PLAYED, a);
    CStringOfText(Printed(op, PLAYED, a));
    KeysPressed(op, a);
  }

  lemma {:induction false} JoinFits(parts: seq<Bytes>, size: nat)
    requires forall i :: 0 <= i < |parts| ==> |parts[i]| <= size
    ensures |Join(parts, QUOTE)| <= |parts| * (size + 1)
  {
    if |parts| > 1 {
      JoinFits(parts[1..], size);
    }
  }

  lemma PrintedFits(op: Bytes, a: Asker)
    requires Asks(op, PLAYED, a)
    ensures |Printed(op, PLAYED, a)| < VALUE_MAX
  {
    var front := Front(op, PLAYED, a);
    FrontCuts(op, PLAYED, a);
    forall i | 0 <= i < |front| ensures |front[i]| <= 20 {
      assert i < 11 ==> front[i] == Fields(op, a)[i];
      assert 11 <= i < 25 ==> front[i] == PLAYED[i - 11];
      assert i == 26 ==> front[i] == front[26..][0];
    }
    JoinFits(front, 20);
  }
}
