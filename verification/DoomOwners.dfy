// Who owns a DOOM session, and for how long.
module DoomOwners {
  import opened Bytes
  import opened Text
  import opened CText
  import opened DoomState
  import opened DoomService
  import opened DoomRuns
  import Decimal

  lemma Grow(a: Bytes, b: Bytes, more: Bytes)
    requires a <= b
    ensures a <= b + more
  {
  }

  /** The metadata begins with the account between quotes, and a comma and a quote follow. */
  lemma MetaStartsWithAccount(account: Bytes, m: Meta)
    ensures Key([OPEN], ACCOUNT) + [QUOTE] + account + [QUOTE, COMMA, QUOTE] <= MetaText(account, m)
  {
    var p, more := Key([OPEN], ACCOUNT) + [QUOTE] + account, [QUOTE, COMMA, QUOTE];
    var q := Key([QUOTE, COMMA], MAP) + [QUOTE];
    assert q == more + q[3..];
    assert p + q == p + more + q[3..];
    Grow(p + more, p + q, m.level);
    var t := MetaHead(account, m.level);
    assert p + more <= t;
    var t1 := t + (Key([QUOTE, COMMA], DIFFICULTY) + [QUOTE]) + m.difficulty;
    var t2 := t1 + Key([QUOTE, COMMA], RULESET) + Decimal.Print(m.ruleset);
    var t3 := t2 + (Key([COMMA], RUNTIME) + [QUOTE]) + m.runtime;
    assert MetaText(account, m) == t3 + [QUOTE, CLOSE];
  }

  lemma AfterAccountName(account: Bytes, tail: Bytes)
    requires 0 !in account && 0 !in tail
    ensures var text := Key([OPEN], ACCOUNT) + [QUOTE] + account + [QUOTE] + tail;
            AfterName(text, ACCOUNT) == Some([COLON] + ([QUOTE] + (account + [QUOTE] + tail)))
  {
    var text, rest := Key([OPEN], ACCOUNT) + [QUOTE] + account + [QUOTE] + tail,
                      [COLON] + ([QUOTE] + (account + [QUOTE] + tail));
    assert Join([[OPEN]], QUOTE) == [OPEN];
    assert text == Join([[OPEN]], QUOTE) + (Quoted(ACCOUNT) + rest);
    NameFound([[OPEN]], ACCOUNT, rest);
  }

  lemma AccountScanned(account: Bytes, tail: Bytes)
    requires 0 !in account && 0 !in tail
    ensures var text := Key([OPEN], ACCOUNT) + [QUOTE] + account + [QUOTE] + tail;
            StringValue(text, ACCOUNT, ID_CAPACITY) == Unquote(account + [QUOTE] + tail, ID_CAPACITY, [])
  {
    AfterAccountName(account, tail);
    StringScanned(account + [QUOTE] + tail, ID_CAPACITY);
  }

  lemma StringScanned(body: Bytes, capacity: nat)
    ensures StringAt([COLON] + ([QUOTE] + body), capacity) == Unquote(body, capacity, [])
  {
    var w := [QUOTE] + body;
    assert ([COLON] + w)[1..] == w && w[1..] == body;
    assert SkipSeparators(w) == w && SkipSeparators([COLON] + w) == w;
  }

  /** The account read back from metadata is the one stored exactly when it holds no quote
      and no backslash. */
  lemma AccountReads(account: Bytes, tail: Bytes)
    requires 0 !in account && 0 !in tail && |account| < ID_CAPACITY
    ensures var text := Key([OPEN], ACCOUNT) + [QUOTE] + account + [QUOTE] + tail;
            StringValue(text, ACCOUNT, ID_CAPACITY) == account <==> Plain(account)
  {
    var body := account + [QUOTE] + tail;
    AccountScanned(account, tail);
    UnquoteExact(account, tail, ID_CAPACITY, 0);
    assert body[0..] == body && account[..0] == [];
  }

  /** An account and metadata that a create request stores. */
  predicate Storable(account: Bytes, m: Meta) {
    ShortText(account) && MetaFits(m) && |m.level| < 64 && |m.difficulty| < 64
  }

  lemma MetaTextFits(account: Bytes, m: Meta)
    requires Storable(account, m)
    ensures 0 !in MetaText(account, m) && |MetaText(account, m)| < META_MAX
  {
    MetaKeysAreText();
    PrintSize(m.ruleset);
    Decimal.PrintDigits(m.ruleset);
  }

  lemma StoredOwner(s: Storage, session: Bytes, account: Bytes, m: Meta, other: Bytes)
    requires Storable(account, m)
    requires MetaKey(session) in s && s[MetaKey(session)] == MetaText(account, m)
    ensures Owns(s, session, other)
            <==> StringValue(MetaText(account, m), ACCOUNT, ID_CAPACITY) != []
                 && Field(MetaText(account, m), ACCOUNT, ID_CAPACITY) == other
  {
    MetaTextFits(account, m);
  }

  /** The two characters between the account's closing quote and the next opening one. */
  const NEXT_FIELD: Bytes := [COMMA, QUOTE]

  /** What follows the account in its metadata. */
  function MetaTail(account: Bytes, m: Meta): (tail: Bytes)
    requires Storable(account, m)
    ensures 0 !in tail && MetaText(account, m) == Key([OPEN], ACCOUNT) + [QUOTE] + account + [QUOTE] + tail
    ensures NEXT_FIELD <= tail
  {
    MetaTextFits(account, m);
    MetaStartsWithAccount(account, m);
    var front := Key([OPEN], ACCOUNT) + [QUOTE] + account;
    assert front + [QUOTE, COMMA, QUOTE] == front + [QUOTE] + NEXT_FIELD;
    MetaText(account, m)[|front + [QUOTE]|..]
  }

  lemma AccountOfMeta(account: Bytes, m: Meta)
    requires Storable(account, m)
    ensures StringValue(MetaText(account, m), ACCOUNT, ID_CAPACITY) == account <==> Plain(account)
  {
    AccountReads(account, MetaTail(account, m));
  }

  lemma {:induction false} UnquoteText(s: Bytes, capacity: nat, done: Bytes)
    requires 0 !in s && 0 !in done
    ensures 0 !in Unquote(s, capacity, done)
    decreases |s|
  {
    if s != [] && s[0] != QUOTE && |done| + 1 < capacity {
      var skip := if s[0] == BACKSLASH && |s| > 1 then 1 else 0;
      UnquoteText(s[skip + 1..], capacity, done + [s[skip]]);
    }
  }

  lemma {:induction false} SkipText(s: Bytes)
    requires 0 !in s
    ensures 0 !in SkipSeparators(s)
  {
    if s != [] && Separator(s[0]) {
      SkipText(s[1..]);
    }
  }

  lemma StringText(json: Bytes, name: Bytes, capacity: nat)
    requires 0 !in json
    ensures 0 !in StringValue(json, name, capacity)
  {
    match AfterName(json, name)
    case None =>
    case Some(s) =>
      assert 0 !in s;
      SkipText(s);
      var t := SkipSeparators(s);
      if t != [] {
        UnquoteText(t[1..], capacity, []);
      }
  }

  /** The account a session belongs to, as read back from its metadata. */
  function OwnerField(account: Bytes, m: Meta): Bytes {
    Field(MetaText(account, m), ACCOUNT, ID_CAPACITY)
  }

  /** Who owns a session whose metadata was stored for `account`. */
  lemma OwnerOfMeta(s: Storage, session: Bytes, account: Bytes, m: Meta, other: Bytes)
    requires Storable(account, m)
    requires MetaKey(session) in s && s[MetaKey(session)] == MetaText(account, m)
    ensures var owner := OwnerField(account, m);
            (Owns(s, session, other) <==> owner != [] && other == owner)
            && (owner != [] && owner == account <==> Plain(account) && account != [])
  {
    var read := StringValue(MetaText(account, m), ACCOUNT, ID_CAPACITY);
    MetaTextFits(account, m);
    StringText(MetaText(account, m), ACCOUNT, ID_CAPACITY);
    CStringOfText(read);
    AccountOfMeta(account, m);
    StoredOwner(s, session, account, m, other);
  }

  lemma CreatedIsLoadable(hash: Hash, s: Storage, session: Bytes, account: Bytes, meta: Option<Meta>)
    requires |session| < ID_CAPACITY
    ensures Load(AfterCreate(hash, s, session, account, meta), session).Some?
  {
    CreateKeepsState(hash, s, session, account, meta, session);
    LoadSaved(hash, s, session, NEW_GAME);
  }

  /** A session is bound for good to the one account that is read back from its metadata, if
      any: that is the creator exactly when its account is not empty and holds no quote and
      no backslash. */
  lemma BoundToCreator(hash: Hash, s: Storage, payload: Bytes, rest: seq<Bytes>, other: Bytes)
    requires var e := EventOf(s, payload); e.Created? && e.meta.Some?
    ensures var e, s1 := EventOf(s, payload), Run(hash, Step(hash, s, payload), rest);
            var owner := OwnerField(e.account, e.meta.value);
            (Owns(s1, e.session, other) <==> owner != [] && other == owner)
            && (owner != [] && owner == e.account <==> Plain(e.account) && e.account != [])
  {
    var e := EventOf(s, payload);
    EventIsChecked(s, payload);
    var s1 := AfterCreate(hash, s, e.session, e.account, e.meta);
    CreatedIsLoadable(hash, s, e.session, e.account, e.meta);
    OwnerOfMeta(s1, e.session, e.account, e.meta.value, other);
    SessionsArePermanent(hash, s1, rest, e.session);
  }

  function Escaped(b: Byte): Bytes {
    if Plain([b]) then [b] else [BACKSLASH, b]
  }

  /** Each quote and backslash behind a backslash of its own. */
  function Escape(s: Bytes): (r: Bytes)
    ensures |s| <= |r| <= 2 * |s|
  {
    if s == [] then [] else Escaped(s[0]) + Escape(s[1..])
  }

  /** An escaped text is read back as it was. */
  lemma {:induction false} UnquoteEscaped(s: Bytes, rest: Bytes, capacity: nat, done: Bytes)
    requires |done| + |s| < capacity
    ensures Unquote(Escape(s) + [QUOTE] + rest, capacity, done) == done + s
  {
    if s == [] {
      assert (Escape(s) + [QUOTE] + rest)[0] == QUOTE && done + s == done;
    } else {
      var more := Escape(s[1..]) + [QUOTE] + rest;
      assert Escape(s) + [QUOTE] + rest == Escaped(s[0]) + more;
      UnquoteStep(s[0], more, capacity, done);
      assert done + [s[0]] + s[1..] == done + s;
      UnquoteEscaped(s[1..], rest, capacity, done + [s[0]]);
    }
  }

  lemma UnquoteStep(b: Byte, more: Bytes, capacity: nat, done: Bytes)
    requires |done| + 1 < capacity
    ensures Unquote(Escaped(b) + more, capacity, done) == Unquote(more, capacity, done + [b])
  {
    var t := Escaped(b) + more;
    assert Plain([b]) <==> b != QUOTE && b != BACKSLASH;
    assert t[|Escaped(b)|..] == more && t[|Escaped(b)| - 1] == b;
  }

  // ------------------------------------------------------------- who can own a session

  predicate EndsWith(s: Bytes, end: Bytes) {
    |s| >= |end| && s[|s| - |end|..] == end
  }

  /** The accounts that are read back from some metadata: those whose escaped form is short
      enough, or two too long when the text ends as the metadata goes on. */
  predicate CanOwn(account: Bytes) {
    && account != [] && ShortText(account)
    && (|Escape(account)| < ID_CAPACITY
        || (EndsWith(account, [QUOTE, COMMA]) && |Escape(account)| < ID_CAPACITY + 2))
  }

  /** An account whose sessions belong to `owner`: its escaped form, or that of its front with
      a backslash that takes the closing quote along. */
  function CreatorFor(owner: Bytes): Bytes {
    if |Escape(owner)| < ID_CAPACITY || |owner| < 2 then Escape(owner)
    else Escape(owner[..|owner| - 2]) + [BACKSLASH]
  }

  lemma {:induction false} EscapeConcat(a: Bytes, b: Bytes)
    ensures Escape(a + b) == Escape(a) + Escape(b)
  {
    if a == [] {
      assert a + b == b;
    } else {
      assert (a + b)[1..] == a[1..] + b;
      EscapeConcat(a[1..], b);
    }
  }

  lemma EscapeNext()
    ensures Escape([QUOTE, COMMA]) == [BACKSLASH, QUOTE, COMMA]
  {
    assert [QUOTE, COMMA][1..] == [COMMA] && [COMMA][1..] == [];
  }

  lemma EscapeFront(owner: Bytes)
    requires EndsWith(owner, [QUOTE, COMMA])
    ensures |Escape(owner)| == |Escape(owner[..|owner| - 2])| + 3
  {
    assert owner == owner[..|owner| - 2] + [QUOTE, COMMA];
    EscapeConcat(owner[..|owner| - 2], [QUOTE, COMMA]);
    EscapeNext();
  }

  lemma CreatorFits(owner: Bytes)
    requires CanOwn(owner)
    ensures ShortText(CreatorFor(owner)) && CreatorFor(owner) != []
  {
    EscapedIsText(owner);
    if |Escape(owner)| >= ID_CAPACITY {
      EscapeFront(owner);
      EscapedIsText(owner[..|owner| - 2]);
    }
  }

  /** Escaped text is copied as it was, whatever follows. */
  lemma {:induction false} UnquotePast(s: Bytes, rest: Bytes, capacity: nat, done: Bytes)
    requires |done| + |s| < capacity
    ensures Unquote(Escape(s) + rest, capacity, done) == Unquote(rest, capacity, done + s)
  {
    if s == [] {
      assert Escape(s) + rest == rest && done + s == done;
    } else {
      var more := Escape(s[1..]) + rest;
      assert Escape(s) + rest == Escaped(s[0]) + more;
      UnquoteStep(s[0], more, capacity, done);
      assert done + [s[0]] + s[1..] == done + s;
      UnquotePast(s[1..], rest, capacity, done + [s[0]]);
    }
  }

  /** After a backslash the closing quote is copied, and the text ends at the next one. */
  lemma UnquoteNext(rest: Bytes, capacity: nat, done: Bytes)
    requires |done| + 2 < capacity
    ensures Unquote([BACKSLASH, QUOTE, COMMA, QUOTE] + rest, capacity, done) == done + [QUOTE, COMMA]
  {
    var t0 := [COMMA, QUOTE] + rest;
    var t := [BACKSLASH, QUOTE, COMMA, QUOTE] + rest;
    assert t == Escaped(QUOTE) + t0;
    UnquoteStep(QUOTE, t0, capacity, done);
    assert t0 == Escaped(COMMA) + ([QUOTE] + rest);
    UnquoteStep(COMMA, [QUOTE] + rest, capacity, done + [QUOTE]);
    assert done + [QUOTE] + [COMMA] == done + [QUOTE, COMMA];
  }

  lemma LongText(escaped: Bytes, more: Bytes)
    ensures escaped + [BACKSLASH] + [QUOTE] + (NEXT_FIELD + more) == escaped + ([BACKSLASH, QUOTE, COMMA, QUOTE] + more)
  {
  }

  lemma ReadOfLong(owner: Bytes, tail: Bytes)
    requires CanOwn(owner) && |Escape(owner)| >= ID_CAPACITY && NEXT_FIELD <= tail
    ensures Unquote(CreatorFor(owner) + [QUOTE] + tail, ID_CAPACITY, []) == owner
  {
    var front, more := owner[..|owner| - 2], tail[2..];
    assert tail == NEXT_FIELD + more;
    LongText(Escape(front), more);
    UnquotePast(front, [BACKSLASH, QUOTE, COMMA, QUOTE] + more, ID_CAPACITY, []);
    assert [] + front == front;
    UnquoteNext(more, ID_CAPACITY, front);
    assert owner == front + [QUOTE, COMMA];
  }

  lemma ReadOfCreator(owner: Bytes, tail: Bytes)
    requires CanOwn(owner) && NEXT_FIELD <= tail
    ensures Unquote(CreatorFor(owner) + [QUOTE] + tail, ID_CAPACITY, []) == owner
  {
    if |Escape(owner)| < ID_CAPACITY {
      UnquoteEscaped(owner, tail, ID_CAPACITY, []);
      assert [] + owner == owner;
    } else {
      ReadOfLong(owner, tail);
    }
  }

  /** Each of those accounts owns what that other account creates. */
  lemma CreatorOwns(owner: Bytes, m: Meta)
    requires CanOwn(owner) && Storable(CreatorFor(owner), m)
    ensures OwnerField(CreatorFor(owner), m) == owner
  {
    var creator := CreatorFor(owner);
    var tail := MetaTail(creator, m);
    AccountScanned(creator, tail);
    ReadOfCreator(owner, tail);
    CStringOfText(owner);
  }

  /** What was copied of `size` characters in front of the closing quote: its escaped form is
      no longer, or two longer when that quote was copied. */
  predicate Copied(t: Bytes, size: nat) {
    || |Escape(t)| <= size
    || (EndsWith(t, [QUOTE, COMMA]) && |Escape(t)| <= size + 2)
  }

  lemma CopiedMore(b: Byte, t: Bytes, size: nat, more: nat)
    requires Copied(t, size) && more >= |Escaped(b)|
    ensures Copied([b] + t, size + more)
  {
    assert ([b] + t)[1..] == t;
    assert |t| >= 2 ==> ([b] + t)[|t| - 1..] == t[|t| - 2..];
  }

  /** How many characters the next copied one takes. */
  function Taken(c: Bytes): (k: nat)
    requires c != []
  {
    if c[0] == BACKSLASH then 2 else 1
  }

  lemma UnquoteTake(c: Bytes, end: Bytes, capacity: nat, done: Bytes)
    requires c != [] && c[0] != QUOTE && |done| + 1 < capacity && Taken(c) <= |c|
    ensures var k := Taken(c);
            Unquote(c + end, capacity, done) == Unquote(c[k..] + end, capacity, done + [c[k - 1]])
            && |Escaped(c[k - 1])| <= k
  {
    var s, k := c + end, Taken(c);
    assert s[0] == c[0] && s[k - 1] == c[k - 1] && s[k..] == c[k..] + end;
  }

  lemma UnquoteStops(c: Bytes, end: Bytes, capacity: nat, done: Bytes)
    requires [QUOTE, COMMA, QUOTE] <= end
    requires c == [] || c[0] == QUOTE || |done| + 1 >= capacity
    ensures Unquote(c + end, capacity, done) == [] || Unquote(c + end, capacity, done) == done
  {
    if c == [] {
      assert c + end == end;
    } else {
      assert (c + end)[0] == c[0];
    }
  }

  lemma {:induction false} UnquoteShape(c: Bytes, end: Bytes, capacity: nat, done: Bytes) returns (t: Bytes)
    requires [QUOTE, COMMA, QUOTE] <= end
    ensures Copied(t, |c|)
    ensures var r := Unquote(c + end, capacity, done); r == [] || r == done + t
    decreases |c|
  {
    t := [];
    assert done + [] == done;
    if c == [] || c[0] == QUOTE || |done| + 1 >= capacity {
      UnquoteStops(c, end, capacity, done);
    } else if Taken(c) <= |c| {
      var k := Taken(c);
      UnquoteTake(c, end, capacity, done);
      var u := UnquoteShape(c[k..], end, capacity, done + [c[k - 1]]);
      t := [c[k - 1]] + u;
      CopiedMore(c[k - 1], u, |c| - k, k);
      assert done + [c[k - 1]] + u == done + t;
    } else {
      t := [QUOTE, COMMA];
      EscapeNext();
      assert c + end == [BACKSLASH, QUOTE, COMMA, QUOTE] + end[3..];
      LastShape(end[3..], capacity, done);
    }
  }

  lemma LastShape(rest: Bytes, capacity: nat, done: Bytes)
    requires |done| + 1 < capacity
    ensures var r := Unquote([BACKSLASH, QUOTE, COMMA, QUOTE] + rest, capacity, done);
            r == [] || r == done + [QUOTE, COMMA]
  {
    if |done| + 2 < capacity {
      UnquoteNext(rest, capacity, done);
    } else {
      var t0 := [COMMA, QUOTE] + rest;
      assert [BACKSLASH, QUOTE, COMMA, QUOTE] + rest == Escaped(QUOTE) + t0;
      UnquoteStep(QUOTE, t0, capacity, done);
    }
  }

  /** Nobody else ever owns a session. */
  lemma OwnerCanOwn(account: Bytes, m: Meta)
    requires Storable(account, m)
    ensures OwnerField(account, m) == [] || CanOwn(OwnerField(account, m))
  {
    var tail := MetaTail(account, m);
    var owner := OwnerField(account, m);
    AccountScanned(account, tail);
    assert account + [QUOTE] + tail == account + ([QUOTE] + tail);
    assert [QUOTE, COMMA, QUOTE] == [QUOTE] + NEXT_FIELD;
    var t := UnquoteShape(account, [QUOTE] + tail, ID_CAPACITY, []);
    MetaTextFits(account, m);
    StringText(MetaText(account, m), ACCOUNT, ID_CAPACITY);
    CStringOfText(StringValue(MetaText(account, m), ACCOUNT, ID_CAPACITY));
    FieldFits(MetaText(account, m), ACCOUNT, ID_CAPACITY);
    assert owner != [] ==> owner == [] + t && [] + t == t;
  }

  /** Every account with a quote or a backslash that can own a session owns what another
      account creates. */
  lemma TakenByAnother(hash: Hash, s: Storage, session: Bytes, owner: Bytes, m: Meta)
    requires CanOwn(owner) && !Plain(owner) && Storable(CreatorFor(owner), m)
    ensures CreatorFor(owner) != owner
    ensures var s1 := AfterCreate(hash, s, session, CreatorFor(owner), Some(m));
            Owns(s1, session, owner) && !Owns(s1, session, CreatorFor(owner))
  {
    var creator := CreatorFor(owner);
    CreatorOwns(owner, m);
    OwnerOfMeta(AfterCreate(hash, s, session, creator, Some(m)), session, creator, m, owner);
    OwnerOfMeta(AfterCreate(hash, s, session, creator, Some(m)), session, creator, m, creator);
  }

  lemma {:induction false} EscapedIsText(s: Bytes)
    requires 0 !in s
    ensures 0 !in Escape(s)
  {
    if s != [] {
      EscapedIsText(s[1..]);
    }
  }

  // --------------------------------------------------------------- metadata over runs

  /** A session's metadata, if any, is what a create request stored. */
  ghost predicate MetaPrinted(s: Storage, session: Bytes) {
    Owned(s, session) ==>
      exists account, m :: Storable(account, m) && s[MetaKey(session)] == MetaText(account, m)
  }

  lemma {:induction false} MetaIsPrinted(hash: Hash, payloads: seq<Bytes>, session: Bytes)
    ensures MetaPrinted(Run(hash, map[], payloads), session)
  {
    if payloads != [] {
      var before, last := payloads[..|payloads| - 1], payloads[|payloads| - 1];
      var s := Run(hash, map[], before);
      MetaIsPrinted(hash, before, session);
      EventIsChecked(s, last);
      EventPrintsMeta(hash, s, EventOf(s, last), session);
    }
  }

  lemma EventPrintsMeta(hash: Hash, s: Storage, e: Event, session: Bytes)
    requires Checked(s, e) && MetaPrinted(s, session)
    ensures MetaPrinted(Apply(hash, s, e), session)
  {
    if Creates(e, session) {
      SavedSameMeta(hash, s, session, NEW_GAME, session);
      if e.meta.Some? {
        assert Storable(e.account, e.meta.value);
      }
    } else {
      EventKeepsMeta(hash, s, e, session);
    }
  }

  /** Only accounts that can own a session finish games. */
  lemma FinisherCanOwn(hash: Hash, payloads: seq<Bytes>, e: Event)
    requires Checked(Run(hash, map[], payloads), e)
    ensures e.Finished? ==> CanOwn(e.account)
  {
    if e.Finished? {
      var s := Run(hash, map[], payloads);
      MetaIsPrinted(hash, payloads, e.session);
      var account, m :| Storable(account, m) && s[MetaKey(e.session)] == MetaText(account, m);
      OwnerOfMeta(s, e.session, account, m, e.account);
      OwnerCanOwn(account, m);
    }
  }

  /** Metadata exists only for stored sessions. */
  ghost predicate MetaHasState(s: Storage, session: Bytes) {
    Owned(s, session) ==> Load(s, session).Some?
  }

  lemma {:induction false} MetaOnlyWithState(hash: Hash, payloads: seq<Bytes>, session: Bytes)
    ensures MetaHasState(Run(hash, map[], payloads), session)
  {
    if payloads != [] {
      var before, last := payloads[..|payloads| - 1], payloads[|payloads| - 1];
      var s := Run(hash, map[], before);
      var e := EventOf(s, last);
      MetaOnlyWithState(hash, before, session);
      EventIsChecked(s, last);
      if Load(s, session).Some? {
        StepKeepsSession(hash, s, last, session);
      } else if Creates(e, session) {
        CreatedIsLoadable(hash, s, e.session, e.account, e.meta);
      } else {
        EventKeepsMeta(hash, s, e, session);
      }
    }
  }

  lemma {:induction false} UnownedIsIdle(hash: Hash, s: Storage, payloads: seq<Bytes>, session: Bytes)
    requires Load(s, session).Some? && !Owned(s, session)
    ensures forall i :: 0 <= i < |Events(hash, s, payloads)| ==> !Concerns(Events(hash, s, payloads)[i], session)
  {
    if payloads != [] {
      var before, last := payloads[..|payloads| - 1], payloads[|payloads| - 1];
      UnownedIsIdle(hash, s, before, session);
      SessionsArePermanent(hash, s, before, session);
      EventIsChecked(Run(hash, s, before), last);
    }
  }

  /** A session created without a map and a difficulty is never played: no later request of
      any account acts on it. */
  lemma NeverPlayed(hash: Hash, before: seq<Bytes>, payload: Bytes, rest: seq<Bytes>)
    requires var e := EventOf(Run(hash, map[], before), payload); e.Created? && e.meta.None?
    ensures var s := Run(hash, map[], before);
            var later := Events(hash, Step(hash, s, payload), rest);
            forall i :: 0 <= i < |later| ==> !Concerns(later[i], EventOf(s, payload).session)
  {
    var s := Run(hash, map[], before);
    var e := EventOf(s, payload);
    EventIsChecked(s, payload);
    MetaOnlyWithState(hash, before, e.session);
    CreatedIsLoadable(hash, s, e.session, e.account, e.meta);
    SavedSameMeta(hash, s, e.session, NEW_GAME, e.session);
    UnownedIsIdle(hash, Step(hash, s, payload), rest, e.session);
  }
}
