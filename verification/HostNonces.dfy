// The nonces that a sender's actions must carry, spelled out: from 0, one by one.
module HostNonces {
  import opened Bytes
  import opened JamCodec
  import opened Registry
  import opened ServiceHost
  import opened HostRuns

  // -------------------------------------------------------------------- one action

  /** The eight bytes of a number, the lowest first. */
  predicate Spells(s: Bytes, n: nat) {
    |s| == 8
    && n == s[0] as int + 0x100 * (s[1] as int) + 0x1_0000 * (s[2] as int) + 0x100_0000 * (s[3] as int)
            + 0x1_0000_0000 * (s[4] as int) + 0x100_0000_0000 * (s[5] as int)
            + 0x1_0000_0000_0000 * (s[6] as int) + 0x100_0000_0000_0000 * (s[7] as int)
  }

  lemma {:induction false} FromLEFirst(s: Bytes)
    requires s != []
    ensures FromLE(s) == s[0] as int + 256 * FromLE(s[1..])
  {
  }

  lemma FourBytes(s: Bytes)
    requires |s| == 4
    ensures FromLE(s) == s[0] as int + 0x100 * (s[1] as int) + 0x1_0000 * (s[2] as int) + 0x100_0000 * (s[3] as int)
  {
    FromLEFirst(s);
    FromLEFirst(s[1..]);
    FromLEFirst(s[2..]);
    FromLEFirst(s[3..]);
    assert s[1..][1..] == s[2..] && s[2..][1..] == s[3..] && s[3..][1..] == [];
  }

  /** Eight bytes read as the number they spell, and a number is written as the bytes that
      spell it. */
  lemma EightBytes(s: Bytes)
    requires |s| == 8
    ensures Spells(s, FromLE(s))
  {
    FromLEFirst(s);
    FromLEFirst(s[1..]);
    FromLEFirst(s[2..]);
    FromLEFirst(s[3..]);
    FourBytes(s[4..]);
    assert s[1..][1..] == s[2..] && s[2..][1..] == s[3..] && s[3..][1..] == s[4..];
  }

  lemma WrittenEight(n: nat)
    requires n < U64_LIMIT
    ensures Spells(LE(n, 8), n)
  {
    assert Pow256(8) == U64_LIMIT;
    LERoundTrip(n, 8);
    EightBytes(LE(n, 8));
  }

  /** The number that the host expects: 0 without a stored nonce, else the one stored. */
  ghost predicate Expects(raw: RawState, key: Bytes, n: nat) {
    if key in raw then (raw[key] == [] && n == 0) || Spells(raw[key], n) else n == 0
  }

  lemma ExpectedIs(nonceKey: Bytes -> Bytes, raw: RawState, sender: Bytes, n: nat)
    ensures Expects(raw, nonceKey(sender), n) <==> ExpectedNonce(nonceKey, raw, sender) == Some(n)
  {
    if nonceKey(sender) in raw && |raw[nonceKey(sender)]| == 8 {
      EightBytes(raw[nonceKey(sender)]);
    }
  }

  /** A sender without a stored nonce, or with an empty one, is past the check with nonce 0 alone; 1 is stored then. */
  lemma NewSender(entry: ScriptEntry, nonceKey: Bytes -> Bytes, limits: Limits, a: Action,
                  before: RawState, after: RawState, r: Result<()>, one: Bytes)
    requires ActionExactly(entry, nonceKey, limits, a, before, after, r)
    requires !a.selector.SelectUnknown? && nonceKey(a.sender) in limits.known
    requires nonceKey(a.sender) !in before || before[nonceKey(a.sender)] == []
    requires one == [1, 0, 0, 0, 0, 0, 0, 0]
    ensures a.nonce == 0 ==>
              ScriptExactly(entry, CallOf(a), limits, before[nonceKey(a.sender) := one], after, r)
    ensures a.nonce != 0 ==> r == Err(Rejected(NonceMismatch)) && after == before
  {
    OneInEight(one);
  }

  lemma OneInEight(one: Bytes)
    requires one == [1, 0, 0, 0, 0, 0, 0, 0]
    ensures LE(1, 8) == one
  {
    assert LE(0, 4) == [0, 0, 0, 0] && LE(0, 7) == [0, 0, 0] + LE(0, 4);
  }

  /** With eight stored bytes the nonce must be their number, and the next number is stored;
      the last number of all is refused. */
  lemma KnownSender(entry: ScriptEntry, nonceKey: Bytes -> Bytes, limits: Limits, a: Action,
                    before: RawState, after: RawState, r: Result<()>, n: nat)
    requires ActionExactly(entry, nonceKey, limits, a, before, after, r)
    requires !a.selector.SelectUnknown? && nonceKey(a.sender) in limits.known && nonceKey(a.sender) in before
    requires |before[nonceKey(a.sender)]| == 8 && n == FromLE(before[nonceKey(a.sender)])
    ensures a.nonce != n ==> r == Err(Rejected(NonceMismatch)) && after == before
    ensures a.nonce == n == 0xffff_ffff_ffff_ffff ==> r == Err(Backend) && after == before
    ensures a.nonce == n < 0xffff_ffff_ffff_ffff ==>
              ScriptExactly(entry, CallOf(a), limits, before[nonceKey(a.sender) := LE(n + 1, 8)], after, r)
  {
    FromLEBound(before[nonceKey(a.sender)]);
  }

  /** A stored value of any other length is a backend error. */
  lemma OddNonce(entry: ScriptEntry, nonceKey: Bytes -> Bytes, limits: Limits, a: Action,
                 before: RawState, after: RawState, r: Result<()>)
    requires ActionExactly(entry, nonceKey, limits, a, before, after, r)
    requires !a.selector.SelectUnknown? && nonceKey(a.sender) in limits.known && nonceKey(a.sender) in before
    ensures |before[nonceKey(a.sender)]| != 0 && |before[nonceKey(a.sender)]| != 8 ==>
              r == Err(Backend) && after == before
  {
  }

  /** What is refused before the nonce is read. */
  lemma RefusedFirst(entry: ScriptEntry, nonceKey: Bytes -> Bytes, limits: Limits, a: Action,
                     before: RawState, after: RawState, r: Result<()>)
    requires ActionExactly(entry, nonceKey, limits, a, before, after, r)
    ensures a.selector.SelectUnknown? ==> r == Err(Rejected(UnknownAction)) && after == before
    ensures !a.selector.SelectUnknown? && nonceKey(a.sender) !in limits.known ==>
              r == Err(Missing(nonceKey(a.sender))) && after == before
  {
  }

  // -------------------------------------------------------------------------- runs

  function Stored(raw: RawState, key: Bytes): Option<Bytes> {
    if key in raw then Some(raw[key]) else None
  }

  /** The i-th step of a run changed the sender's stored nonce. */
  predicate Consumes(h: History, key: Bytes, i: nat)
    requires i + 1 < |h.states|
  {
    Stored(h.states[i + 1], key) != Stored(h.states[i], key)
  }

  /** How many of the first n steps did. */
  function Consumed(h: History, key: Bytes, n: nat): nat
    requires n < |h.states|
  {
    if n == 0 then 0 else Consumed(h, key, n - 1) + if Consumes(h, key, n - 1) then 1 else 0
  }

  lemma StepConsumes(entry: ScriptEntry, nonceKey: Bytes -> Bytes, a: Action, before: RawState, after: RawState,
                     r: Result<()>, sender: Bytes, n: nat)
    requires GoodNonceKey(nonceKey) && ActionStep(entry, nonceKey, a, before, after, r)
    requires Expects(before, nonceKey(sender), n)
    ensures var key := nonceKey(sender);
            if Stored(after, key) == Stored(before, key) then Expects(after, key, n)
            else a.sender == sender && a.nonce == n && Expects(after, key, n + 1)
  {
    ExpectedIs(nonceKey, before, sender, n);
    ExpectedIs(nonceKey, after, sender, n);
    ExpectedIs(nonceKey, after, sender, n + 1);
    StepNonces(entry, nonceKey, a, before, after, r, sender);
    if sender != a.sender {
      assert nonceKey(sender) != nonceKey(a.sender) && !ApplicationKeyAllowed(nonceKey(sender));
      StepKeepsForeign(entry, nonceKey, a, before, after, r, nonceKey(sender));
    } else if !(r.Err? && after == before) {
      OwnNonce(entry, nonceKey, a, before, after, r);
    }
  }

  /** Over every run from a state without the sender's nonce key, the stored nonce counts the
      consuming steps, and the i-th of them carries nonce i, counting from 0. */
  lemma {:induction false} NoncesCount(entry: ScriptEntry, nonceKey: Bytes -> Bytes, h: History, sender: Bytes, n: nat)
    requires GoodNonceKey(nonceKey) && IsRun(entry, nonceKey, h) && n < |h.states|
    requires nonceKey(sender) !in h.states[0]
    ensures Expects(h.states[n], nonceKey(sender), Consumed(h, nonceKey(sender), n))
    ensures n + 1 < |h.states| && Consumes(h, nonceKey(sender), n) ==>
              h.actions[n].sender == sender && h.actions[n].nonce == Consumed(h, nonceKey(sender), n)
    decreases n
  {
    if n > 0 {
      NoncesCount(entry, nonceKey, h, sender, n - 1);
      RunStep(entry, nonceKey, h, n - 1);
      StepConsumes(entry, nonceKey, h.actions[n - 1], h.states[n - 1], h.states[n], h.results[n - 1], sender,
                   Consumed(h, nonceKey(sender), n - 1));
    }
    if n + 1 < |h.states| {
      RunStep(entry, nonceKey, h, n);
      StepConsumes(entry, nonceKey, h.actions[n], h.states[n], h.states[n + 1], h.results[n], sender,
                   Consumed(h, nonceKey(sender), n));
    }
  }
}
