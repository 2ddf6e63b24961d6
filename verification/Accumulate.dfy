// minijam_accumulate: folding refined results into one chain of state roots.
module Accumulate {
  import opened Bytes
  import NC = NaturalCodecs

  type Root = Bytes

  /** A refined result's transition header. */
  datatype Header = Header(parentRoot: Root, newRoot: Root, validUntil: Option<nat>)

  /** The managed commitment cell: absent, a decodable commitment, or anything else. */
  datatype Commitment = Absent | Committed(root: Root) | Unreadable

  /** EMPTY_STATE_ROOT_V1 is a parameter of the runtime core. */
  function CurrentRoot(stored: Commitment, empty: Root): Root {
    match stored case Committed(root) => root case _ => empty
  }

  /** The two checks a decodable result must pass at the root of the moment. */
  predicate Acceptable(h: Header, current: Root, tick: nat) {
    h.parentRoot == current && !(h.validUntil.Some? && tick > h.validUntil.value)
  }

  // ------------------------------------------------------- chains, independently

  /** The root in force before result i, when `accepted` are the accepted indices. */
  function RootBefore(results: seq<Option<Header>>, accepted: set<nat>, start: Root, i: nat): Root
    requires i <= |results|
  {
    if i == 0 then start
    else if i - 1 in accepted && results[i - 1].Some? then results[i - 1].value.newRoot
    else RootBefore(results, accepted, start, i - 1)
  }

  /** Result i is accepted exactly when it is decodable, unexpired, and has the root of
      its moment as parent. */
  predicate Decided(results: seq<Option<Header>>, accepted: set<nat>, start: Root, tick: nat, i: nat)
    requires i < |results|
  {
    i in accepted <==> results[i].Some?
                       && Acceptable(results[i].value, RootBefore(results, accepted, start, i), tick)
  }

  ghost predicate IsChain(results: seq<Option<Header>>, accepted: set<nat>, start: Root, tick: nat) {
    && (forall i :: i in accepted ==> i < |results|)
    && (forall i :: 0 <= i < |results| ==> Decided(results, accepted, start, tick, i))
  }

  /** A result is accepted exactly when it can be read, its parent root is the root of its
      moment, and its deadline, if it has one, is not over. */
  lemma ChainAccepts(results: seq<Option<Header>>, accepted: set<nat>, start: Root, tick: nat, i: nat)
    requires IsChain(results, accepted, start, tick) && i < |results|
    ensures i in accepted
            <==> results[i].Some?
                 && results[i].value.parentRoot == RootBefore(results, accepted, start, i)
                 && (results[i].value.validUntil == None || tick <= results[i].value.validUntil.value)
  {
    assert Decided(results, accepted, start, tick, i);
  }

  /** The root of a result's moment: the start, and each accepted result's new root in turn. */
  lemma RootMoves(results: seq<Option<Header>>, accepted: set<nat>, start: Root, tick: nat, i: nat)
    requires IsChain(results, accepted, start, tick) && i < |results|
    ensures RootBefore(results, accepted, start, 0) == start
    ensures i in accepted ==> results[i].Some? && RootBefore(results, accepted, start, i + 1) == results[i].value.newRoot
    ensures i !in accepted ==> RootBefore(results, accepted, start, i + 1) == RootBefore(results, accepted, start, i)
  {
    assert Decided(results, accepted, start, tick, i);
  }

  /** There is only one chain. */
  lemma {:induction false} ChainUnique(results: seq<Option<Header>>, a: set<nat>, b: set<nat>, start: Root, tick: nat, n: nat)
    requires IsChain(results, a, start, tick) && IsChain(results, b, start, tick) && n <= |results|
    ensures forall i :: 0 <= i < n ==> (i in a <==> i in b)
    ensures RootBefore(results, a, start, n) == RootBefore(results, b, start, n)
  {
    if n > 0 {
      ChainUnique(results, a, b, start, tick, n - 1);
      assert Decided(results, a, start, tick, n - 1) && Decided(results, b, start, tick, n - 1);
    }
  }

  lemma {:induction false} RootStands(results: seq<Option<Header>>, accepted: set<nat>, start: Root, i: nat, j: nat)
    requires i <= j <= |results| && forall k :: i <= k < j ==> k !in accepted
    ensures RootBefore(results, accepted, start, j) == RootBefore(results, accepted, start, i)
  {
    if i < j {
      RootStands(results, accepted, start, i, j - 1);
    }
  }

  /** The first accepted result is unexpired and has the starting root as parent. */
  lemma ChainStarts(results: seq<Option<Header>>, accepted: set<nat>, start: Root, tick: nat, j: nat)
    requires IsChain(results, accepted, start, tick)
    requires j in accepted && forall k :: 0 <= k < j ==> k !in accepted
    ensures j < |results| && results[j].Some?
    ensures results[j].value.parentRoot == start
    ensures results[j].value.validUntil.Some? ==> tick <= results[j].value.validUntil.value
  {
    assert Decided(results, accepted, start, tick, j);
    RootStands(results, accepted, start, 0, j);
  }

  /** Each later one has its predecessor's new root as parent. */
  lemma ChainLinks(results: seq<Option<Header>>, accepted: set<nat>, start: Root, tick: nat, i: nat, j: nat)
    requires IsChain(results, accepted, start, tick)
    requires i in accepted && j in accepted && i < j && forall k :: i < k < j ==> k !in accepted
    ensures j < |results| && results[i].Some? && results[j].Some?
    ensures results[j].value.parentRoot == results[i].value.newRoot
    ensures results[j].value.validUntil.Some? ==> tick <= results[j].value.validUntil.value
  {
    assert Decided(results, accepted, start, tick, i) && Decided(results, accepted, start, tick, j);
    RootStands(results, accepted, start, i + 1, j);
  }

  /** The final root is the last accepted result's. */
  lemma ChainEnds(results: seq<Option<Header>>, accepted: set<nat>, start: Root, tick: nat, i: nat)
    requires IsChain(results, accepted, start, tick)
    requires i in accepted && forall k :: i < k < |results| ==> k !in accepted
    ensures i < |results| && results[i].Some?
    ensures RootBefore(results, accepted, start, |results|) == results[i].value.newRoot
  {
    assert Decided(results, accepted, start, tick, i);
    RootStands(results, accepted, start, i + 1, |results|);
  }

  // --------------------------------------------------------------- accumulating

  /** The accepted indices, found front to back. */
  function Accepted(results: seq<Option<Header>>, start: Root, tick: nat): set<nat> {
    if results == [] then {} else
    var n := |results| - 1;
    var front := Accepted(results[..n], start, tick);
    if results[n].Some? && Acceptable(results[n].value, FinalRoot(results[..n], start, tick), tick)
    then front + {n} else front
  }

  function FinalRoot(results: seq<Option<Header>>, start: Root, tick: nat): Root {
    if results == [] then start else
    var n := |results| - 1;
    var current := FinalRoot(results[..n], start, tick);
    if results[n].Some? && Acceptable(results[n].value, current, tick)
    then results[n].value.newRoot else current
  }

  /** The commitment cell after accumulating: rewritten only if something was accepted. */
  function Commit(stored: Commitment, empty: Root, results: seq<Option<Header>>, tick: nat): Commitment {
    var start := CurrentRoot(stored, empty);
    if Accepted(results, start, tick) == {} then stored else Committed(FinalRoot(results, start, tick))
  }

  lemma {:induction false} RootBeforePrefix(results: seq<Option<Header>>, more: Option<Header>, a: set<nat>, b: set<nat>, start: Root, i: nat)
    requires i <= |results| && forall k :: 0 <= k < i ==> (k in a <==> k in b)
    ensures RootBefore(results + [more], a, start, i) == RootBefore(results, b, start, i)
  {
    if i > 0 {
      RootBeforePrefix(results, more, a, b, start, i - 1);
    }
  }

  /** What accumulate accepts is the chain, and the final root is the root after it. */
  lemma {:induction false} AcceptedIsChain(results: seq<Option<Header>>, start: Root, tick: nat)
    ensures var a := Accepted(results, start, tick);
            IsChain(results, a, start, tick)
            && FinalRoot(results, start, tick) == RootBefore(results, a, start, |results|)
  {
    if results != [] {
      var n := |results| - 1;
      var front, last := results[..n], results[n];
      AcceptedIsChain(front, start, tick);
      var a, b := Accepted(results, start, tick), Accepted(front, start, tick);
      assert results == front + [last];
      forall i | 0 <= i <= n
        ensures RootBefore(results, a, start, i) == RootBefore(front, b, start, i)
      {
        RootBeforePrefix(front, last, a, b, start, i);
      }
      forall i | 0 <= i < |results| ensures Decided(results, a, start, tick, i) {
        if i < n { assert Decided(front, b, start, tick, i); }
      }
    }
  }

  /** Nothing accepted leaves the root at the start. */
  lemma {:induction false} NoneAccepted(results: seq<Option<Header>>, start: Root, tick: nat)
    ensures Accepted(results, start, tick) == {} ==> FinalRoot(results, start, tick) == start
  {
    if results != [] {
      NoneAccepted(results[..|results| - 1], start, tick);
    }
  }

  lemma {:induction false} FoldSplits(a: seq<Option<Header>>, b: seq<Option<Header>>, start: Root, tick: nat)
    ensures FinalRoot(a + b, start, tick) == FinalRoot(b, FinalRoot(a, start, tick), tick)
    ensures Accepted(a + b, start, tick) == {}
            <==> Accepted(a, start, tick) == {} && Accepted(b, FinalRoot(a, start, tick), tick) == {}
  {
    if b == [] {
      assert a + b == a;
    } else {
      var n := |b| - 1;
      assert (a + b)[..|a| + n] == a + b[..n] && (a + b)[|a| + n] == b[n];
      FoldSplits(a, b[..n], start, tick);
    }
  }

  /** At a fixed tick, accumulating A and then B commits what accumulating A ++ B does. */
  lemma BatchesCompose(stored: Commitment, empty: Root, a: seq<Option<Header>>, b: seq<Option<Header>>, tick: nat)
    ensures Commit(Commit(stored, empty, a, tick), empty, b, tick) == Commit(stored, empty, a + b, tick)
  {
    var start := CurrentRoot(stored, empty);
    FoldSplits(a, b, start, tick);
    NoneAccepted(a, start, tick);
    NoneAccepted(b, FinalRoot(a, start, tick), tick);
  }

  // ------------------------------------------------------------ a chain of one

  /** The root that accumulate starts from: the stored one, or the empty state's. */
  predicate StartsFrom(stored: Commitment, empty: Root, root: Root) {
    match stored
    case Committed(kept) => root == kept
    case Absent => root == empty
    case Unreadable => root == empty
  }

  /** One readable result: the cell is rewritten exactly when it follows the start in time. */
  lemma CommitOne(stored: Commitment, empty: Root, start: Root, h: Header, tick: nat)
    requires StartsFrom(stored, empty, start)
    ensures Commit(stored, empty, [Some(h)], tick)
            == if h.parentRoot == start && (h.validUntil == None || tick <= h.validUntil.value)
               then Committed(h.newRoot) else stored
  {
    assert [Some(h)][..0] == [] && Accepted([], start, tick) == {};
    assert FinalRoot([Some(h)], start, tick) == if Acceptable(h, start, tick) then h.newRoot else start;
    assert Accepted([Some(h)], start, tick) == if Acceptable(h, start, tick) then {0} else {};
    assert 0 in Accepted([Some(h)], start, tick) <==> Acceptable(h, start, tick);
  }

  /** Nothing readable, nothing written. */
  lemma {:induction false} CommitNothing(stored: Commitment, empty: Root, results: seq<Option<Header>>, tick: nat)
    requires forall i :: 0 <= i < |results| ==> results[i] == None
    ensures Commit(stored, empty, results, tick) == stored
  {
    if results != [] {
      CommitNothing(stored, empty, results[..|results| - 1], tick);
    }
  }

  /** With an acceptable result first, the cell is rewritten, and the rest goes on from its new root. */
  lemma CommitFirst(stored: Commitment, empty: Root, start: Root, h: Header, rest: seq<Option<Header>>, tick: nat)
    requires StartsFrom(stored, empty, start)
    requires h.parentRoot == start && (h.validUntil == None || tick <= h.validUntil.value)
    ensures Commit(stored, empty, [Some(h)] + rest, tick) == Commit(Committed(h.newRoot), empty, rest, tick)
    ensures Commit(stored, empty, [Some(h)] + rest, tick).Committed?
  {
    BatchesCompose(stored, empty, [Some(h)], rest, tick);
    CommitOne(stored, empty, start, h, tick);
  }

  /** Any other first result is passed over. */
  lemma CommitSkips(stored: Commitment, empty: Root, start: Root, result: Option<Header>, rest: seq<Option<Header>>, tick: nat)
    requires StartsFrom(stored, empty, start)
    requires result.Some? ==>
               result.value.parentRoot != start
               || (result.value.validUntil.Some? && tick > result.value.validUntil.value)
    ensures Commit(stored, empty, [result] + rest, tick) == Commit(stored, empty, rest, tick)
  {
    BatchesCompose(stored, empty, [result], rest, tick);
    if result.Some? {
      CommitOne(stored, empty, start, result.value, tick);
    } else {
      CommitNothing(stored, empty, [result], tick);
    }
  }

  // ---------------------------------------------------------------- the service

  class Service {
    var commitment: Commitment
    const empty: Root

    constructor (empty: Root)
      ensures commitment == Absent && this.empty == empty
    {
      commitment := Absent;
      this.empty := empty;
    }

    /** The accumulate loop. An undecodable init input changes nothing; otherwise the cell
        ends as the chain from the stored root says. */
    method MinijamAccumulate(initInput: Bytes, results: seq<Option<Header>>)
      modifies `commitment
      ensures match NC.AccumulateInit(initInput)
              case None => commitment == old(commitment)
              case Some((tick, _, _)) => commitment == Commit(old(commitment), empty, results, tick)
    {
      var init := NC.DecodeAccumulateInitInput(initInput);
      if init.None? {
        return;
      }
      var tick := init.value.0;
      var current := CurrentRoot(commitment, empty);
      ghost var start := current;
      var advanced := false;
      for index := 0 to |results|
        invariant current == FinalRoot(results[..index], start, tick)
        invariant advanced <==> Accepted(results[..index], start, tick) != {}
      {
        assert results[..index + 1][..index] == results[..index];
        if results[index].None? { continue; }
        var header := results[index].value;
        if header.parentRoot != current { continue; }
        if header.validUntil.Some? && tick > header.validUntil.value { continue; }
        current := header.newRoot;
        advanced := true;
      }
      assert results[..|results|] == results;
      if advanced {
        commitment := Committed(current);
      }
    }
  }
}
