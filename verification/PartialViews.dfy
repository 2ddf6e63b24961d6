// Scripts as finite deterministic programs, run over a view that may lack keys they
// touch, and the host's loop that adds the missing key and reruns.
module PartialViews {
  import opened Bytes
  import opened StateView
  import opened Overlay
  import R = ScriptResult

  datatype Program =
    | Return
    | Throw
    | Abort(code: real)
    | Get(key: Bytes, next: Option<Bytes> -> Program)
    | Set(key: Bytes, value: Bytes, rest: Program)
    | Delete(key: Bytes, rest: Program)

  /** Every path of the program ends within `n` operations. */
  ghost predicate Within(p: Program, n: nat)
    decreases n
  {
    match p
    case Return => true
    case Throw => true
    case Abort(_) => true
    case Get(_, next) => n > 0 && forall v :: Within(next(v), n - 1)
    case Set(_, _, rest) => n > 0 && Within(rest, n - 1)
    case Delete(_, rest) => n > 0 && Within(rest, n - 1)
  }

  function AbortOutcome(code: real): R.Outcome {
    if R.AbortCode(code) then R.Abort(code.Floor) else R.Fatal(R.FATAL_INVALID_VIEW)
  }

  /** A run over the view in `s`: the runtime's state operations in the program's order. */
  function Run(p: Program, ghost n: nat, s: State): R.Outcome
    requires Within(p, n)
    decreases n
  {
    match p
    case Return => R.Applied(s.overlay)
    case Throw => R.Fatal(R.FATAL_UNCAUGHT)
    case Abort(code) => AbortOutcome(code)
    case Get(key, next) =>
      (match Overlay.Get(s, key)
       case None => R.NeedState(key)
       case Some(value) => Run(next(value), n - 1, s))
    case Set(key, value, rest) =>
      (match Write(s, key, Some(value))
       case Unknown => R.NeedState(key)
       case Oversized => R.Fatal(R.FATAL_INVALID_VIEW)
       case Written(s') => Run(rest, n - 1, s'))
    case Delete(key, rest) =>
      (match Write(s, key, None)
       case Unknown => R.NeedState(key)
       case Oversized => R.Fatal(R.FATAL_INVALID_VIEW)
       case Written(s') => Run(rest, n - 1, s'))
  }

  // -------------------------------------------------------- growing the view

  /** Every entry of `small` is an entry of `large`. */
  ghost predicate Extends(large: seq<Entry>, small: seq<Entry>) {
    forall e :: e in small ==> e in large
  }

  lemma FindInLarger(small: seq<Entry>, large: seq<Entry>, key: Bytes)
    requires Sorted(small) && Sorted(large) && Extends(large, small) && Has(small, key)
    ensures Has(large, key)
    ensures large[Position(large, key)].value == small[Position(small, key)].value
  {
    var e := small[Position(small, key)];
    assert e in large;
    var i :| 0 <= i < |large| && large[i] == e;
    DictAt(large, i);
    HasIsDict(large, key);
  }

  ghost predicate NeedsMissing(o: R.Outcome, view: seq<Entry>) {
    o.NeedState? && o.key !in Dict(view)
  }

  /** A run over a partial view stops at a key the view lacks, or has the outcome of the
      run over any larger view that agrees with it. */
  lemma {:induction false} LargerViewSameOutcome(p: Program, n: nat, small: seq<Entry>, large: seq<Entry>, overlay: seq<Entry>)
    requires Within(p, n)
    requires Sorted(small) && Sorted(large) && Extends(large, small)
    ensures NeedsMissing(Run(p, n, State(small, overlay)), small)
            || Run(p, n, State(small, overlay)) == Run(p, n, State(large, overlay))
    decreases n
  {
    var s := State(small, overlay);
    match p
    case Return =>
    case Throw =>
    case Abort(_) =>
    case Get(key, next) =>
      HasIsDict(small, key);
      if Has(small, key) {
        FindInLarger(small, large, key);
      }
      if Overlay.Get(s, key).Some? {
        LargerViewSameOutcome(next(Overlay.Get(s, key).value), n - 1, small, large, overlay);
      }
    case Set(key, value, rest) =>
      WriteInLarger(small, large, overlay, key, Some(value));
      if Write(s, key, Some(value)).Written? {
        LargerViewSameOutcome(rest, n - 1, small, large, Put(overlay, key, Some(value)));
      }
    case Delete(key, rest) =>
      WriteInLarger(small, large, overlay, key, None);
      if Write(s, key, None).Written? {
        LargerViewSameOutcome(rest, n - 1, small, large, Put(overlay, key, None));
      }
  }

  lemma WriteInLarger(small: seq<Entry>, large: seq<Entry>, overlay: seq<Entry>, key: Bytes, value: Option<Bytes>)
    requires Sorted(small) && Sorted(large) && Extends(large, small)
    ensures var w, w' := Write(State(small, overlay), key, value), Write(State(large, overlay), key, value);
            match w
            case Unknown => key !in Dict(small)
            case Oversized => w' == w
            case Written(_) => w' == Written(State(large, Put(overlay, key, value)))
  {
    HasIsDict(small, key);
    if Has(small, key) {
      FindInLarger(small, large, key);
    }
  }

  /** The bytes an action entry returns for the view bytes it is given. */
  function EntryResult(p: Program, ghost n: nat, view: Bytes): Bytes
    requires Within(p, n)
  {
    match ParseView(view)
    case None => R.Print(R.Fatal(R.FATAL_INVALID_VIEW))
    case Some(es) => R.Print(Run(p, n, State(es, [])))
  }

  /** The same on bytes: over any larger valid view the result is byte-identical, or the
      smaller run asked for a key its view does not have. */
  lemma PartialViewsAreSound(p: Program, n: nat, small: Bytes, large: Bytes)
    requires Within(p, n)
    requires ParseView(small).Some? && ParseView(large).Some?
    requires Extends(ParseView(large).value, ParseView(small).value)
    ensures EntryResult(p, n, small) == EntryResult(p, n, large)
            || exists key :: key !in Dict(ParseView(small).value)
                             && EntryResult(p, n, small) == R.Print(R.NeedState(key))
  {
    var es, es' := ParseView(small).value, ParseView(large).value;
    ViewBijection(small, es);
    ViewBijection(large, es');
    LargerViewSameOutcome(p, n, es, es', []);
    var o := Run(p, n, State(es, []));
    if NeedsMissing(o, es) {
      assert EntryResult(p, n, small) == R.Print(R.NeedState(o.key));
    }
  }

  // ------------------------------------------------------------- the full state

  type FullState = Bytes -> Option<Bytes>

  /** The run with every key known: reads fall through the overlay to the full state. */
  function FullRun(p: Program, ghost n: nat, full: FullState, overlay: seq<Entry>): R.Outcome
    requires Within(p, n)
    decreases n
  {
    match p
    case Return => R.Applied(overlay)
    case Throw => R.Fatal(R.FATAL_UNCAUGHT)
    case Abort(code) => AbortOutcome(code)
    case Get(key, next) => FullRun(next(FullGet(full, overlay, key)), n - 1, full, overlay)
    case Set(key, value, rest) =>
      if Bounded(Entry(key, Some(value)))
      then FullRun(rest, n - 1, full, Put(overlay, key, Some(value)))
      else R.Fatal(R.FATAL_INVALID_VIEW)
    case Delete(key, rest) =>
      if Bounded(Entry(key, None))
      then FullRun(rest, n - 1, full, Put(overlay, key, None))
      else R.Fatal(R.FATAL_INVALID_VIEW)
  }

  function FullGet(full: FullState, overlay: seq<Entry>, key: Bytes): Option<Bytes> {
    if Has(overlay, key) then overlay[Position(overlay, key)].value else full(key)
  }

  /** The keys the full run reads or writes. */
  ghost function Touched(p: Program, n: nat, full: FullState, overlay: seq<Entry>): set<Bytes>
    requires Within(p, n)
    decreases n
  {
    match p
    case Return => {}
    case Throw => {}
    case Abort(code) => {}
    case Get(key, next) => {key} + Touched(next(FullGet(full, overlay, key)), n - 1, full, overlay)
    case Set(key, value, rest) =>
      {key} + if Bounded(Entry(key, Some(value)))
              then Touched(rest, n - 1, full, Put(overlay, key, Some(value))) else {}
    case Delete(key, rest) =>
      {key} + if Bounded(Entry(key, None))
              then Touched(rest, n - 1, full, Put(overlay, key, None)) else {}
  }

  /** The view shows what the full state holds. */
  ghost predicate Consistent(full: FullState, view: seq<Entry>) {
    forall e :: e in view ==> full(e.key) == e.value
  }

  /** A run over a consistent view stops at a missing key the full run touches, or ends
      with the full run's outcome. */
  lemma {:induction false} ViewRunAgainstFull(p: Program, n: nat, full: FullState, view: seq<Entry>, overlay: seq<Entry>)
    requires Within(p, n) && Sorted(view) && Consistent(full, view)
    ensures var o := Run(p, n, State(view, overlay));
            (NeedsMissing(o, view) && o.key in Touched(p, n, full, overlay))
            || o == FullRun(p, n, full, overlay)
    decreases n
  {
    var s := State(view, overlay);
    match p
    case Return =>
    case Throw =>
    case Abort(_) =>
    case Get(key, next) =>
      HasIsDict(view, key);
      if Has(view, key) {
        assert view[Position(view, key)] in view;
      }
      if Overlay.Get(s, key).Some? {
        assert Overlay.Get(s, key).value == FullGet(full, overlay, key);
        ViewRunAgainstFull(next(FullGet(full, overlay, key)), n - 1, full, view, overlay);
      }
    case Set(key, value, rest) =>
      HasIsDict(view, key);
      if Write(s, key, Some(value)).Written? {
        ViewRunAgainstFull(rest, n - 1, full, view, Put(overlay, key, Some(value)));
      }
    case Delete(key, rest) =>
      HasIsDict(view, key);
      if Write(s, key, None).Written? {
        ViewRunAgainstFull(rest, n - 1, full, view, Put(overlay, key, None));
      }
  }

  // --------------------------------------------------------------- the host loop

  /** `whole` is a valid view of the starting keys and the touched ones, and perhaps others:
      the loop stays within the view bounds. */
  ghost predicate Room(p: Program, n: nat, full: FullState, view: seq<Entry>, whole: seq<Entry>)
    requires Within(p, n)
  {
    && Canonical(view) && Consistent(full, view)
    && Canonical(whole) && Consistent(full, whole) && |EncodeView(whole)| <= MAX_VIEW_BYTES
    && Keys(view) <= Keys(whole) && Touched(p, n, full, []) <= Keys(whole)
  }

  lemma {:induction false} SubviewSize(small: seq<Entry>, large: seq<Entry>)
    requires Sorted(small) && Sorted(large) && Extends(large, small)
    ensures |small| <= |large| && Size(small) <= Size(large)
    decreases large
  {
    if small != [] {
      assert small[0] in large;
      if small[0] == large[0] {
        forall e | e in small[1..] ensures e in large[1..] {
          TailMember(small, large, e);
        }
        SubviewSize(small[1..], large[1..]);
      } else {
        forall e | e in small ensures e in large[1..] {
          HeadNotIn(small, large, e);
        }
        SubviewSize(small, large[1..]);
      }
    }
  }

  lemma TailMember(small: seq<Entry>, large: seq<Entry>, e: Entry)
    requires Sorted(small) && small != [] && large != [] && small[0] == large[0]
    requires e in small[1..] && e in large
    ensures e in large[1..]
  {
    StrictTotalOrder(e.key, e.key, e.key);
  }

  lemma HeadNotIn(small: seq<Entry>, large: seq<Entry>, e: Entry)
    requires Sorted(small) && Sorted(large) && small != [] && large != []
    requires small[0] != large[0] && small[0] in large
    requires e in small && e in large
    ensures e in large[1..]
  {
    if e == large[0] {
      var i :| 0 <= i < |small| && small[i] == e;
      var j :| 0 <= j < |large| && large[j] == small[0];
      assert i > 0 && j > 0;
      StrictTotalOrder(small[0].key, e.key, small[0].key);
      assert false;
    }
  }

  lemma KeysExtend(full: FullState, view: seq<Entry>, whole: seq<Entry>)
    requires Consistent(full, view) && Consistent(full, whole) && Keys(view) <= Keys(whole)
    ensures Extends(whole, view)
  {
    forall e | e in view ensures e in whole {
      var i :| 0 <= i < |view| && view[i] == e;
      KeyIn(view, i);
      var j :| 0 <= j < |whole| && whole[j].key == e.key;
      assert whole[j] in whole;
      assert whole[j] == e;
    }
  }

  /** Inside the bounds every intermediate view is accepted by the parser. */
  lemma RoomFits(p: Program, n: nat, full: FullState, view: seq<Entry>, whole: seq<Entry>)
    requires Within(p, n) && Room(p, n, full, view, whole)
    ensures ParseView(EncodeView(view)) == Some(view)
  {
    KeysExtend(full, view, whole);
    SubviewSize(view, whole);
    EncodedLength(view);
    EncodedLength(whole);
    ViewBijection(EncodeView(view), view);
  }

  /** Adding a touched key keeps the room. */
  lemma AddKey(p: Program, n: nat, full: FullState, view: seq<Entry>, whole: seq<Entry>, key: Bytes)
    requires Within(p, n) && Room(p, n, full, view, whole)
    requires key in Touched(p, n, full, []) && key !in Dict(view)
    ensures Room(p, n, full, Put(view, key, full(key)), whole)
    ensures Keys(Put(view, key, full(key))) == Keys(view) + {key}
  {
    var next := Put(view, key, full(key));
    HasIsDict(view, key);
    PutSorted(view, key, full(key));
    PutKeys(view, key, full(key));
    var j :| 0 <= j < |whole| && whole[j].key == key;
    assert whole[j] in whole && Bounded(whole[j]);
    PutBounded(view, key, full(key));
    assert Consistent(full, next);
    KeysExtend(full, next, whole);
    SubviewSize(next, whole);
  }

  lemma NeedStateBytes(o: R.Outcome)
    ensures o.NeedState? && |o.key| < U32_LIMIT ==> R.Parse(R.Print(o)) == Some(o)
    ensures !o.NeedState? ==>
              match R.Parse(R.Print(o)) case Some(NeedState(_)) => false case _ => true
  {
    if o.NeedState? && |o.key| < U32_LIMIT {
      R.ParsePrinted(o);
    }
  }

  lemma {:induction false} FullRunAnswers(p: Program, n: nat, full: FullState, overlay: seq<Entry>)
    requires Within(p, n)
    ensures !FullRun(p, n, full, overlay).NeedState?
    decreases n
  {
    match p
    case Return =>
    case Throw =>
    case Abort(_) =>
    case Get(key, next) => FullRunAnswers(next(FullGet(full, overlay, key)), n - 1, full, overlay);
    case Set(key, value, rest) =>
      if Bounded(Entry(key, Some(value))) {
        FullRunAnswers(rest, n - 1, full, Put(overlay, key, Some(value)));
      }
    case Delete(key, rest) =>
      if Bounded(Entry(key, None)) {
        FullRunAnswers(rest, n - 1, full, Put(overlay, key, None));
      }
  }

  /** One turn of the host's loop: the bytes ask for a touched key the view lacks, or they
      are the full run's bytes. */
  lemma OneTurn(p: Program, n: nat, full: FullState, view: seq<Entry>, whole: seq<Entry>)
    requires Within(p, n) && Room(p, n, full, view, whole)
    ensures match R.Parse(EntryResult(p, n, EncodeView(view)))
            case Some(NeedState(key)) => key in Touched(p, n, full, []) && key !in Dict(view)
            case _ => EntryResult(p, n, EncodeView(view)) == R.Print(FullRun(p, n, full, []))
  {
    RoomFits(p, n, full, view, whole);
    ViewRunAgainstFull(p, n, full, view, []);
    FullRunAnswers(p, n, full, []);
    var o := Run(p, n, State(view, []));
    if NeedsMissing(o, view) {
      var j :| 0 <= j < |whole| && whole[j].key == o.key;
      assert Bounded(whole[j]);
    }
    NeedStateBytes(o);
  }

  /** The host's loop: run the entry on the encoded view, and while the answer is
      NeedState add that key from the full state and run again. It terminates, because
      every missing key is one the full run touches, and it ends with the full run's
      bytes. */
  function AddAndRerun(p: Program, ghost n: nat, full: FullState, view: seq<Entry>, ghost whole: seq<Entry>): (result: Bytes)
    requires Within(p, n) && Room(p, n, full, view, whole)
    ensures result == R.Print(FullRun(p, n, full, []))
    decreases Touched(p, n, full, []) - Keys(view)
  {
    OneTurn(p, n, full, view, whole);
    DictKeys(view);
    var result := EntryResult(p, n, EncodeView(view));
    match R.Parse(result)
    case Some(NeedState(key)) =>
      AddKey(p, n, full, view, whole, key);
      AddAndRerun(p, n, full, Put(view, key, full(key)), whole)
    case _ => result
  }
}
