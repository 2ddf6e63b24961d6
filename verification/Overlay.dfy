// A sorted overlay over a sorted base, and the map the two together stand for.
module Overlay {
  import opened Bytes
  import opened StateView

  function Keys(es: seq<Entry>): set<Bytes> {
    set i | 0 <= i < |es| :: es[i].key
  }

  /** The entry list as a map; None is a key known to be absent. */
  function Dict(es: seq<Entry>): map<Bytes, Option<Bytes>> {
    if es == [] then map[] else Dict(es[1..])[es[0].key := es[0].value]
  }

  /** How many leading entries lie below `key`: where the binary search must land. */
  function Position(es: seq<Entry>, key: Bytes): (r: nat)
    ensures r <= |es|
  {
    if es == [] || !Less(es[0].key, key) then 0 else 1 + Position(es[1..], key)
  }

  lemma {:induction false} PositionSplits(es: seq<Entry>, key: Bytes)
    ensures var r := Position(es, key);
            (forall i :: 0 <= i < r ==> Less(es[i].key, key)) && (r < |es| ==> !Less(es[r].key, key))
  {
    if es != [] && Less(es[0].key, key) {
      PositionSplits(es[1..], key);
      forall i | 0 <= i < Position(es, key) ensures Less(es[i].key, key) {
        if i > 0 { assert es[i] == es[1..][i - 1]; }
      }
    }
  }

  lemma {:induction false} PositionUnique(es: seq<Entry>, key: Bytes, r: nat)
    requires r <= |es|
    requires forall i :: 0 <= i < r ==> Less(es[i].key, key)
    requires r < |es| ==> !Less(es[r].key, key)
    ensures r == Position(es, key)
  {
    if r > 0 {
      assert Less(es[0].key, key);
      PositionUnique(es[1..], key, r - 1);
    }
  }

  predicate Has(es: seq<Entry>, key: Bytes) {
    var p := Position(es, key);
    p < |es| && es[p].key == key
  }

  function Put(es: seq<Entry>, key: Bytes, value: Option<Bytes>): seq<Entry> {
    var p := Position(es, key);
    if Has(es, key) then es[p := Entry(key, value)] else es[..p] + [Entry(key, value)] + es[p..]
  }

  lemma KeyIn(es: seq<Entry>, i: nat)
    requires i < |es|
    ensures es[i].key in Keys(es)
  {
  }

  lemma {:induction false} DictAt(es: seq<Entry>, i: nat)
    requires Sorted(es) && i < |es|
    ensures es[i].key in Dict(es) && Dict(es)[es[i].key] == es[i].value
  {
    if i > 0 {
      DictAt(es[1..], i - 1);
      CompareZero(es[0].key, es[i].key);
    }
  }

  lemma {:induction false} DictKeys(es: seq<Entry>)
    ensures Dict(es).Keys == Keys(es)
  {
    if es != [] {
      DictKeys(es[1..]);
      forall k ensures k in Keys(es) <==> k == es[0].key || k in Keys(es[1..]) {
        if k in Keys(es) {
          var i :| 0 <= i < |es| && es[i].key == k;
          if i > 0 { assert es[i] == es[1..][i - 1]; }
        }
        if k in Keys(es[1..]) {
          var i :| 0 <= i < |es[1..]| && es[1..][i].key == k;
          assert es[i + 1].key == k;
        }
      }
    }
  }

  /** Past the landing point every key is at or above the one searched for. */
  lemma AbovePosition(es: seq<Entry>, key: Bytes, i: nat)
    requires Sorted(es) && Position(es, key) <= i < |es|
    ensures !Less(es[i].key, key)
    ensures es[i].key == key ==> i == Position(es, key)
  {
    var p := Position(es, key);
    PositionSplits(es, key);
    if p < i {
      StrictTotalOrder(es[p].key, es[i].key, key);
      if !Less(key, es[p].key) {
        StrictTotalOrder(es[p].key, key, key);
      } else {
        LessTransitive(key, es[p].key, es[i].key);
      }
      StrictTotalOrder(key, es[i].key, key);
    }
  }

  /** The binary search answers membership in the map, and finds the value there. */
  lemma HasIsDict(es: seq<Entry>, key: Bytes)
    requires Sorted(es)
    ensures Has(es, key) <==> key in Dict(es)
    ensures Has(es, key) ==> Dict(es)[key] == es[Position(es, key)].value
  {
    var p := Position(es, key);
    PositionSplits(es, key);
    DictKeys(es);
    if Has(es, key) {
      DictAt(es, p);
    } else if key in Keys(es) {
      var i :| 0 <= i < |es| && es[i].key == key;
      StrictTotalOrder(key, key, key);
      assert false;
    }
  }

  /** In a sorted list, what the middle key says about `key` holds for all keys before it,
      or all keys after it. */
  lemma SearchStep(es: seq<Entry>, key: Bytes, middle: nat)
    requires Sorted(es) && middle < |es|
    ensures Less(es[middle].key, key) ==> forall i :: 0 <= i <= middle ==> Less(es[i].key, key)
    ensures !Less(es[middle].key, key) ==> forall i :: middle <= i < |es| ==> !Less(es[i].key, key)
  {
    forall i | 0 <= i < |es|
      ensures i <= middle && Less(es[middle].key, key) ==> Less(es[i].key, key)
      ensures middle <= i && !Less(es[middle].key, key) ==> !Less(es[i].key, key)
    {
      if i < middle {
        StrictTotalOrder(es[i].key, es[middle].key, key);
      } else if middle < i {
        StrictTotalOrder(es[middle].key, es[i].key, key);
      }
    }
  }

  lemma PutSorted(es: seq<Entry>, key: Bytes, value: Option<Bytes>)
    requires Sorted(es)
    ensures Sorted(Put(es, key, value))
  {
    var p, r := Position(es, key), Put(es, key, value);
    PositionSplits(es, key);
    if !Has(es, key) {
      forall i, j | 0 <= i < j < |r| ensures Less(r[i].key, r[j].key) {
        var i', j' := if i < p then i else i - 1, if j < p then j else j - 1;
        if i == p {
          AbovePosition(es, key, j');
          StrictTotalOrder(key, es[j'].key, key);
        } else if j != p {
          assert r[i] == es[i'] && r[j] == es[j'];
        }
      }
    }
  }

  lemma {:induction false} DictSplit(a: seq<Entry>, b: seq<Entry>)
    ensures Dict(a + b) == Dict(b) + Dict(a)
  {
    if a == [] {
      assert a + b == b;
    } else {
      assert (a + b)[1..] == a[1..] + b;
      DictSplit(a[1..], b);
    }
  }

  lemma DictMiddle(front: seq<Entry>, e: Entry, back: seq<Entry>)
    ensures Dict(front + [e] + back) == Dict(back)[e.key := e.value] + Dict(front)
  {
    assert front + [e] + back == front + ([e] + back);
    DictSplit(front, [e] + back);
    assert ([e] + back)[1..] == back;
  }

  lemma FrontMisses(es: seq<Entry>, key: Bytes)
    ensures key !in Dict(es[..Position(es, key)])
  {
    var front := es[..Position(es, key)];
    PositionSplits(es, key);
    DictKeys(front);
    StrictTotalOrder(key, key, key);
    assert forall i :: 0 <= i < |front| ==> front[i] == es[i];
  }

  lemma Overwrite(front: seq<Entry>, was: Entry, e: Entry, back: seq<Entry>)
    requires was.key == e.key && e.key !in Dict(front)
    ensures Dict(front + [e] + back) == Dict(front + [was] + back)[e.key := e.value]
  {
    DictMiddle(front, was, back);
    DictMiddle(front, e, back);
  }

  lemma Insert(front: seq<Entry>, e: Entry, back: seq<Entry>)
    requires e.key !in Dict(front)
    ensures Dict(front + [e] + back) == Dict(front + back)[e.key := e.value]
  {
    DictSplit(front, back);
    DictMiddle(front, e, back);
  }

  /** The map of the updated list is the updated map. */
  lemma PutDict(es: seq<Entry>, key: Bytes, value: Option<Bytes>)
    ensures Dict(Put(es, key, value)) == Dict(es)[key := value]
  {
    var p, e := Position(es, key), Entry(key, value);
    var front := es[..p];
    FrontMisses(es, key);
    if Has(es, key) {
      var back := es[p + 1..];
      assert es == front + [es[p]] + back;
      assert es[p := e] == front + [e] + back;
      Overwrite(front, es[p], e, back);
    } else {
      assert es == front + es[p..];
      Insert(front, e, es[p..]);
    }
  }

  lemma KeysSnoc(front: seq<Entry>, last: Entry)
    ensures Keys(front + [last]) == Keys(front) + {last.key}
  {
    var es := front + [last];
    forall k ensures k in Keys(es) <==> k in Keys(front) || k == last.key {
      if k in Keys(front) {
        var i :| 0 <= i < |front| && front[i].key == k;
        assert es[i].key == k;
      }
      assert es[|front|].key == last.key;
    }
  }

  lemma {:induction false} KeyCount(es: seq<Entry>)
    requires Sorted(es)
    ensures |Keys(es)| == |es|
  {
    if es == [] {
      assert Keys(es) == {};
    } else {
      var front, last := es[..|es| - 1], es[|es| - 1];
      assert es == front + [last];
      KeyCount(front);
      KeysSnoc(front, last);
      StrictTotalOrder(last.key, last.key, last.key);
    }
  }

  lemma {:induction false} SubsetCount<T>(a: set<T>, b: set<T>)
    requires a <= b
    ensures |a| <= |b|
  {
    if a != {} {
      var x :| x in a;
      SubsetCount(a - {x}, b - {x});
    }
  }

  // -------------------------------------------------------- the runtime's state

  /** What initializeStateView leaves in the module variables, and the three raw state
      operations over it. */
  datatype State = State(base: seq<Entry>, overlay: seq<Entry>)

  predicate Valid(s: State) {
    && Canonical(s.base)
    && Sorted(s.overlay) && AllBounded(s.overlay)
    && Keys(s.overlay) <= Keys(s.base)
  }

  /** The map the script sees: the overlay overrides the base. */
  function Visible(s: State): map<Bytes, Option<Bytes>> {
    Dict(s.base) + Dict(s.overlay)
  }

  /** None: the key is not in the view (the runtime raises NeedState). */
  function Get(s: State, key: Bytes): Option<Option<Bytes>> {
    if Has(s.overlay, key) then Some(s.overlay[Position(s.overlay, key)].value)
    else if Has(s.base, key) then Some(s.base[Position(s.base, key)].value)
    else None
  }

  datatype WriteResult = Written(state: State) | Unknown | Oversized

  function Write(s: State, key: Bytes, value: Option<Bytes>): WriteResult {
    if !Has(s.overlay, key) && !Has(s.base, key) then Unknown
    else if !Bounded(Entry(key, value)) then Oversized
    else Written(State(s.base, Put(s.overlay, key, value)))
  }

  /** The two-level binary search is lookup in "overlay overrides base". */
  lemma GetIsLookup(s: State, key: Bytes)
    requires Sorted(s.base) && Sorted(s.overlay)
    ensures Get(s, key) == if key in Visible(s) then Some(Visible(s)[key]) else None
  {
    HasIsDict(s.overlay, key);
    HasIsDict(s.base, key);
  }

  lemma BaseKeyBounded(s: State, key: Bytes)
    requires Valid(s) && key in Keys(s.base)
    ensures |key| <= MAX_KEY_BYTES
  {
    var i :| 0 <= i < |s.base| && s.base[i].key == key;
    assert Bounded(s.base[i]);
  }

  /** A write fails with Unknown exactly on keys outside the view, and on the others only
      when the value is over its bound. */
  lemma WriteFails(s: State, key: Bytes, value: Option<Bytes>)
    requires Valid(s)
    ensures Write(s, key, value).Unknown? <==> key !in Visible(s)
    ensures key in Visible(s) ==>
              (Write(s, key, value).Oversized? <==> value.Some? && |value.value| > MAX_VALUE_BYTES)
  {
    HasIsDict(s.overlay, key);
    HasIsDict(s.base, key);
    DictKeys(s.overlay);
    DictKeys(s.base);
    if key in Visible(s) {
      BaseKeyBounded(s, key);
    }
  }

  lemma MergeUpdate<K, V>(a: map<K, V>, b: map<K, V>, key: K, value: V)
    ensures a + b[key := value] == (a + b)[key := value]
  {
  }

  lemma PutKeys(es: seq<Entry>, key: Bytes, value: Option<Bytes>)
    ensures Keys(Put(es, key, value)) == Keys(es) + {key}
  {
    DictKeys(es);
    PutDict(es, key, value);
    DictKeys(Put(es, key, value));
  }

  /** A successful write keeps the invariant and updates the visible map at one key. */
  lemma WriteIsUpdate(s: State, key: Bytes, value: Option<Bytes>)
    requires Valid(s) && Write(s, key, value).Written?
    ensures var s' := Write(s, key, value).state;
            Valid(s') && s'.base == s.base && Visible(s') == Visible(s)[key := value]
  {
    assert key in Keys(s.base) by {
      HasIsDict(s.overlay, key);
      HasIsDict(s.base, key);
      DictKeys(s.overlay);
      DictKeys(s.base);
    }
    PutSorted(s.overlay, key, value);
    PutBounded(s.overlay, key, value);
    PutKeys(s.overlay, key, value);
    PutDict(s.overlay, key, value);
    MergeUpdate(Dict(s.base), Dict(s.overlay), key, value);
  }

  lemma PutBounded(es: seq<Entry>, key: Bytes, value: Option<Bytes>)
    requires AllBounded(es) && Bounded(Entry(key, value))
    ensures AllBounded(Put(es, key, value))
  {
  }

  // ------------------------------------------------------------- the diff's size

  const MAX_ENTRY_BYTES := 4 + MAX_KEY_BYTES + 1 + 4 + MAX_VALUE_BYTES

  lemma {:induction false} SizeBound(es: seq<Entry>)
    requires AllBounded(es)
    ensures Size(es) <= |es| * MAX_ENTRY_BYTES
  {
    if es != [] {
      assert Bounded(es[0]);
      SizeBound(es[1..]);
    }
  }

  /** In every state the runtime can be in, the diff's length fits the u32 field that
      announces it. */
  lemma DiffFitsU32(s: State)
    requires Valid(s)
    ensures |s.overlay| <= |s.base| <= MAX_ENTRIES
    ensures |EncodeView(s.overlay)| <= MAX_ENTRIES * MAX_ENTRY_BYTES + 5 < U32_LIMIT
  {
    KeyCount(s.overlay);
    KeyCount(s.base);
    SubsetCount(Keys(s.overlay), Keys(s.base));
    SizeBound(s.overlay);
    EncodedLength(s.overlay);
  }
}
