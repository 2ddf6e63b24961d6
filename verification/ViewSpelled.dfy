// The bytes and bounds of state views and script results, spelled out.
module ViewSpelled {
  import opened Bytes
  import opened StateView
  import R = ScriptResult

  // ------------------------------------------------------------------------- order

  /** The first `i` bytes are the same, and there `a` ends first or goes on lower. */
  ghost predicate LowerAt(a: Bytes, b: Bytes, i: nat) {
    && i <= |a| && i < |b| && a[..i] == b[..i]
    && (i == |a| || a[i] < b[i])
  }

  lemma {:induction false} LowerCompares(a: Bytes, b: Bytes, i: nat)
    requires LowerAt(a, b, i)
    ensures Compare(a, b) == -1
  {
    CompareDrop(a, b, i);
    if i == |a| { assert a[i..] == []; }
  }

  lemma {:induction false} ComparesLower(a: Bytes, b: Bytes) returns (i: nat)
    requires Compare(a, b) == -1
    ensures LowerAt(a, b, i)
  {
    if a == [] || a[0] < b[0] {
      i := 0;
    } else {
      var j := ComparesLower(a[1..], b[1..]);
      i := j + 1;
      assert a[..i] == [a[0]] + a[1..][..i - 1] && b[..i] == [b[0]] + b[1..][..i - 1];
    }
  }

  /** The order of keys is that of their first difference, a prefix being lower. */
  lemma OrderSpelled(a: Bytes, b: Bytes)
    ensures Less(a, b) <==> exists i: nat :: LowerAt(a, b, i)
    ensures Compare(a, b) == (if Less(a, b) then -1 else if a == b then 0 else 1)
  {
    CompareZero(a, b);
    if Less(a, b) {
      var i := ComparesLower(a, b);
    }
    if i: nat :| LowerAt(a, b, i) {
      LowerCompares(a, b, i);
    }
  }

  /** Four bytes, the lowest first. */
  predicate SpellsFour(s: Bytes, n: nat) {
    |s| == 4
    && n == s[0] as int + 0x100 * (s[1] as int) + 0x1_0000 * (s[2] as int) + 0x100_0000 * (s[3] as int)
  }

  lemma FieldsSpelled(s: Bytes, n: nat)
    requires n < 0x1_0000_0000
    ensures SpellsFour(s, n) <==> s == U32(n)
    ensures SpellsFour(s, n) <==> |s| == 4 && ToU32(s) == n
  {
    U32RoundTrip(n);
    if |s| == 4 { U32Inverse(s); }
  }

  // ------------------------------------------------------------------------- views

  lemma EntrySpelled(key: Bytes, value: Bytes)
    ensures EncodeEntry(Entry(key, None)) == U32(|key|) + key + [0]
    ensures EncodeEntry(Entry(key, Some(value))) == U32(|key|) + key + [1] + U32(|value|) + value
  {
  }

  /** A view: the version, the number of entries, and the entries one after another. */
  lemma ViewSpelled(es: seq<Entry>)
    ensures EncodeView(es) == [1] + U32(|es|) + EncodeEntries(es)
    ensures EncodeEntries(es) == if es == [] then [] else EncodeEntry(es[0]) + EncodeEntries(es[1..])
  {
  }

  /** At most 4096 entries in ascending order, with keys of at most 4096 bytes and values of
      at most 65536, in a view of at most 1048576 bytes. */
  lemma BoundsSpelled(s: Bytes, es: seq<Entry>)
    ensures ParseView(s) == Some(es)
            <==> && |s| <= 1048576 && s == EncodeView(es) && |es| <= 4096
                 && (forall e :: e in es ==> |e.key| <= 4096 && (e.value.Some? ==> |e.value.value| <= 65536))
                 && (forall i, j :: 0 <= i < j < |es| ==> Less(es[i].key, es[j].key))
  {
    ViewBijection(s, es);
    assert AllBounded(es) <==> forall e :: e in es ==> Bounded(e) by {
      if AllBounded(es) {
        forall e | e in es ensures Bounded(e) {
          var i :| 0 <= i < |es| && es[i] == e;
        }
      }
    }
  }

  // ----------------------------------------------------------------------- results

  /** The five forms of a result. */
  lemma ResultsSpelled(changes: seq<Entry>, code: nat, key: Bytes)
    ensures R.Print(R.Applied(changes)) == [1, 0] + U32(|EncodeView(changes)|) + EncodeView(changes)
    ensures R.Print(R.Abort(code)) == [1, 1] + U32(code)
    ensures R.Print(R.NeedState(key)) == [1, 2] + U32(|key|) + key
    ensures R.Print(R.Fatal(code)) == [1, 3] + U32(code)
  {
  }
}
