// Byte strings, the order compareBytes puts on them, and little-endian u32 fields.
module Bytes {

  datatype Option<+T> = None | Some(value: T)

  /** A call that returns, or throws. */
  datatype Completion<+T> = Done(value: T) | Thrown {
    predicate IsFailure() {
      Thrown?
    }

    function PropagateFailure<U>(): Completion<U>
      requires Thrown?
    {
      Thrown
    }

    function Extract(): T
      requires Done?
    {
      value
    }
  }

  type Byte = b: int | 0 <= b < 256

  type Bytes = seq<Byte>

  const U32_LIMIT := 0x1_0000_0000
  const U64_LIMIT := 0x1_0000_0000_0000_0000

  function Concat(parts: seq<Bytes>): Bytes {
    if parts == [] then [] else parts[0] + Concat(parts[1..])
  }

  /** Lexicographic order, a proper prefix first: negative, zero or positive. */
  function Compare(a: Bytes, b: Bytes): (r: int)
    ensures r == -1 || r == 0 || r == 1
  {
    if a == [] then (if b == [] then 0 else -1)
    else if b == [] then 1
    else if a[0] < b[0] then -1
    else if a[0] > b[0] then 1
    else Compare(a[1..], b[1..])
  }

  predicate Less(a: Bytes, b: Bytes) {
    Compare(a, b) < 0
  }

  lemma {:induction false} CompareZero(a: Bytes, b: Bytes)
    ensures Compare(a, b) == 0 <==> a == b
  {
    if a != [] && b != [] {
      assert a == [a[0]] + a[1..] && b == [b[0]] + b[1..];
      CompareZero(a[1..], b[1..]);
    }
  }

  lemma {:induction false} CompareFlip(a: Bytes, b: Bytes)
    ensures Compare(b, a) == -Compare(a, b)
  {
    if a != [] && b != [] {
      CompareFlip(a[1..], b[1..]);
    }
  }

  lemma {:induction false} LessTransitive(a: Bytes, b: Bytes, c: Bytes)
    requires Less(a, b) && Less(b, c)
    ensures Less(a, c)
  {
    if a != [] && b != [] && c != [] {
      if a[0] == b[0] == c[0] {
        LessTransitive(a[1..], b[1..], c[1..]);
      }
    }
  }

  /** compareBytes is a strict total order: irreflexive, transitive, and any two
      different strings are ordered one way and not the other. */
  lemma StrictTotalOrder(a: Bytes, b: Bytes, c: Bytes)
    ensures !Less(a, a)
    ensures Less(a, b) && Less(b, c) ==> Less(a, c)
    ensures a != b <==> (Less(a, b) || Less(b, a))
    ensures !(Less(a, b) && Less(b, a))
  {
    CompareZero(a, a);
    CompareZero(a, b);
    CompareFlip(a, b);
    if Less(a, b) && Less(b, c) {
      LessTransitive(a, b, c);
    }
  }

  /** Dropping an equal first part does not change the comparison. */
  lemma {:induction false} CompareDrop(a: Bytes, b: Bytes, n: nat)
    requires n <= |a| && n <= |b| && a[..n] == b[..n]
    ensures Compare(a, b) == Compare(a[n..], b[n..])
  {
    if n == 0 {
      assert a[0..] == a && b[0..] == b;
    } else {
      assert a[0] == a[..n][0] == b[..n][0] == b[0];
      assert a[1..][..n - 1] == a[..n][1..] && b[1..][..n - 1] == b[..n][1..];
      CompareDrop(a[1..], b[1..], n - 1);
      assert a[1..][n - 1..] == a[n..] && b[1..][n - 1..] == b[n..];
    }
  }

  /** The comparison loop of the script runtime. */
  method CompareBytes(left: array<Byte>, right: array<Byte>) returns (r: int)
    ensures r == Compare(left[..], right[..])
  {
    var length := if left.Length < right.Length then left.Length else right.Length;
    var index := 0;
    while index < length
      invariant 0 <= index <= length
      invariant left[..index] == right[..index]
    {
      assert left[..][..index] == right[..][..index];
      CompareDrop(left[..], right[..], index);
      if left[index] < right[index] { return -1; }
      if left[index] > right[index] { return 1; }
      index := index + 1;
    }
    assert left[..][..length] == right[..][..length];
    CompareDrop(left[..], right[..], length);
    if left.Length < right.Length { return -1; }
    if left.Length > right.Length { return 1; }
    r := 0;
  }

  // ---------------------------------------------------------------- u32 fields

  /** The four bytes writeU32 stores: `value & 255` and the three bytes above it. */
  function U32(value: nat): (r: Bytes)
    ensures |r| == 4
  {
    [value % 256, value / 256 % 256, value / 65536 % 256, value / 16777216 % 256]
  }

  function ToU32(s: Bytes): (r: nat)
    requires |s| >= 4
  {
    s[0] as int + s[1] as int * 256 + s[2] as int * 65536 + s[3] as int * 16777216
  }

  lemma U32RoundTrip(value: nat)
    requires value < U32_LIMIT
    ensures ToU32(U32(value)) == value
  {
    var v1, v2, v3 := value / 256, value / 65536, value / 16777216;
    assert v2 == v1 / 256 && v3 == v2 / 256;
    assert value == value % 256 + v1 * 256;
    assert v1 == v1 % 256 + v2 * 256;
    assert v2 == v2 % 256 + v3 * 256;
  }

  /** One byte more: the digits of `low + 256 * high`. */
  lemma Digit(low: Byte, high: nat)
    ensures (low + 256 * high) % 256 == low && (low + 256 * high) / 256 == high
  {
  }

  lemma U32Inverse(s: Bytes)
    requires |s| == 4
    ensures ToU32(s) < U32_LIMIT && U32(ToU32(s)) == s
  {
    var w2: nat := s[2] as int + 256 * s[3] as int;
    var w1: nat := s[1] as int + 256 * w2;
    var v: nat := s[0] as int + 256 * w1;
    assert v == ToU32(s);
    Digit(s[0], w1);
    Digit(s[1], w2);
    Digit(s[2], s[3]);
    assert v / 65536 == v / 256 / 256 && v / 16777216 == v / 256 / 256 / 256;
  }
}
