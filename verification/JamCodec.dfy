// JAM's general natural-number serialization (Appendix C of the JAM Gray Paper): the
// prefix of the first byte gives the number of extra little-endian bytes.
module JamCodec {
  import opened Bytes
  import opened Bits

  // --------------------------------------------------- little-endian numbers

  function LE(v: nat, k: nat): (r: Bytes)
    ensures |r| == k
  {
    if k == 0 then [] else [v % 256] + LE(v / 256, k - 1)
  }

  function FromLE(s: Bytes): nat {
    if s == [] then 0 else s[0] as int + 256 * FromLE(s[1..])
  }

  function Pow256(k: nat): (r: nat)
    ensures r > 0
  {
    if k == 0 then 1 else 256 * Pow256(k - 1)
  }

  lemma {:induction false} Pow256IsPow2(k: nat)
    ensures Pow256(k) == Pow2(8 * k)
  {
    if k > 0 {
      Pow256IsPow2(k - 1);
      assert Pow2(8) == 256;
      Pow2Add(8, 8 * k - 8);
    }
  }

  lemma {:induction false} FromLEBound(s: Bytes)
    ensures FromLE(s) < Pow256(|s|)
  {
    if s != [] {
      FromLEBound(s[1..]);
    }
  }

  lemma {:induction false} LERoundTrip(v: nat, k: nat)
    requires v < Pow256(k)
    ensures FromLE(LE(v, k)) == v
  {
    if k > 0 {
      LERoundTrip(v / 256, k - 1);
      assert LE(v, k)[1..] == LE(v / 256, k - 1);
    }
  }

  lemma {:induction false} LEInverse(s: Bytes)
    ensures LE(FromLE(s), |s|) == s
  {
    if s != [] {
      Digit(s[0], FromLE(s[1..]));
      LEInverse(s[1..]);
    }
  }

  lemma {:induction false} FromLESnoc(s: Bytes, b: Byte)
    ensures FromLE(s + [b]) == FromLE(s) + b * Pow256(|s|)
  {
    if s == [] {
      assert [b][1..] == [];
    } else {
      assert (s + [b])[1..] == s[1..] + [b];
      FromLESnoc(s[1..], b);
    }
  }

  // --------------------------------------------------------------- the grammar

  /** How many bits are set before the first clear one, from bit 7 - `i` down. */
  function LeadingOnes(b: Byte, i: nat): (r: nat)
    requires i <= 8
    ensures i + r <= 8
    decreases 8 - i
  {
    if i < 8 && Shr(b, 7 - i) % 2 == 1 then 1 + LeadingOnes(b, i + 1) else 0
  }

  function Width(first: Byte): (r: nat)
    ensures r <= 8
  {
    LeadingOnes(first, 0)
  }

  /** The number the first byte and the `low` bytes stand for. */
  function Value(first: Byte, low: Bytes): nat
    requires |low| <= 7
  {
    FromLE(low) + first % Pow2(7 - |low|) * Pow256(|low|)
  }

  /** Decoding from the front: the value and what is left, or None where both decoders
      fail. */
  function DecodeNatural(s: Bytes): Option<(nat, Bytes)> {
    if s == [] then None else
    var k := Width(s[0]);
    if k > 7 || |s| < 1 + k then None
    else Some((Value(s[0], s[1..1 + k]), s[1 + k..]))
  }

  /** The bytes with `k` of them after the first: the prefix of k ones, the high part, and
      the rest little-endian. */
  function EncodeWide(v: nat, k: nat): Bytes
    requires k <= 7 && v < Pow2(7 - k) * Pow256(k)
  {
    HighFits(v, k);
    PrefixBound(k);
    [256 - Pow2(8 - k) + v / Pow256(k)] + LE(v % Pow256(k), k)
  }

  lemma HighFits(v: nat, k: nat)
    requires k <= 7 && v < Pow2(7 - k) * Pow256(k)
    ensures 0 <= v / Pow256(k) < Pow2(7 - k)
  {
    QuotientBound(v, Pow256(k), Pow2(7 - k));
  }

  lemma PrefixBound(k: nat)
    requires k <= 7
    ensures Pow2(8 - k) == 2 * Pow2(7 - k) <= 256
  {
    assert Pow2(8) == 256 && Pow2(7) == 128 && Pow2(6) == 64 && Pow2(5) == 32;
    assert Pow2(4) == 16 && Pow2(3) == 8 && Pow2(2) == 4 && Pow2(1) == 2;
  }

  // ------------------------------------------------------ what the prefix says

  lemma TopDigit(a: nat, m: nat)
    requires m > 0
    ensures a % (2 * m) == a / m % 2 * m + a % m
  {
    var q, t := a / m / 2, a / m % 2;
    assert a == a / m * m + a % m && a / m == 2 * q + t;
    assert a == q * (2 * m) + (t * m + a % m) by {
      assert (2 * q + t) * m == q * (2 * m) + t * m;
    }
    Quotient(a, 2 * m, q, t * m + a % m);
  }

  lemma {:induction false} Pow2Grows(j: nat, k: nat)
    requires j <= k
    ensures Pow2(j) <= Pow2(k)
  {
    if j < k {
      Pow2Grows(j, k - 1);
    }
  }

  lemma {:induction false} OnesInRange(b: Byte, i: nat, k: nat)
    requires i <= k <= 7
    ensures LeadingOnes(b, i) == k - i
            <==> Pow2(8 - i) - Pow2(8 - k) <= b % Pow2(8 - i) < Pow2(8 - i) - Pow2(7 - k)
    decreases k - i
  {
    var m := Pow2(7 - i);
    TopBit(b, i);
    if i == k {
      assert 2 * m - Pow2(8 - k) == 0 && 2 * m - Pow2(7 - k) == m;
    } else if b / m % 2 == 0 {
      Pow2Grows(8 - k, 7 - i);
    } else {
      OnesInRange(b, i + 1, k);
    }
  }

  /** The bit that LeadingOnes looks at first. */
  lemma TopBit(b: Byte, i: nat)
    requires i <= 7
    ensures var m := Pow2(7 - i);
            Pow2(8 - i) == 2 * m && 0 <= b % m < m
            && b % (2 * m) == (if b / m % 2 == 0 then b % m else m + b % m)
            && LeadingOnes(b, i) == if b / m % 2 == 0 then 0 else 1 + LeadingOnes(b, i + 1)
  {
    ShrIsDiv(b, 7 - i);
    TopPart(b, Pow2(7 - i));
  }

  lemma TopPart(a: nat, m: nat)
    requires m > 0
    ensures 0 <= a % m < m
    ensures a % (2 * m) == if a / m % 2 == 0 then a % m else m + a % m
  {
    TopDigit(a, m);
    if a / m % 2 == 0 {
      assert 0 * m == 0;
    } else {
      assert 1 * m == m;
    }
  }

  /** The first byte announces `k` more bytes exactly when it lies in the k-th range. */
  lemma WidthRange(b: Byte, k: nat)
    requires k <= 7
    ensures Width(b) == k <==> 256 - Pow2(8 - k) <= b < 256 - Pow2(7 - k)
  {
    var m := Pow2(8);
    assert m == 256 && b % m == b;
    OnesInRange(b, 0, k);
  }

  lemma PrefixProduct(k: nat)
    requires k <= 7
    ensures Pow2(1 + k) >= 2 && 256 - Pow2(8 - k) == (Pow2(1 + k) - 2) * Pow2(7 - k)
  {
    PrefixBound(k);
    Pow2Add(1 + k, 7 - k);
    assert Pow2(8) == 256;
    Pow2Grows(1, 1 + k);
    TwoLess(Pow2(1 + k), Pow2(7 - k));
  }

  lemma TwoLess(x: int, y: int)
    ensures (x - 2) * y == x * y - 2 * y
  {
  }

  /** The first byte of a wide encoding announces its width and carries the high part. */
  lemma WideFirstByte(k: nat, high: nat)
    requires k <= 7 && high < Pow2(7 - k)
    ensures var b := 256 - Pow2(8 - k) + high;
            0 <= b < 256 && Width(b) == k && b % Pow2(7 - k) == high
  {
    PrefixBound(k);
    WidthRange(256 - Pow2(8 - k) + high, k);
    PrefixProduct(k);
    Quotient(256 - Pow2(8 - k) + high, Pow2(7 - k), Pow2(1 + k) - 2, high);
  }

  lemma DivMod(v: nat, p: nat)
    requires p > 0
    ensures v % p + v / p * p == v
  {
  }

  lemma DecodeParts(first: Byte, low: Bytes, rest: Bytes)
    requires Width(first) == |low| <= 7
    ensures DecodeNatural([first] + low + rest) == Some((Value(first, low), rest))
  {
    var s := [first] + low + rest;
    assert s[1..1 + |low|] == low && s[1 + |low|..] == rest;
  }

  lemma WideRoundTrip(v: nat, k: nat, rest: Bytes)
    requires k <= 7 && v < Pow2(7 - k) * Pow256(k)
    ensures DecodeNatural(EncodeWide(v, k) + rest) == Some((v, rest))
  {
    var first, tail := EncodeWide(v, k)[0], LE(v % Pow256(k), k);
    WideStarts(v, k);
    WideValue(first, v, k);
    DecodeParts(first, tail, rest);
  }

  lemma WideStarts(v: nat, k: nat)
    requires k <= 7 && v < Pow2(7 - k) * Pow256(k)
    ensures |EncodeWide(v, k)| > 0
    ensures var first := EncodeWide(v, k)[0];
            EncodeWide(v, k) == [first] + LE(v % Pow256(k), k)
            && Width(first) == k && first % Pow2(7 - k) == v / Pow256(k)
  {
    HighFits(v, k);
    WideFirstByte(k, v / Pow256(k));
  }

  lemma WideValue(first: Byte, v: nat, k: nat)
    requires k <= 7 && first % Pow2(7 - k) == v / Pow256(k)
    ensures Value(first, LE(v % Pow256(k), k)) == v
  {
    var p := Pow256(k);
    LERoundTrip(v % p, k);
    DivMod(v, p);
  }

  /** Every accepted string is the wide encoding of its value at the announced width. */
  lemma AcceptedIsWide(s: Bytes)
    requires DecodeNatural(s).Some?
    ensures var (v, rest) := DecodeNatural(s).value;
            var k := Width(s[0]);
            k <= 7 && v < Pow2(7 - k) * Pow256(k) && s == EncodeWide(v, k) + rest
  {
    var k := Width(s[0]);
    var low := s[1..1 + k];
    AcceptedParts(s[0], low);
    assert s == [s[0]] + low + s[1 + k..];
  }

  lemma AcceptedParts(first: Byte, low: Bytes)
    requires Width(first) == |low| <= 7
    ensures var k, v := |low|, Value(first, low);
            v < Pow2(7 - k) * Pow256(k) && [first] + low == EncodeWide(v, k)
  {
    var k := |low|;
    var high := first % Pow2(7 - k);
    FromLEBound(low);
    WideOfParts(high, low);
    FirstByteUnique(first, k, high);
    LEInverse(low);
    WideText(Value(first, low), k, first, low);
  }

  lemma WideText(v: nat, k: nat, first: Byte, low: Bytes)
    requires k <= 7 && v < Pow2(7 - k) * Pow256(k)
    requires first == 256 - Pow2(8 - k) + v / Pow256(k) && low == LE(v % Pow256(k), k)
    ensures EncodeWide(v, k) == [first] + low
  {
  }

  lemma WideOfParts(high: nat, low: Bytes)
    requires |low| <= 7 && high < Pow2(7 - |low|) && FromLE(low) < Pow256(|low|)
    ensures var k := |low|;
            var v := FromLE(low) + high * Pow256(k);
            v < Pow2(7 - k) * Pow256(k)
            && v / Pow256(k) == high && v % Pow256(k) == FromLE(low)
  {
    var p := Pow256(|low|);
    Quotient(FromLE(low) + high * p, p, high, FromLE(low));
    BelowProduct(FromLE(low), high, p, Pow2(7 - |low|));
  }

  lemma BelowProduct(low: nat, high: nat, p: nat, q: nat)
    requires low < p && high < q
    ensures low + high * p < q * p
  {
    Multiple(q - high, p);
    assert (q - high) * p == q * p - high * p;
  }

  lemma FirstByteUnique(b: Byte, k: nat, high: nat)
    requires k <= 7 && Width(b) == k && high == b % Pow2(7 - k)
    ensures b == 256 - Pow2(8 - k) + high
  {
    WidthRange(b, k);
    PrefixBound(k);
    PrefixProduct(k);
    Quotient(b, Pow2(7 - k), Pow2(1 + k) - 2, b - (256 - Pow2(8 - k)));
  }

  // ----------------------------------------------------------- the u32 encoder

  /** The least width whose range holds `v`. */
  function LeastWidth(v: nat): (k: nat)
    requires v < U32_LIMIT
    ensures k <= 4
  {
    if v < 0x80 then 0
    else if v < 0x4000 then 1
    else if v < 0x20_0000 then 2
    else if v < 0x1000_0000 then 3
    else 4
  }

  lemma WidthLimits()
    ensures Pow2(7) * Pow256(0) == 0x80
    ensures Pow2(6) * Pow256(1) == 0x4000
    ensures Pow2(5) * Pow256(2) == 0x20_0000
    ensures Pow2(4) * Pow256(3) == 0x1000_0000
    ensures Pow2(3) * Pow256(4) == 0x8_0000_0000
  {
    assert Pow2(7) == 128 && Pow2(6) == 64 && Pow2(5) == 32 && Pow2(4) == 16 && Pow2(3) == 8;
    assert Pow256(1) == 0x100 && Pow256(2) == 0x1_0000;
    assert Pow256(3) == 0x100_0000 && Pow256(4) == 0x1_0000_0000;
  }

  function EncodeNatural(v: nat): (r: Bytes)
    requires v < U32_LIMIT
  {
    WidthLimits();
    EncodeWide(v, LeastWidth(v))
  }

  /** Decoding an encoded number returns it and leaves exactly what followed. */
  lemma NaturalRoundTrip(v: nat, rest: Bytes)
    requires v < U32_LIMIT
    ensures DecodeNatural(EncodeNatural(v) + rest) == Some((v, rest))
  {
    WidthLimits();
    WideRoundTrip(v, LeastWidth(v), rest);
  }

  /** Any other accepted form of the same number is strictly longer. */
  lemma EncodingIsShortest(v: nat, s: Bytes)
    requires v < U32_LIMIT && DecodeNatural(s) == Some((v, []))
    ensures s == EncodeNatural(v) || |s| > |EncodeNatural(v)|
  {
    AcceptedIsWide(s);
    WidthLimits();
  }

  lemma {:induction false} LEOfRemainder(v: nat, k: nat)
    ensures LE(v % Pow256(k), k) == LE(v, k)
  {
    if k > 0 {
      var p := Pow256(k - 1);
      Digits(v, p);
      LEOfRemainder(v / 256, k - 1);
    }
  }

  /** Peeling the lowest digit off a remainder and off a quotient. */
  lemma Digits(v: nat, p: nat)
    requires p > 0
    ensures v % (256 * p) % 256 == v % 256 && v % (256 * p) / 256 == v / 256 % p
    ensures v / (256 * p) == v / 256 / p
  {
    var h := v / 256;
    assert h == h / p * p + h % p;
    assert v == h / p * (256 * p) + (v % 256 + 256 * (h % p));
    Quotient(v, 256 * p, h / p, v % 256 + 256 * (h % p));
    Digit(v % 256, h % p);
  }

  lemma {:induction false} LESnoc(v: nat, k: nat)
    ensures LE(v, k + 1) == LE(v, k) + [v / Pow256(k) % 256]
  {
    if k == 0 {
      assert LE(v / 256, 0) == [];
    } else {
      Digits(v, Pow256(k - 1));
      LESnoc(v / 256, k - 1);
    }
  }
}
