// The two decoders of JAM naturals - the script's, in double arithmetic, and the
// service's, in 64-bit shifts - and the script's encoder.
module NaturalCodecs {
  import opened Bytes
  import opened Bits
  import opened JamCodec
  import D = Doubles

  /** `first & (128 >>> i)` tests the bit LeadingOnes looks at. */
  lemma PrefixBit(first: Byte, i: nat)
    requires i < 8
    ensures And(first, Shr(128, i)) != 0 <==> Shr(first, 7 - i) % 2 == 1
  {
    ShrOfMask(i);
    AndBit(first, 7 - i);
  }

  lemma ShrOfMask(i: nat)
    requires i < 8
    ensures Shr(128, i) == Pow2(7 - i) && Shr(127, i) == Pow2(7 - i) - 1
  {
    assert Shr(1, 0) == 1 && Shr(2, 1) == 1 && Shr(4, 2) == 1 && Shr(8, 3) == 1;
    assert Shr(0, 0) == 0 && Shr(1, 0) == 1 && Shr(3, 1) == 1 && Shr(7, 2) == 1 && Shr(15, 3) == 1;
    ShrIsDiv(128, i);
    ShrIsDiv(127, i);
    PrefixBound(i);
    assert Pow2(0) == 1 && Pow2(1) == 2 && Pow2(2) == 4 && Pow2(3) == 8;
    assert Pow2(4) == 16 && Pow2(5) == 32 && Pow2(6) == 64 && Pow2(7) == 128;
  }

  lemma PayloadBits(first: Byte, k: nat)
    requires k < 8
    ensures And(first, Shr(127, k)) == first % Pow2(7 - k)
  {
    ShrOfMask(k);
    AndMask(first, 7 - k);
  }

  /** The loop that counts the prefix; both decoders run it. */
  method PrefixLength(first: Byte) returns (length: nat)
    ensures length == Width(first)
  {
    length := 0;
    while length < 8 && And(first, Shr(128, length)) != 0
      invariant length <= 8
      invariant length + LeadingOnes(first, length) == Width(first)
    {
      PrefixBit(first, length);
      length := length + 1;
    }
    if length < 8 {
      PrefixBit(first, length);
    }
  }

  lemma NoPrefix(first: Byte)
    ensures first < 128 <==> Width(first) == 0
    ensures first < 128 ==> first % Pow2(7) == first
  {
    WidthRange(first, 0);
    assert Pow2(8) == 256 && Pow2(7) == 128;
  }

  class JamCursor {
    const input: Bytes
    var offset: nat

    constructor (input: Bytes)
      ensures this.input == input && Valid() && Rest() == input
    {
      this.input := input;
      offset := 0;
    }

    ghost predicate Valid()
      reads this
    {
      offset <= |input|
    }

    ghost function Rest(): Bytes
      requires Valid()
      reads this
    {
      input[offset..]
    }

    method JamTake(length: nat) returns (r: Completion<Bytes>)
      requires Valid()
      modifies this
      ensures Valid()
      ensures length <= |old(Rest())| ==>
                r == Done(old(Rest())[..length]) && Rest() == old(Rest())[length..]
      ensures length > |old(Rest())| ==> r.Thrown? && offset == old(offset)
    {
      var end := offset + length;
      if end < offset || end > |input| {
        return Thrown;
      }
      var value := input[offset..end];
      assert input[offset..][..length] == value && input[offset..][length..] == input[end..];
      offset := end;
      return Done(value);
    }

    method JamU8() returns (r: Completion<Byte>)
      requires Valid()
      modifies this
      ensures Valid()
      ensures old(Rest()) != [] ==> r == Done(old(Rest())[0]) && Rest() == old(Rest())[1..]
      ensures old(Rest()) == [] ==> r.Thrown?
    {
      var b :- JamTake(1);
      return Done(b[0]);
    }

    method JamU32() returns (r: Completion<nat>)
      requires Valid()
      modifies this
      ensures Valid()
      ensures |old(Rest())| >= 4 ==> r == Done(ToU32(old(Rest()))) && Rest() == old(Rest())[4..]
      ensures |old(Rest())| < 4 ==> r.Thrown?
    {
      var b :- JamTake(4);
      return Done(ToU32(b));
    }

    /** jamNatural: fails exactly where the grammar does, consumes the same bytes, and
        returns the double nearest to the value. */
    method JamNatural() returns (r: Completion<nat>)
      requires Valid()
      modifies this
      ensures Valid()
      ensures match DecodeNatural(old(Rest()))
              case None => r.Thrown?
              case Some((v, rest)) => r == Done(D.Round(v)) && Rest() == rest
    {
      ghost var s := Rest();
      var first :- JamU8();
      NoPrefix(first);
      if first < 128 {
        D.SmallIsExact(first);
        assert s[1..1] == [] && Value(first, []) == first;
        return Done(first);
      }
      var length := PrefixLength(first);
      if length == 0 || length > 7 {
        return Thrown;
      }
      var low :- JamTake(length);
      assert low == s[1..1 + length];
      var value := DoubleValue(first, low);
      return Done(value);
    }
  }

  /** The summing loop of jamNatural, every sum and product rounded. */
  method DoubleValue(first: Byte, low: Bytes) returns (r: nat)
    requires 1 <= |low| <= 7
    ensures r == D.Round(Value(first, low))
  {
    var multiplier, value := 1, 0;
    var index := 0;
    while index < |low|
      invariant 0 <= index <= |low|
      invariant multiplier == Pow256(index)
      invariant value == D.Round(FromLE(low[..index]))
    {
      SumStep(low, index);
      value := D.Round(value + D.Round(low[index] as int * multiplier));
      multiplier := D.Round(multiplier * 256);
      index := index + 1;
    }
    assert low[..index] == low;
    var payload := And(first, Shr(127, |low|));
    assert payload == first % Pow2(7 - |low|) by { PayloadBits(first, |low|); }
    LastSum(first, low);
    r := D.Round(value + D.Round(payload * multiplier));
  }

  lemma Powers()
    ensures Pow256(0) == 1 && Pow256(1) == 0x100 && Pow256(2) == 0x1_0000
    ensures Pow256(3) == 0x100_0000 && Pow256(4) == 0x1_0000_0000
    ensures Pow256(5) == 0x100_0000_0000 && Pow256(6) == 0x1_0000_0000_0000
    ensures Pow256(7) == 0x100_0000_0000_0000
  {
  }

  lemma PowerIsDouble(i: nat)
    requires i <= 7
    ensures D.Round(Pow256(i)) == Pow256(i)
  {
    Powers();
    D.Representable(Pow256(i));
    D.Spacing(Pow256(i));
  }

  lemma ByteTimes(b: Byte, p: nat)
    requires p <= 0x100_0000_0000
    ensures b * p < D.EXACT
  {
    assert b * p <= 255 * p;
  }

  lemma ByteTimesPower(b: Byte, i: nat)
    requires i <= 6
    ensures D.Round(b * Pow256(i)) == b * Pow256(i)
  {
    Powers();
    if i < 6 {
      ByteTimes(b, Pow256(i));
      D.SmallIsExact(b * Pow256(i));
    } else {
      TopByte(b);
    }
  }

  lemma TopByte(b: Byte)
    ensures D.Round(b * 0x1_0000_0000_0000) == b * 0x1_0000_0000_0000
  {
    D.Spacing(b * 0x1_0000_0000_0000);
    D.Representable(b * 0x1_0000_0000_0000);
  }

  /** One turn of the loop rounds the exact sum once: only the last can round at all. */
  lemma SumStep(low: Bytes, i: nat)
    requires i < |low| <= 7
    ensures D.Round(D.Round(FromLE(low[..i])) + D.Round(low[i] as int * Pow256(i)))
            == D.Round(FromLE(low[..i + 1]))
    ensures D.Round(Pow256(i) * 256) == Pow256(i + 1)
  {
    var front := low[..i];
    assert low[..i + 1] == front + [low[i]];
    FromLESnoc(front, low[i]);
    FromLEBound(front);
    PowersGrow(i);
    D.SmallIsExact(FromLE(front));
    ByteTimesPower(low[i], i);
    PowerIsDouble(i + 1);
  }

  lemma PowersGrow(i: nat)
    requires i <= 6
    ensures Pow256(i) < D.EXACT
  {
    Powers();
  }

  lemma LastSum(first: Byte, low: Bytes)
    requires 1 <= |low| <= 7
    ensures var high := first % Pow2(7 - |low|) * Pow256(|low|);
            D.Round(D.Round(FromLE(low)) + D.Round(high)) == D.Round(Value(first, low))
  {
    var k := |low|;
    FromLEBound(low);
    Powers();
    if k == 7 {
      assert Pow2(0) == 1;
      D.SmallIsExact(0);
      D.RoundedIsDouble(FromLE(low));
    } else {
      PrefixBound(k);
      PowersGrow(k);
      var h := first % Pow2(7 - k);
      assert h < 64 by { Pow2Grows(7 - k, 6); assert Pow2(6) == 64; }
      D.SmallIsExact(FromLE(low));
      HighIsExact(h, k);
    }
  }

  lemma HighIsExact(h: nat, k: nat)
    requires k <= 6 && h < 64 && (k == 6 ==> h < 2)
    ensures D.Round(h * Pow256(k)) == h * Pow256(k)
  {
    Powers();
    D.SmallIsExact(h * Pow256(k));
  }

  // ------------------------------------------------------------ the encoder

  /** The whole numbers of 32 bits. */
  predicate Unsigned(number: real) {
    number.Floor as real == number && 0.0 <= number <= 4294967295.0
  }

  /** jamEncodeNatural: any other number throws. */
  method JamEncodeNatural(number: real) returns (r: Completion<Bytes>)
    ensures Unsigned(number) ==> r == Done(EncodeNatural(number.Floor))
    ensures !Unsigned(number) ==> r.Thrown?
  {
    if number.Floor as real != number || number < 0.0 || number > 4294967295.0 {
      return Thrown;
    }
    r := EncodeUnsigned(number.Floor);
  }

  method EncodeUnsigned(value: nat) returns (r: Completion<Bytes>)
    requires value < U32_LIMIT
    ensures r == Done(EncodeNatural(value))
  {
    if value < 128 {
      ShortForm(value);
      return Done([value]);
    }
    var length := ChooseWidth(value);
    var divisor, index := 1, 0;
    while index < length
      invariant 0 <= index <= length && divisor == Pow256(index)
    {
      divisor := divisor * 256;
      index := index + 1;
    }
    HeadByte(value, length);
    var prefix, high := And(256 - Shl(1, 8 - length), 255), And(value / divisor, Shr(127, length));
    var output := new Byte[1 + length];
    output[0] := Or(prefix, high);
    ghost var first := output[0];
    FillLow(output, value);
    LEOfRemainder(value, length);
    assert output[..] == [first] + LE(value, length);
    return Done(output[..]);
  }

  /** The threshold loop. */
  method ChooseWidth(value: nat) returns (length: nat)
    requires 128 <= value < U32_LIMIT
    ensures 1 <= length == LeastWidth(value)
  {
    var threshold := 16384;
    length := 1;
    while length < 4 && value >= threshold
      invariant 1 <= length <= 4
      invariant threshold == (if length == 1 then 0x4000 else if length == 2 then 0x20_0000
                              else if length == 3 then 0x1000_0000 else 0x8_0000_0000)
      invariant LeastWidth(value) >= length
      decreases 4 - length
    {
      length := length + 1;
      threshold := threshold * 128;
    }
  }

  /** The little-endian bytes behind the first. */
  method FillLow(output: array<Byte>, value: nat)
    requires output.Length >= 1
    modifies output
    ensures output[0] == old(output[0]) && output[1..] == LE(value, output.Length - 1)
  {
    var multiplier, index := 1, 0;
    while index < output.Length - 1
      invariant 0 <= index < output.Length && multiplier == Pow256(index)
      invariant output[0] == old(output[0])
      invariant output[1..1 + index] == LE(value, index)
    {
      ByteAt(value, index);
      ghost var before := output[1..1 + index];
      output[index + 1] := And(value / multiplier, 255);
      assert output[1..2 + index] == before + [output[index + 1]];
      multiplier := multiplier * 256;
      index := index + 1;
    }
    assert output[1..] == output[1..1 + index];
  }

  /** One more byte of the little-endian form. */
  lemma ByteAt(v: nat, k: nat)
    ensures 0 <= v / Pow256(k) && 0 <= And(v / Pow256(k), 255) < 256
    ensures LE(v, k + 1) == LE(v, k) + [And(v / Pow256(k), 255)]
  {
    DivPositive(v, Pow256(k));
    LowByte(v / Pow256(k));
    LESnoc(v, k);
  }

  lemma DivPositive(v: nat, p: nat)
    requires p > 0
    ensures 0 <= v / p
  {
  }

  lemma ShortForm(v: nat)
    requires v < 128
    ensures EncodeNatural(v) == [v]
  {
    assert Pow256(0) == 1 && Pow2(8) == 256;
    assert LE(v % 1, 0) == [];
  }

  lemma LowByte(v: nat)
    ensures And(v, 255) == v % 256
  {
    assert Pow2(8) == 256;
    AndMask(v, 8);
  }

  /** The k ones of the prefix, as a byte and as a multiple of the payload's range. */
  lemma PrefixByte(k: nat)
    requires 1 <= k <= 4
    ensures 0 <= 256 - Shl(1, 8 - k) < 256
    ensures And(256 - Shl(1, 8 - k), 255) == 256 - Pow2(8 - k) == (Pow2(1 + k) - 2) * Pow2(7 - k)
    ensures Pow2(1 + k) >= 2
  {
    PrefixBound(k);
    ShlOne(8 - k);
    PrefixAnd(k);
    PrefixProduct(k);
  }

  lemma ShlOne(k: nat)
    ensures Shl(1, k) == Pow2(k)
  {
  }

  lemma PrefixAnd(k: nat)
    requires 1 <= k <= 4
    ensures 0 <= 256 - Pow2(8 - k) < 256 && And(256 - Pow2(8 - k), 255) == 256 - Pow2(8 - k)
  {
    PrefixBound(k);
    Pow2Grows(0, 8 - k);
    ByteAnd(256 - Pow2(8 - k));
  }

  lemma ByteAnd(v: nat)
    requires v < 256
    ensures And(v, 255) == v
  {
    LowByte(v);
    SmallMod(v, 256);
  }

  lemma SmallMod(a: nat, m: nat)
    requires a < m
    ensures a % m == a
  {
  }

  /** The bit operations that build the first byte add the prefix and the high part. */
  lemma HeadByte(v: nat, k: nat)
    requires v < U32_LIMIT && 1 <= k == LeastWidth(v)
    ensures 0 <= 256 - Shl(1, 8 - k) && 0 <= v / Pow256(k)
    ensures Or(And(256 - Shl(1, 8 - k), 255), And(v / Pow256(k), Shr(127, k)))
            == 256 - Pow2(8 - k) + v / Pow256(k) < 256
  {
    assert v < Pow2(7 - k) * Pow256(k) by { WidthLimits(); }
    HighFits(v, k);
    HeadBits(v / Pow256(k), k);
  }

  lemma HeadBits(high: nat, k: nat)
    requires 1 <= k <= 4 && high < Pow2(7 - k)
    ensures 0 <= 256 - Shl(1, 8 - k)
    ensures Or(And(256 - Shl(1, 8 - k), 255), And(high, Shr(127, k))) == 256 - Pow2(8 - k) + high < 256
  {
    PrefixByte(k);
    PayloadMask(high, k);
    OrAbove(And(256 - Shl(1, 8 - k), 255), high, Pow2(1 + k) - 2, 7 - k);
    PrefixBound(k);
  }

  lemma OrAbove(prefix: nat, high: nat, n: nat, m: nat)
    requires prefix == n * Pow2(m) && high < Pow2(m)
    ensures Or(prefix, high) == prefix + high
  {
    OrDisjoint(high, n, m);
  }

  lemma PayloadMask(high: nat, k: nat)
    requires 1 <= k <= 4 && high < Pow2(7 - k)
    ensures And(high, Shr(127, k)) == high
  {
    ShrOfMask(k);
    AndMask(high, 7 - k);
    SmallMod(high, Pow2(7 - k));
  }

  // ----------------------------------------------------- the service's decoder

  /** `<<` on u64. */
  function Shl64(a: nat, k: nat): nat {
    Shl(a, k) % U64_LIMIT
  }

  /** read_fnencode: the value, and the offset it leaves behind (past the first byte even
      when it fails after reading it). */
  method ReadFnEncode(input: Bytes, offset: nat) returns (r: Option<nat>, next: nat)
    requires offset <= |input|
    ensures offset <= next <= |input|
    ensures match DecodeNatural(input[offset..])
            case None => r.None?
            case Some((v, rest)) => r == Some(v) && input[next..] == rest
  {
    if offset >= |input| {
      return None, offset;
    }
    var s := input[offset..];
    var first := input[offset];
    next := offset + 1;
    NoPrefix(first);
    if first < 128 {
      assert s[1..1] == [] && Value(first, []) == first;
      return Some(first as int), next;
    }
    var length := PrefixLength(first);
    if length == 0 || length > 7 || |input| - next < length {
      return None, next;
    }
    var low := ReadLow(input, next, length);
    assert input[next..next + length] == s[1..1 + length];
    ShiftHigh(first, s[1..1 + length]);
    assert s[1 + length..] == input[next + length..];
    r := Some(Or(Shl64(And(first, Shr(127, length)), 8 * length), low));
    next := next + length;
  }

  /** The loop over the bytes behind the first. */
  method ReadLow(input: Bytes, next: nat, length: nat) returns (low: nat)
    requires next + length <= |input| && length <= 7
    ensures low == FromLE(input[next..next + length])
  {
    ghost var bytes := input[next..next + length];
    var index := 0;
    low := 0;
    while index < length
      invariant 0 <= index <= length
      invariant low == FromLE(bytes[..index])
    {
      assert bytes[..index + 1] == bytes[..index] + [input[next + index]];
      ShiftIn(bytes[..index], input[next + index]);
      low := Or(low, Shl64(input[next + index], 8 * index));
      index := index + 1;
    }
    assert bytes[..index] == bytes;
  }

  lemma ProductBound(a: nat, b: nat, p: nat, q: nat)
    requires a <= b && p <= q
    ensures a * p <= b * q
  {
    assert a * p <= b * p <= b * q;
  }

  lemma NoOverflow(a: nat, k: nat)
    requires (a <= 255 && k <= 6) || (a <= 127 && k <= 7)
    ensures Shl64(a, 8 * k) == a * Pow2(8 * k) == a * Pow256(k)
  {
    Pow256IsPow2(k);
    ShiftFits(a, k);
    SmallMod(a * Pow2(8 * k), U64_LIMIT);
  }

  lemma ShiftFits(a: nat, k: nat)
    requires (a <= 255 && k <= 6) || (a <= 127 && k <= 7)
    ensures a * Pow256(k) < U64_LIMIT
  {
    Powers();
    if k <= 6 {
      ProductBound(a, 255, Pow256(k), 0x1_0000_0000_0000);
    } else {
      ProductBound(a, 127, Pow256(k), 0x100_0000_0000_0000);
    }
  }

  /** Or-ing in the next byte appends it to the little-endian number. */
  lemma ShiftIn(front: Bytes, b: Byte)
    requires |front| <= 6
    ensures Or(FromLE(front), Shl64(b, 8 * |front|)) == FromLE(front + [b])
  {
    FromLESnoc(front, b);
    FromLEBound(front);
    NoOverflow(b, |front|);
    Pow256IsPow2(|front|);
    OrDisjoint(FromLE(front), b, 8 * |front|);
  }

  lemma ShiftHigh(first: Byte, low: Bytes)
    requires |low| <= 7
    ensures Or(Shl64(And(first, Shr(127, |low|)), 8 * |low|), FromLE(low)) == Value(first, low)
  {
    var k := |low|;
    var h := first % Pow2(7 - k);
    PayloadBits(first, k);
    Pow2Grows(7 - k, 7);
    assert Pow2(7) == 128;
    FromLEBound(low);
    NoOverflow(h, k);
    Pow256IsPow2(k);
    OrDisjoint(FromLE(low), h, 8 * k);
  }

  /** decode_accumulate_init_input: three numbers and nothing after them. */
  function AccumulateInit(input: Bytes): Option<(nat, nat, nat)> {
    match DecodeNatural(input)
    case None => None
    case Some((tick, afterTick)) =>
      match DecodeNatural(afterTick)
      case None => None
      case Some((sid, afterSid)) =>
        match DecodeNatural(afterSid)
        case None => None
        case Some((count, rest)) => if rest == [] then Some((tick, sid, count)) else None
  }

  method DecodeAccumulateInitInput(input: Bytes) returns (r: Option<(nat, nat, nat)>)
    ensures r == AccumulateInit(input)
  {
    assert input[0..] == input;
    var tick, afterTick := ReadFnEncode(input, 0);
    if tick.None? { return None; }
    var sid, afterSid := ReadFnEncode(input, afterTick);
    if sid.None? { return None; }
    var count, end := ReadFnEncode(input, afterSid);
    if count.None? || end != |input| { return None; }
    return Some((tick.value, sid.value, count.value));
  }

  predicate WideFits(v: nat, k: nat) {
    k <= 7 && v < Pow2(7 - k) * Pow256(k)
  }

  lemma ThreeNumbers(input: Bytes, tick: nat, afterTick: Bytes, sid: nat, afterSid: Bytes, count: nat, rest: Bytes)
    requires DecodeNatural(input) == Some((tick, afterTick)) && DecodeNatural(afterTick) == Some((sid, afterSid))
    requires DecodeNatural(afterSid) == Some((count, rest))
    ensures AccumulateInit(input) == if rest == [] then Some((tick, sid, count)) else None
  {
  }

  /** The three numbers come out in the order they were written in, tick first, whatever
      widths they have; with one more byte behind them, none does. */
  lemma InitInput(tick: nat, sid: nat, count: nat, a: nat, b: nat, c: nat, more: Bytes)
    requires WideFits(tick, a) && WideFits(sid, b) && WideFits(count, c)
    ensures AccumulateInit(EncodeWide(tick, a) + (EncodeWide(sid, b) + (EncodeWide(count, c) + more)))
            == if more == [] then Some((tick, sid, count)) else None
  {
    var first, second, third := EncodeWide(tick, a), EncodeWide(sid, b), EncodeWide(count, c);
    WideRoundTrip(tick, a, second + (third + more));
    WideRoundTrip(sid, b, third + more);
    WideRoundTrip(count, c, more);
    ThreeNumbers(first + (second + (third + more)), tick, second + (third + more), sid, third + more, count, more);
  }

  // ------------------------------------------------------- the two decoders agree

  /** Both decoders accept the same strings and consume the same bytes (their contracts
      name the same grammar); the values agree exactly when the number is a double, which
      is every number below 2^53. */
  lemma DecodersAgree(s: Bytes)
    requires DecodeNatural(s).Some?
    ensures var v := DecodeNatural(s).value.0;
            (D.Round(v) == v <==> v % D.Ulp(v) == 0) && (v < D.EXACT ==> D.Round(v) == v)
    ensures var v := DecodeNatural(s).value.0;
            D.Round(v) > 32 <==> v > 32
  {
    var v := DecodeNatural(s).value.0;
    AcceptedIsWide(s);
    var k := Width(s[0]);
    D.Representable(v);
    WideBound(k);
    if v < D.EXACT {
      D.SmallIsExact(v);
    } else {
      D.RoundedIsDouble(v);
    }
  }

  lemma WideBound(k: nat)
    requires k <= 7
    ensures Pow2(7 - k) * Pow256(k) <= 8 * D.EXACT
  {
    Powers();
    assert Pow2(0) == 1 && Pow2(1) == 2 && Pow2(2) == 4 && Pow2(3) == 8;
    assert Pow2(4) == 16 && Pow2(5) == 32 && Pow2(6) == 64 && Pow2(7) == 128;
  }

  /** Past 2^53 they can differ: 2^53 + 1 comes out of the script's decoder as 2^53. */
  lemma DecodersDifferBeyondDoubles()
    ensures var s := [0xfe] + LE(D.EXACT + 1, 7);
            DecodeNatural(s) == Some((D.EXACT + 1, [])) && D.Round(D.EXACT + 1) == D.EXACT
  {
    Powers();
    assert Pow2(0) == 1 && Pow2(1) == 2;
    WideRoundTrip(D.EXACT + 1, 7, []);
    assert [0xfe] + LE(D.EXACT + 1, 7) == EncodeWide(D.EXACT + 1, 7) + [];
    D.Spacing(D.EXACT + 1);
  }
}
