// base64_decode, against the standard padded encoding of section 4 of RFC 4648.
module Base64 {
  import opened Bits
  import opened Bytes

  const PAD: Byte := 61

  /** The 64 characters, in order. */
  function Char(d: nat): (r: Byte)
    requires d < 64
  {
    if d < 26 then 65 + d else if d < 52 then 71 + d else if d < 62 then d - 4 else if d == 62 then 43 else 47
  }

  /** The value of a character. */
  function Sextet(c: Byte): (r: Option<nat>)
    ensures r.Some? ==> r.value < 64 && Char(r.value) == c
  {
    if 65 <= c <= 90 then Some(c - 65) else if 97 <= c <= 122 then Some(c - 71)
    else if 48 <= c <= 57 then Some(c + 4) else if c == 43 then Some(62) else if c == 47 then Some(63)
    else None
  }

  /** Upper case, lower case, digits, plus and slash; padded with equals signs. */
  lemma AlphabetSpelled(d: nat)
    requires d < 64
    ensures Char(d) == if d < 26 then 'A' as int + d
                       else if d < 52 then 'a' as int + d - 26
                       else if d < 62 then '0' as int + d - 52
                       else if d == 62 then '+' as int else '/' as int
    ensures PAD == '=' as int
  {
  }

  lemma CharSextet(d: nat)
    requires d < 64
    ensures Sextet(Char(d)) == Some(d) && Char(d) != PAD && Char(d) != 0
  {
  }

  /** jam_strchr over the alphabet. */
  method FindChar(c: Byte) returns (r: Option<nat>)
    ensures r == Sextet(c)
  {
    ghost var known := Sextet(c);
    assert known.Some? ==> Char(known.value) == c;
    var d := 0;
    while d < 64 && Char(d) != c
      invariant 0 <= d <= 64
      invariant forall e :: 0 <= e < d ==> Char(e) != c
    {
      d := d + 1;
    }
    if d < 64 {
      CharSextet(d);
      return Some(d);
    }
    return None;
  }

  // ------------------------------------------------------------------- encoding

  function Group(a: Byte, b: Byte, c: Byte): Bytes {
    [Char(a / 4), Char(a % 4 * 16 + b / 16), Char(b % 16 * 4 + c / 64), Char(c % 64)]
  }

  /** The standard encoding, padded to a multiple of four characters. */
  function Encode(s: Bytes): Bytes {
    if s == [] then []
    else if |s| == 1 then Group(s[0], 0, 0)[..2] + [PAD, PAD]
    else if |s| == 2 then Group(s[0], s[1], 0)[..3] + [PAD]
    else Group(s[0], s[1], s[2]) + Encode(s[3..])
  }

  // ------------------------------------------------------------------- decoding

  /** What is carried between characters: fewer than eight bits, and nothing above them. */
  ghost predicate Carried(value: nat, bits: nat) {
    bits <= 6 && bits % 2 == 0 && value < Pow2(bits)
  }

  lemma CarryOn(value: nat, bits: nat, d: nat)
    requires Carried(value, bits) && d < 64
    ensures bits == 0 ==> value * 64 + d < Pow2(6)
    ensures bits >= 2 ==> (value * 64 + d) / Pow2(bits - 2) < 256
                          && Carried((value * 64 + d) % Pow2(bits - 2), bits - 2)
  {
    assert Pow2(0) == 1 && Pow2(2) == 4 && Pow2(4) == 16;
    assert Pow2(6) == 4 * Pow2(4);
  }

  /** What is carried and written between two characters. */
  datatype Carry = Carry(value: nat, bits: nat, done: Bytes)

  /** Six more bits; None when a byte is due and the buffer is full. */
  function Put(value: nat, bits: nat, d: nat, done: Bytes, capacity: nat): (r: Option<Carry>)
    requires Carried(value, bits) && d < 64
    ensures r.Some? ==> Carried(r.value.value, r.value.bits)
  {
    CarryOn(value, bits, d);
    if bits == 0 then Some(Carry(value * 64 + d, 6, done))
    else if |done| >= capacity then None
    else
      var byte: Byte := (value * 64 + d) / Pow2(bits - 2);
      Some(Carry((value * 64 + d) % Pow2(bits - 2), bits - 2, done + [byte]))
  }

  /** The decoder from the state between two characters; None is its failure. */
  function Decode(s: Bytes, value: nat, bits: nat, done: Bytes, capacity: nat): Option<Bytes>
    requires Carried(value, bits)
    decreases |s|
  {
    if s == [] || s[0] == PAD then Some(done)
    else if Sextet(s[0]).None? then None
    else
      match Put(value, bits, Sextet(s[0]).value, done, capacity)
      case None => None
      case Some(c) => Decode(s[1..], c.value, c.bits, c.done, capacity)
  }

  /** Six more bits, and a byte written once there are eight. */
  method Advance(output: array<Byte>, written: nat, value: nat, bits: nat, d: nat)
    returns (w: nat, v: nat, b: nat)
    requires Carried(value, bits) && d < 64 && written <= output.Length
    requires bits >= 2 ==> written < output.Length
    modifies output
    ensures w <= output.Length && Carried(v, b)
    ensures bits == 0 ==> output[..w] == old(output[..written]) && v == value * 64 + d && b == 6
    ensures bits >= 2 ==> b == bits - 2 && v == (value * 64 + d) % Pow2(bits - 2)
                          && (value * 64 + d) / Pow2(bits - 2) < 256
                          && output[..w] == old(output[..written]) + [(value * 64 + d) / Pow2(bits - 2)]
  {
    CarryOn(value, bits, d);
    w, v, b := written, value * 64 + d, bits + 6;
    if b >= 8 {
      b := b - 8;
      w := WriteByte(output, w, v / Pow2(b));
      v := v % Pow2(b);
    }
  }

  method WriteByte(output: array<Byte>, written: nat, b: Byte) returns (r: nat)
    requires written < output.Length
    modifies output
    ensures r == written + 1 && output[..r] == old(output[..written]) + [b]
  {
    output[written] := b;
    r := written + 1;
  }

  /** base64_decode: the number of bytes written, zero on failure. */
  method Base64Decode(input: Bytes, output: array<Byte>) returns (written: nat)
    requires 0 !in input
    modifies output
    ensures written <= output.Length
    ensures var r := Decode(input, 0, 0, [], output.Length);
            if r.None? then written == 0 else output[..written] == r.value
  {
    var length := |input|;
    written := 0;
    var value: nat := 0;
    var bits: nat := 0;
    var i := 0;
    assert input[0..] == input;
    while i < length
      invariant 0 <= i <= length && written <= output.Length && Carried(value, bits)
      invariant Decode(input[i..], value, bits, output[..written], output.Length)
             == Decode(input, 0, 0, [], output.Length)
    {
      assert input[i..][0] == input[i] && input[i..][1..] == input[i + 1..];
      if input[i] == PAD { break; }
      var found := FindChar(input[i]);
      if found.None? { return 0; }
      CarryOn(value, bits, found.value);
      DecodeStep(input[i..], found.value, value, bits, output[..written], output.Length);
      if bits >= 2 && written >= output.Length { return 0; }
      written, value, bits := Advance(output, written, value, bits, found.value);
      i := i + 1;
    }
    DecodeEnd(input[i..], value, bits, output[..written], output.Length);
  }

  lemma DecodeStep(s: Bytes, d: nat, value: nat, bits: nat, done: Bytes, capacity: nat)
    requires s != [] && s[0] != PAD && Sextet(s[0]) == Some(d) && Carried(value, bits)
    requires bits >= 2 ==> Carried((value * 64 + d) % Pow2(bits - 2), bits - 2)
    requires bits >= 2 ==> (value * 64 + d) / Pow2(bits - 2) < 256
    requires bits == 0 ==> Carried(value * 64 + d, 6)
    ensures Decode(s, value, bits, done, capacity)
            == if bits == 0 then Decode(s[1..], value * 64 + d, 6, done, capacity)
               else if |done| >= capacity then None
               else Decode(s[1..], (value * 64 + d) % Pow2(bits - 2), bits - 2,
                           done + [(value * 64 + d) / Pow2(bits - 2)], capacity)
  {
  }

  lemma DecodeEnd(s: Bytes, value: nat, bits: nat, done: Bytes, capacity: nat)
    requires s == [] || s[0] == PAD
    requires Carried(value, bits)
    ensures Decode(s, value, bits, done, capacity) == Some(done)
  {
  }

  // ----------------------------------------------------------------- round trip

  lemma FirstCarry(a: Byte, b: Byte)
    ensures (a / 4 * 64 + (a % 4 * 16 + b / 16)) / 16 == a
    ensures (a / 4 * 64 + (a % 4 * 16 + b / 16)) % 16 == b / 16
  {
    assert a / 4 * 64 + (a % 4 * 16 + b / 16) == 16 * a + b / 16;
  }

  lemma SecondCarry(b: Byte, c: Byte)
    ensures (b / 16 * 64 + (b % 16 * 4 + c / 64)) / 4 == b
    ensures (b / 16 * 64 + (b % 16 * 4 + c / 64)) % 4 == c / 64
  {
    assert b / 16 * 64 + (b % 16 * 4 + c / 64) == 4 * b + c / 64;
  }

  lemma ThirdCarry(c: Byte)
    ensures (c / 64 * 64 + c % 64) / 1 == c && (c / 64 * 64 + c % 64) % 1 == 0
  {
  }

  lemma DecodeOne(s: Bytes, d: nat, value: nat, bits: nat, done: Bytes, capacity: nat)
    requires d < 64 && Carried(value, bits)
    requires bits >= 2 ==> Carried((value * 64 + d) % Pow2(bits - 2), bits - 2)
    requires bits >= 2 ==> (value * 64 + d) / Pow2(bits - 2) < 256
    requires bits == 0 ==> Carried(value * 64 + d, 6)
    ensures Decode([Char(d)] + s, value, bits, done, capacity)
            == if bits == 0 then Decode(s, value * 64 + d, 6, done, capacity)
               else if |done| >= capacity then None
               else Decode(s, (value * 64 + d) % Pow2(bits - 2), bits - 2,
                           done + [(value * 64 + d) / Pow2(bits - 2)], capacity)
  {
    CharSextet(d);
    assert ([Char(d)] + s)[1..] == s;
    DecodeStep([Char(d)] + s, d, value, bits, done, capacity);
  }

  lemma FirstTwo(a: Byte, b: Byte, rest: Bytes, done: Bytes, capacity: nat)
    ensures b / 16 < Pow2(4)
    ensures Decode([Char(a / 4)] + ([Char(a % 4 * 16 + b / 16)] + rest), 0, 0, done, capacity)
            == if |done| >= capacity then None else Decode(rest, b / 16, 4, done + [a], capacity)
  {
    assert Pow2(2) == 4 && Pow2(4) == 16;
    assert Pow2(6) == 4 * Pow2(4);
    FirstCarry(a, b);
    DecodeOne([Char(a % 4 * 16 + b / 16)] + rest, a / 4, 0, 0, done, capacity);
    DecodeOne(rest, a % 4 * 16 + b / 16, a / 4, 6, done, capacity);
  }

  lemma Third(b: Byte, c: Byte, rest: Bytes, done: Bytes, capacity: nat)
    ensures b / 16 < Pow2(4) && c / 64 < Pow2(2)
    ensures Decode([Char(b % 16 * 4 + c / 64)] + rest, b / 16, 4, done, capacity)
            == if |done| >= capacity then None else Decode(rest, c / 64, 2, done + [b], capacity)
  {
    assert Pow2(2) == 4 && Pow2(4) == 16;
    SecondCarry(b, c);
    DecodeOne(rest, b % 16 * 4 + c / 64, b / 16, 4, done, capacity);
  }

  lemma Fourth(c: Byte, rest: Bytes, done: Bytes, capacity: nat)
    ensures c / 64 < Pow2(2)
    ensures Decode([Char(c % 64)] + rest, c / 64, 2, done, capacity)
            == if |done| >= capacity then None else Decode(rest, 0, 0, done + [c], capacity)
  {
    assert Pow2(0) == 1 && Pow2(2) == 4;
    ThirdCarry(c);
    DecodeOne(rest, c % 64, c / 64, 2, done, capacity);
  }

  /** Decoding an encoding gives the bytes back exactly when they fit, and fails otherwise. */
  lemma {:induction false} DecodeOfEncode(s: Bytes, done: Bytes, capacity: nat)
    requires |done| <= capacity
    ensures Decode(Encode(s), 0, 0, done, capacity)
            == if |done| + |s| <= capacity then Some(done + s) else None
    decreases |s|
  {
    if s == [] {
      assert done + s == done;
    } else if |s| == 1 {
      DecodeLastOne(s, done, capacity);
    } else if |s| == 2 {
      DecodeLastTwo(s, done, capacity);
    } else {
      DecodeGroup(s, done, capacity);
      assert done + s == done + s[..3] + s[3..] && |s[3..]| == |s| - 3;
      if |done| + 3 <= capacity {
        DecodeOfEncode(s[3..], done + s[..3], capacity);
      }
    }
  }

  lemma DecodeLastOne(s: Bytes, done: Bytes, capacity: nat)
    requires |s| == 1 && |done| <= capacity
    ensures Decode(Encode(s), 0, 0, done, capacity) == if |done| + 1 <= capacity then Some(done + s) else None
  {
    var rest := [PAD, PAD];
    FirstTwo(s[0], 0, rest, done, capacity);
    assert Encode(s) == [Char(s[0] / 4)] + ([Char(s[0] % 4 * 16 + 0 / 16)] + rest);
    assert done + s == done + [s[0]];
  }

  lemma DecodeLastTwo(s: Bytes, done: Bytes, capacity: nat)
    requires |s| == 2 && |done| <= capacity
    ensures Decode(Encode(s), 0, 0, done, capacity) == if |done| + 2 <= capacity then Some(done + s) else None
  {
    var rest := [PAD];
    var more := [Char(s[1] % 16 * 4 + 0 / 64)] + rest;
    FirstTwo(s[0], s[1], more, done, capacity);
    assert Encode(s) == [Char(s[0] / 4)] + ([Char(s[0] % 4 * 16 + s[1] / 16)] + more);
    Third(s[1], 0, rest, done + [s[0]], capacity);
    assert done + s == done + [s[0]] + [s[1]];
  }

  lemma DecodeGroup(s: Bytes, done: Bytes, capacity: nat)
    requires |s| >= 3 && |done| <= capacity
    ensures Decode(Encode(s), 0, 0, done, capacity)
            == if |done| + 3 <= capacity then Decode(Encode(s[3..]), 0, 0, done + s[..3], capacity) else None
  {
    var rest := Encode(s[3..]);
    var last := [Char(s[2] % 64)] + rest;
    var more := [Char(s[1] % 16 * 4 + s[2] / 64)] + last;
    assert Encode(s) == [Char(s[0] / 4)] + ([Char(s[0] % 4 * 16 + s[1] / 16)] + more);
    FirstTwo(s[0], s[1], more, done, capacity);
    Third(s[1], s[2], last, done + [s[0]], capacity);
    Fourth(s[2], rest, done + [s[0]] + [s[1]], capacity);
    assert done + s[..3] == done + [s[0]] + [s[1]] + [s[2]];
  }

  // ------------------------------------------------------------- what is accepted

  /** The characters before the first padding character. */
  function Body(s: Bytes): Bytes {
    if s == [] || s[0] == PAD then [] else [s[0]] + Body(s[1..])
  }

  ghost predicate AllSextets(s: Bytes) {
    forall i :: 0 <= i < |s| ==> Sextet(s[i]).Some?
  }

  lemma FirstSextet(c: Byte, rest: Bytes)
    ensures AllSextets([c] + rest) <==> Sextet(c).Some? && AllSextets(rest)
  {
    var all := [c] + rest;
    assert forall i :: 0 <= i < |rest| ==> all[i + 1] == rest[i];
    if AllSextets(all) {
      assert Sextet(all[0]).Some?;
      forall i | 0 <= i < |rest| ensures Sextet(rest[i]).Some? {
        assert Sextet(all[i + 1]).Some?;
      }
    }
  }

  lemma PutSize(value: nat, bits: nat, d: nat, done: Bytes, capacity: nat, n: nat)
    requires Carried(value, bits) && d < 64 && |done| <= capacity
    ensures var r, size := Put(value, bits, d, done, capacity), |done| + (bits + 6 * (1 + n)) / 8;
            match r
            case None => size > capacity
            case Some(c) => |c.done| <= capacity && |c.done| + (c.bits + 6 * n) / 8 == size
  {
    CarryOn(value, bits, d);
    if bits > 0 {
      assert (bits + 6 * (1 + n)) / 8 == 1 + (bits - 2 + 6 * n) / 8;
    }
  }

  /** The decoder accepts exactly the texts whose characters before the padding are all in
      the alphabet and whose whole bytes fit, and writes six bits a character, rounded down. */
  lemma {:induction false} AcceptedExactly(s: Bytes, value: nat, bits: nat, done: Bytes, capacity: nat)
    requires Carried(value, bits) && |done| <= capacity
    ensures var r, size := Decode(s, value, bits, done, capacity), |done| + (bits + 6 * |Body(s)|) / 8;
            (r.Some? <==> AllSextets(Body(s)) && size <= capacity) && (r.Some? ==> |r.value| == size)
    decreases |s|
  {
    if s != [] && s[0] != PAD {
      var rest := Body(s[1..]);
      FirstSextet(s[0], rest);
      if Sextet(s[0]).Some? {
        var d := Sextet(s[0]).value;
        PutSize(value, bits, d, done, capacity, |rest|);
        var next := Put(value, bits, d, done, capacity);
        if next.Some? {
          AcceptedExactly(s[1..], next.value.value, next.value.bits, next.value.done, capacity);
        }
      }
    }
  }
}
