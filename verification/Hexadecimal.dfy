// Bytes as lower-case hexadecimal text.
module Hexadecimal {
  import opened Bytes

  function HexDigit(n: nat): (r: Byte)
    requires n < 16
    ensures HexChar(r)
  {
    if n < 10 then 48 + n else 87 + n
  }

  function Hex(s: Bytes): (r: Bytes)
    ensures |r| == 2 * |s|
  {
    if s == [] then [] else Hex(s[..|s| - 1]) + [HexDigit(s[|s| - 1] / 16), HexDigit(s[|s| - 1] % 16)]
  }

  predicate HexChar(b: Byte) {
    48 <= b <= 57 || 97 <= b <= 102
  }

  /** Hexadecimal text holds no other character. */
  lemma {:induction false} HexLacks(s: Bytes, c: Byte)
    requires !HexChar(c)
    ensures c !in Hex(s)
  {
    if s != [] {
      HexLacks(s[..|s| - 1], c);
    }
  }

  /** Digits and lower-case letters; each byte's high half comes first. */
  lemma {:induction false} HexSpelled(s: Bytes, i: nat)
    requires i < |s|
    ensures Hex(s)[2 * i] == Spelled(s[i] / 16) && Hex(s)[2 * i + 1] == Spelled(s[i] % 16)
  {
    if i < |s| - 1 {
      HexSpelled(s[..|s| - 1], i);
    }
  }

  function Spelled(n: nat): int
    requires n < 16
  {
    if n < 10 then '0' as int + n else 'a' as int + n - 10
  }
}
