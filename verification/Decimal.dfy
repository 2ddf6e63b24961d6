// Decimal numbers as text.
module Decimal {
  import opened Bytes

  predicate Digit(b: Byte) {
    48 <= b <= 57
  }

  ghost predicate AllDigits(s: Bytes) {
    forall i :: 0 <= i < |s| ==> Digit(s[i])
  }

  /** Without leading zeros; "0" for zero. */
  function Print(n: nat): (r: Bytes)
    ensures r != []
  {
    if n < 10 then [48 + n] else Print(n / 10) + [48 + n % 10]
  }

  /** The value of a digit string. */
  function Value(s: Bytes): int {
    if s == [] then 0 else 10 * Value(s[..|s| - 1]) + (s[|s| - 1] as int - 48)
  }

  lemma {:induction false} PrintDigits(n: nat)
    ensures AllDigits(Print(n)) && Value(Print(n)) == n
  {
    if n < 10 {
      assert Print(n)[..0] == [];
    } else {
      PrintDigits(n / 10);
      assert Print(n)[..|Print(n)| - 1] == Print(n / 10);
    }
  }

  /** A u32 takes at most ten digits. */
  lemma {:induction false} PrintLength(n: nat, digits: nat, limit: nat)
    requires digits > 0 && n < limit && limit == Power(digits)
    ensures |Print(n)| <= digits
  {
    if n >= 10 {
      assert digits > 1;
      PrintLength(n / 10, digits - 1, Power(digits - 1));
    }
  }

  function Power(k: nat): nat {
    if k == 0 then 1 else 10 * Power(k - 1)
  }
}
