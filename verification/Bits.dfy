// Bitwise operators on naturals, digit by digit, and what they are in arithmetic.
module Bits {

  function Pow2(k: nat): (r: nat)
    ensures r > 0
  {
    if k == 0 then 1 else 2 * Pow2(k - 1)
  }

  function And(a: nat, b: nat): nat {
    if a == 0 || b == 0 then 0
    else (if a % 2 == 1 && b % 2 == 1 then 1 else 0) + 2 * And(a / 2, b / 2)
  }

  function Or(a: nat, b: nat): nat {
    if a == 0 && b == 0 then 0
    else (if a % 2 == 1 || b % 2 == 1 then 1 else 0) + 2 * Or(a / 2, b / 2)
  }

  function Shl(a: nat, k: nat): nat {
    a * Pow2(k)
  }

  function Shr(a: nat, k: nat): nat {
    if k == 0 then a else Shr(a / 2, k - 1)
  }

  lemma Multiple(d: int, m: int)
    requires m > 0
    ensures d > 0 ==> d * m >= m
    ensures d < 0 ==> d * m <= -m
  {
  }

  lemma Quotient(a: nat, m: nat, q: nat, r: nat)
    requires m > 0 && r < m && a == q * m + r
    ensures a / m == q && a % m == r
  {
    var d := a / m - q;
    assert a == a / m * m + a % m;
    assert d * m == r - a % m;
    Multiple(d, m);
  }

  lemma QuotientBound(a: nat, m: nat, bound: nat)
    requires m > 0 && a < bound * m
    ensures 0 <= a / m < bound
  {
    var q := a / m;
    assert a == q * m + a % m;
    assert (bound - q) * m == bound * m - q * m;
    Multiple(bound - q, m);
  }

  /** Halving commutes with taking the low part and the high part. */
  lemma HalfStep(a: nat, m: nat)
    requires m > 0
    ensures a % (2 * m) == a % 2 + 2 * (a / 2 % m)
    ensures a / (2 * m) == a / 2 / m
  {
    var h := a / 2;
    assert h == h / m * m + h % m;
    assert a == h / m * (2 * m) + (a % 2 + 2 * (h % m));
    Quotient(a, 2 * m, h / m, a % 2 + 2 * (h % m));
  }

  lemma {:induction false} AndMask(a: nat, k: nat)
    ensures And(a, Pow2(k) - 1) == a % Pow2(k)
  {
    if k == 0 {
      assert Pow2(k) == 1;
    } else {
      MaskStep(a, Pow2(k - 1));
      HalfStep(a, Pow2(k - 1));
      AndMask(a / 2, k - 1);
    }
  }

  /** The mask of the digits below 2m is odd, and half of it masks the digits below m. */
  lemma MaskStep(a: nat, m: nat)
    requires m > 0
    ensures And(a, 2 * m - 1) == a % 2 + 2 * And(a / 2, m - 1)
  {
    assert (2 * m - 1) % 2 == 1 && (2 * m - 1) / 2 == m - 1;
    if a == 0 {
      assert And(0, 2 * m - 1) == 0 && And(0, m - 1) == 0;
    }
  }

  lemma {:induction false} ShrIsDiv(a: nat, k: nat)
    ensures Shr(a, k) == a / Pow2(k)
  {
    if k > 0 {
      HalfStep(a, Pow2(k - 1));
      ShrIsDiv(a / 2, k - 1);
    }
  }

  lemma {:induction false} AndZero(a: nat)
    ensures And(a, 0) == 0 && And(0, a) == 0
  {
  }

  /** Masking with a power of two tests one digit. */
  lemma {:induction false} AndBit(a: nat, k: nat)
    ensures And(a, Pow2(k)) == (if Shr(a, k) % 2 == 1 then Pow2(k) else 0)
  {
    AndZero(a / 2);
    if k > 0 {
      assert Pow2(k) / 2 == Pow2(k - 1) && Pow2(k) % 2 == 0;
      AndBit(a / 2, k - 1);
    }
  }

  lemma {:induction false} OrZero(a: nat)
    ensures Or(a, 0) == a && Or(0, a) == a
  {
    if a > 0 {
      OrZero(a / 2);
    }
  }

  /** Where the two operands have no digit in common, or is plus. */
  lemma {:induction false} OrDisjoint(low: nat, high: nat, k: nat)
    requires low < Pow2(k)
    ensures Or(low, high * Pow2(k)) == low + high * Pow2(k)
    ensures Or(high * Pow2(k), low) == low + high * Pow2(k)
  {
    if k == 0 {
      OrZero(high);
    } else {
      var shifted := high * Pow2(k);
      assert shifted == 2 * (high * Pow2(k - 1));
      OrDisjoint(low / 2, high, k - 1);
    }
  }

  lemma {:induction false} Pow2Add(j: nat, k: nat)
    ensures Pow2(j + k) == Pow2(j) * Pow2(k)
  {
    if j > 0 {
      Pow2Add(j - 1, k);
    }
  }
}
