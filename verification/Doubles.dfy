// Rounding of natural numbers to JavaScript's doubles: 53 significant bits, ties to even.
module Doubles {

  const EXACT := 0x20_0000_0000_0000 // 2^53

  /** The spacing of doubles around `x`. */
  function Ulp(x: nat): (r: nat)
    ensures r > 0
  {
    if x < EXACT then 1 else 2 * Ulp(x / 2)
  }

  /** The multiple of `u` nearest to `x`. */
  function Nearest(x: nat, u: nat): nat
    requires u > 0
  {
    var r := x % u;
    if 2 * r < u || (2 * r == u && x / u % 2 == 0) then x - r else x - r + u
  }

  function Round(x: nat): nat {
    Nearest(x, Ulp(x))
  }

  /** A number is a double exactly when it is a multiple of the spacing around it. */
  lemma Representable(x: nat)
    ensures Round(x) == x <==> x % Ulp(x) == 0
  {
    assert 0 <= x % Ulp(x) < Ulp(x);
  }

  lemma SmallIsExact(x: nat)
    requires x < EXACT
    ensures Round(x) == x
  {
    Representable(x);
  }

  lemma Spacing(x: nat)
    requires x < 16 * EXACT
    ensures Ulp(x) == if x < EXACT then 1 else if x < 2 * EXACT then 2
                      else if x < 4 * EXACT then 4 else if x < 8 * EXACT then 8 else 16
  {
    assert Ulp(x / 16) == 1;
    assert x / 2 / 2 == x / 4 && x / 4 / 2 == x / 8 && x / 8 / 2 == x / 16;
    assert x / 8 < EXACT <==> x < 8 * EXACT;
    assert x / 4 < EXACT <==> x < 4 * EXACT;
  }

  lemma NearestInBinade(x: nat, u: nat)
    requires u == 2 || u == 4 || u == 8
    requires EXACT / 2 * u <= x < EXACT * u
    ensures EXACT / 2 * u <= Nearest(x, u) <= EXACT * u
    ensures Nearest(x, u) % u == 0
  {
    if u == 2 {
      NearestEven(x);
    } else if u == 4 {
      NearestFourth(x);
    } else {
      NearestEighth(x);
    }
  }

  lemma NearestEven(x: nat)
    requires EXACT <= x < 2 * EXACT
    ensures EXACT <= Nearest(x, 2) <= 2 * EXACT && Nearest(x, 2) % 2 == 0
  {
    NearestIsMultiple(x, 2);
  }

  lemma NearestFourth(x: nat)
    requires 2 * EXACT <= x < 4 * EXACT
    ensures 2 * EXACT <= Nearest(x, 4) <= 4 * EXACT && Nearest(x, 4) % 4 == 0
  {
    NearestIsMultiple(x, 4);
  }

  lemma NearestEighth(x: nat)
    requires 4 * EXACT <= x < 8 * EXACT
    ensures 4 * EXACT <= Nearest(x, 8) <= 8 * EXACT && Nearest(x, 8) % 8 == 0
  {
    NearestIsMultiple(x, 8);
  }

  lemma NearestIsMultiple(x: nat, u: nat)
    requires u > 0
    ensures Nearest(x, u) == x / u * u || Nearest(x, u) == (x / u + 1) * u
  {
    assert x == x / u * u + x % u;
    assert (x / u + 1) * u == x / u * u + u;
  }

  function Distance(a: nat, b: nat): nat {
    if a < b then b - a else a - b
  }

  lemma {:induction false} Apart(a: nat, b: nat, u: nat)
    requires a < b
    ensures b * u >= a * u + u
  {
    assert b * u == (b - 1) * u + u;
    if b > a + 1 {
      Apart(a, b - 1, u);
    }
  }

  /** Of the multiples around `x`, seen from the one below it. */
  lemma NoneNearer(x: nat, u: nat, q: nat, p: nat, other: nat)
    requires p <= x < p + u && (other + u <= p || other == p || other >= p + u)
    ensures var n := if 2 * (x - p) < u || (2 * (x - p) == u && q % 2 == 0) then p else p + u;
            Distance(n, x) <= Distance(other, x)
            && (Distance(n, x) == Distance(other, x) && other != n ==> (if n == p then q else q + 1) % 2 == 0)
  {
  }

  lemma Below(x: nat, u: nat) returns (q: nat, p: nat)
    requires u > 0
    ensures q == x / u && p == q * u && p + x % u == x && (q + 1) * u == p + u
  {
    q := x / u;
    p := q * u;
    NearestIsMultiple(x, u);
  }

  lemma Beside(k: nat, q: nat, u: nat, p: nat)
    requires p == q * u
    ensures k * u + u <= p || k * u == p || k * u >= p + u
  {
    if k < q { Apart(k, q, u); } else if k > q { Apart(q, k, u); }
  }

  lemma NearestTaken(x: nat, u: nat, q: nat, p: nat)
    requires u > 0 && q == x / u && p + x % u == x
    ensures Nearest(x, u) == if 2 * (x - p) < u || (2 * (x - p) == u && q % 2 == 0) then p else p + u
  {
  }

  /** No multiple is nearer, and of two as near the even one is taken. */
  lemma NearestSpelled(x: nat, u: nat, k: nat) returns (m: nat)
    requires u > 0
    ensures Nearest(x, u) == m * u && Distance(Nearest(x, u), x) <= Distance(k * u, x)
    ensures Distance(Nearest(x, u), x) == Distance(k * u, x) && k * u != Nearest(x, u) ==> m % 2 == 0
  {
    var q, p := Below(x, u);
    Beside(k, q, u, p);
    NearestTaken(x, u, q, p);
    NoneNearer(x, u, q, p, k * u);
    m := if Nearest(x, u) == p then q else q + 1;
  }

  /** Below 2^56 a rounded number is a double, and stays on its side of 2^53. */
  lemma RoundedIsDouble(x: nat)
    requires x < 8 * EXACT
    ensures Round(Round(x)) == Round(x)
    ensures x >= EXACT ==> Round(x) >= EXACT
  {
    Spacing(x);
    if x < EXACT {
      SmallIsExact(x);
    } else {
      NearestInBinade(x, Ulp(x));
      Spacing(Round(x));
      Representable(Round(x));
    }
  }
}
