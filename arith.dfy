/** Facts about natural-number division that the solver does not find unaided. */
module Arith {

  /** A quotient and remainder pair that satisfies Euclid's equation is the one `/` and `%` compute. */
  lemma DivUnique(a: nat, d: nat, q: nat, r: nat)
    requires d > 0 && a == q * d + r && r < d
    ensures a / d == q && a % d == r
  {
    var q', r' := a / d, a % d;
    assert a == q' * d + r';
    MulGap(q', q, d);
    MulGap(q, q', d);
  }

  /** Multiples of d at least one step apart differ by at least d. */
  lemma {:induction false} MulGap(a: int, b: int, d: int)
    ensures 0 <= a < b && d >= 0 ==> a * d + d <= b * d
    decreases if a < b then b - a else 0
  {
    if 0 <= a < b - 1 && d >= 0 {
      MulGap(a, b - 1, d);
      assert b * d == (b - 1) * d + d;
    }
  }

  /** Adding the divisor adds one to the quotient. */
  lemma DivAddDivisor(x: nat, d: nat)
    requires d > 0
    ensures (x + d) / d == x / d + 1
  {
    var q, r := x / d, x % d;
    assert x == q * d + r;
    assert x + d == (q + 1) * d + r;
    DivUnique(x + d, d, q + 1, r);
  }

  /** A multiple of d leaves no remainder. */
  lemma ModMultiple(k: nat, d: nat)
    requires d > 0
    ensures (k * d) % d == 0
  {
    DivUnique(k * d, d, k, 0);
  }

  /** A quotient never exceeds the dividend. */
  lemma DivAtMost(a: nat, d: nat)
    requires d > 0
    ensures a / d <= a
  {
    var q := a / d;
    assert a == q * d + a % d;
    assert q * d == q + q * (d - 1);
    MulGap(0, q, d - 1);
  }
}
