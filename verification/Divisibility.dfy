/** Rounding up to a multiple, for divisors that are not constants. */
module Divisibility {

  lemma Grow(a: int, j: int, k: int)
    requires a >= 0 && j <= k
    ensures a * j <= a * k
  {
  }

  lemma Distribute(a: int, j: int, k: int)
    ensures a * (j - k) == a * j - a * k
  {
  }

  lemma DivMod(x: int, a: int)
    requires a > 0
    ensures x == a * (x / a) + x % a && 0 <= x % a < a
  {
  }

  /** The only multiple of a strictly between -a and a is 0. */
  lemma SmallMultiple(a: int, k: int)
    requires a > 0 && -a < a * k < a
    ensures k == 0
  {
    if k >= 1 {
      Grow(a, 1, k);
    } else if k <= -1 {
      Grow(a, k, -1);
    }
  }

  /** What dividing by at least 2 does to a number. */
  lemma QuotientBounds(x: int, a: int)
    requires x >= 0 && a >= 2
    ensures x >= 1 ==> x / a < x
    ensures x >= a ==> x / a >= 1
    ensures x / a >= 0
  {
    DivMod(x, a);
    var q := x / a;
    if q <= -1 {
      Grow(a, q, -1);
    } else {
      Grow(q, 2, a);
    }
    if q == 0 {
      Grow(a, 0, 0);
    }
  }

  /** Quotient and remainder are determined by their defining equation. */
  lemma DivModUnique(x: int, a: int, q: int, r: int)
    requires a > 0 && x == a * q + r && 0 <= r < a
    ensures x / a == q && x % a == r
  {
    DivMod(x, a);
    Distribute(a, x / a, q);
    SmallMultiple(a, x / a - q);
  }

  /** x rounded up to a multiple of a. For a power of two this is what the masks in
      the source compute. */
  function RoundUp(x: nat, a: nat): (r: nat)
    requires a > 0
    ensures x <= r < x + a
  {
    DivMod(a - x % a, a);
    x + (a - x % a) % a
  }

  lemma RoundUpMultiple(x: nat, a: nat)
    requires a > 0
    ensures RoundUp(x, a) % a == 0
    ensures x % a == 0 ==> RoundUp(x, a) == x
    ensures RoundUp(x, a) == a * (RoundUp(x, a) / a)
  {
    DivMod(x, a);
    var q, m := x / a, x % a;
    if m == 0 {
      DivModUnique(a, a, 1, 0);
      DivModUnique(x, a, q, 0);
    } else {
      DivModUnique(a - m, a, 0, a - m);
      Distribute(a, q, -1);
      DivModUnique(x + a - m, a, q + 1, 0);
    }
    DivMod(RoundUp(x, a), a);
  }

  lemma Associate(a: int, b: int, c: int)
    ensures a * b * c == a * (b * c)
  {
  }

  /** A multiple of a multiple of m is a multiple of m. */
  lemma MultipleOfMultiple(y: int, a: int, m: int)
    requires m > 0 && a > 0 && y % a == 0 && a % m == 0
    ensures y % m == 0
  {
    DivMod(y, a);
    DivMod(a, m);
    Associate(m, a / m, y / a);
    DivModUnique(y, m, a / m * (y / a), 0);
  }

  predicate PowerOfTwo(x: nat)
    decreases x
  {
    x == 1 || (x > 1 && x % 2 == 0 && PowerOfTwo(x / 2))
  }

  /** Adding or taking away a multiple leaves the remainder. */
  lemma ShiftByMultiple(x: int, y: int, a: int)
    requires a > 0 && x % a == 0
    ensures (x + y) % a == y % a && (y - x) % a == y % a
  {
    DivMod(x, a);
    DivMod(y, a);
    Distribute(a, y / a, x / a);
    Distribute(a, y / a, -(x / a));
    DivModUnique(x + y, a, y / a + x / a, y % a);
    DivModUnique(y - x, a, y / a - x / a, y % a);
  }
}
