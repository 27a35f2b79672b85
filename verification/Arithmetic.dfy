/** Multiples of a natural number, quotients and remainders. */
module Arithmetic {

  lemma AtLeast(m: nat, d: int)
    ensures d >= 1 ==> m * d >= m
    ensures d <= -1 ==> m * d + m <= 0
  {
  }

  lemma Spread(m: nat, a: int, b: int)
    ensures m * (a - b) == m * a - m * b
  {
  }

  /** There is only one way to write a number as a multiple of `m` and less than `m` more. */
  lemma QuotientAndRest(m: nat, q: nat, i: nat, x: nat)
    requires i < m && x == q * m + i
    ensures x / m == q && x % m == i
  {
    AtLeast(m, q - x / m);
    Spread(m, q, x / m);
    assert x == m * (x / m) + x % m;
  }

  lemma Scaled(a: int, b: int, m: nat)
    ensures a <= b ==> a * m <= b * m && (a - 1) * m <= (b - 1) * m
  {
  }

  lemma OneMultipleLess(i: nat, n: nat, start: nat)
    requires i > 0 && start == i * n
    ensures start >= n && start - n == (i - 1) * n
  {
  }
}
