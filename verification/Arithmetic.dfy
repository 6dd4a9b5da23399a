/** Quotients and remainders of blocks inside blocks. */
module Arithmetic {

  lemma NonNegative(a: nat, b: nat)
    ensures a * b >= 0
  {
  }

  /** A quotient and remainder are determined by the equation they satisfy. */
  lemma Division(x: nat, d: nat, q: int, r: nat)
    requires r < d && x == d * q + r
    ensures x / d == q && x % d == r
  {
    if q > x / d { NonNegative(d, q - x / d - 1); } else if q < x / d { NonNegative(d, x / d - q - 1); }
  }

  lemma Distribute(n: nat, k: nat, p: nat, j: nat)
    ensures n * (k * p + j) == n * k * p + n * j
  {
  }

  /** Address `size * p + n * j + o`, where a page of `size` bytes is `k` blocks of `n` bytes. */
  lemma BlockOfPage(a: nat, n: nat, k: nat, size: nat, p: nat, j: nat, o: nat)
    requires size == n * k && o < n && n * j + o < size
    requires a == size * p + n * j + o
    ensures a / size == p && a % size == n * j + o
    ensures a % n == o
    ensures (a - o) / size == p && (a - o) % size == n * j
    ensures (a - o) % n == 0
    ensures (n * j + o) % n == o
  {
    Distribute(n, k, p, j);
    Division(a, size, p, n * j + o);
    Division(a, n, k * p + j, o);
    Division(a - o, size, p, n * j);
    Division(a - o, n, k * p + j, 0);
    Division(n * j + o, n, j, o);
  }
}
