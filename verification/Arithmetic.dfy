/** Division by a number that is not a literal. */
module Arithmetic {

  lemma Quotient(x: nat, n: nat, q: int, r: nat)
    requires n > 0 && r < n && x == n * q + r
    ensures x / n == q && x % n == r
  {
    var d := q - x / n;
    assert n * d == x % n - r;
    assert d <= 0 || n * d >= n;
    assert d >= 0 || n * d + n <= 0;
  }
}
