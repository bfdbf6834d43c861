/** Magnitudes of reals, as `abs` on doubles is used by the pivot search and
    by the PageRank difference. */
module Arith {

  function Abs(x: real): (r: real)
    ensures r >= 0.0 && (r == x || r == -x)
  {
    if x < 0.0 then -x else x
  }

  /** Scaling both sides of x <= y by the same natural number. */
  lemma ScaleMonotone(x: nat, y: nat, c: nat)
    requires x <= y
    ensures x * c <= y * c
  {
    assert y * c == x * c + (y - x) * c;
  }

  /** Euclidean division of a natural number: quotient times divisor plus remainder. */
  lemma DivisionIdentity(m: nat, d: nat)
    requires 0 < d
    ensures m == d * (m / d) + m % d && 0 <= m % d < d && d * (m / d) <= m
  {
  }
}
