/** Facts about Euclidean division shared by the countdown and the carousel. */
module Arith {

  lemma MulMonotone(x: int, y: int, a: int)
    requires a > 0
    ensures x >= y ==> x * a >= y * a
  {
  }

  /** Euclidean division is unique: a quotient and remainder in range are the ones. */
  lemma DivModUnique(x: int, m: int, q: int, r: int)
    requires m > 0 && 0 <= r < m && x == q * m + r
    ensures x / m == q && x % m == r
  {
    var k := q - x / m;
    assert k * m == x % m - r;
    MulMonotone(k, 1, m);
    MulMonotone(-1, k, m);
  }
}
