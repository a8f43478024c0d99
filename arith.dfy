/** Two facts of integer arithmetic the geometry and the progress figures rely on. */
module Arith {

  /** Multiplying by a non-negative factor keeps the order. */
  lemma MulMonotone(a: int, b: int, d: int)
    requires d >= 0
    ensures a <= b ==> a * d <= b * d
  {
    assert b * d - a * d == (b - a) * d;
  }

  /** Euclidean division by a positive divisor characterised by its bracket. */
  lemma DivBracket(a: int, d: int, q: int)
    requires d > 0
    ensures a / d == q <==> q * d <= a < q * d + d
  {
    var k := a / d;
    assert a == k * d + a % d;
    MulMonotone(k + 1, q, d);
    MulMonotone(q + 1, k, d);
  }
}
