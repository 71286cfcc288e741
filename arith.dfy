/** Facts about multiplication and Euclidean `%` and `/` that the cursor
    arithmetic needs, proved from the division identity only. */
module Arith {

  /** Multiplying by a positive factor keeps the order. */
  lemma {:induction false} MulMonotone(a: int, b: int, g: int)
    requires a <= b && 0 < g
    ensures a * g <= b * g
    decreases b - a
  {
    if a < b {
      MulMonotone(a, b - 1, g);
      assert (b - 1) * g + g == b * g;
    }
  }

  /** `x % m` and `x / m` are the unique remainder and quotient. */
  lemma DivModUnique(x: int, m: int, q: int, r: int)
    requires 0 < m && 0 <= r < m && x == m * q + r
    ensures x / m == q && x % m == r
  {
    var q0, r0 := x / m, x % m;
    assert x == m * q0 + r0 && 0 <= r0 < m;
    if q0 < q {
      assert m * q0 + m == (q0 + 1) * m;
      MulMonotone(q0 + 1, q, m);
    } else if q < q0 {
      assert m * q + m == (q + 1) * m;
      MulMonotone(q + 1, q0, m);
    }
  }
}
