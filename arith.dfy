/** Facts about integer division and remainder used by the grid and the cyclic index. */
module Arith {

  /** Division with remainder has one answer: a quotient and remainder that rebuild n are n's. */
  lemma DivModUnique(n: nat, count: nat, q: nat, r: nat)
    requires count > 0 && r < count && q * count + r == n
    ensures n / count == q && n % count == r
  {
    var q0, r0 := n / count, n % count;
    if q0 < q {
      MulMonotone(q0 + 1, q, count);
      assert false;
    } else if q < q0 {
      MulMonotone(q + 1, q0, count);
      assert false;
    }
  }

  lemma MulMonotone(a: int, b: int, c: nat)
    requires a <= b
    ensures a * c <= b * c
  {
  }
}
