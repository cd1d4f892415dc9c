/** Two facts about multiplication by a non-negative factor, shared by the index arithmetic. */
module Arith {
  /** A positive factor can be cancelled from a strict inequality. */
  lemma MulCancel(a: int, b: int, n: int)
    requires n > 0
    ensures a * n < b * n ==> a < b
  {
    if a >= b {
      assert a * n - b * n == (a - b) * n;
    }
  }

  /** Multiplying by a natural number keeps the order of naturals. */
  lemma MulMono(a: nat, b: nat, c: nat)
    requires a <= b
    ensures a * c <= b * c
  {
  }
}
