/** Integer facts the solver does not find on its own. */
module Arith {

  lemma {:induction false} MulAtLeast(d: int, x: int)
    requires d > 0 && x >= 1
    ensures d * x >= d
    decreases x
  {
    if x > 1 {
      MulAtLeast(d, x - 1);
      assert d * x == d * (x - 1) + d;
    }
  }

  /** Quotient and remainder are determined by any decomposition `a == d * q + r` with
      `0 <= r < d`. */
  lemma DivModUnique(a: int, d: int, q: int, r: int)
    requires d > 0 && 0 <= r < d && a == d * q + r
    ensures a / d == q && a % d == r
  {
    var q' := a / d;
    assert a == d * q' + a % d;
    if q' > q {
      MulAtLeast(d, q' - q);
    } else if q' < q {
      MulAtLeast(d, q - q');
    }
  }
}
