/** Facts about integer multiplication and division used by the offset computations. */
module Arithmetic {

  /** k copies of b, for k at least one, are at least b. */
  lemma {:induction false} MulAtLeast(k: nat, b: nat)
    requires 1 <= k
    ensures k * b >= b
  {
    if k > 1 {
      MulAtLeast(k - 1, b);
      assert k * b == (k - 1) * b + b;
    }
  }

  /** Quotient and remainder are unique. */
  lemma DivModUnique(x: nat, b: nat, q: nat, r: nat)
    requires 0 < b && r < b && x == q * b + r
    ensures x / b == q && x % b == r
  {
    var q0, r0 := x / b, x % b;
    assert q0 * b + r0 == q * b + r;
    if q > q0 {
      MulAtLeast(q - q0, b);
    } else if q < q0 {
      MulAtLeast(q0 - q, b);
    }
  }

  lemma MulDivCancel(a: nat, b: nat)
    requires 0 < b
    ensures (a * b) % b == 0 && (a * b) / b == a
  {
    DivModUnique(a * b, b, a, 0);
  }
}
