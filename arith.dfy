/** Integer ceilings, standing in for `Math.ceil(a / b)` on non-negative operands. */
module Arith {

  /** The least q with a <= b * q, that is the ceiling of a / b. */
  function CeilDiv(a: nat, b: nat): (q: nat)
    requires b > 0
    ensures a <= b * q
    ensures q == 0 || b * (q - 1) < a
  {
    var q := (a + b - 1) / b;
    assert a + b - 1 == b * q + (a + b - 1) % b;
    q
  }

  /** A positive numerator always gives a positive ceiling. */
  lemma CeilDivPositive(a: nat, b: nat)
    requires b > 0 && a > 0
    ensures CeilDiv(a, b) >= 1
  {
  }

  /** The ceiling is the least multiple count that covers `a`. */
  lemma CeilDivLeast(a: nat, b: nat, n: nat)
    requires b > 0 && a <= b * n
    ensures CeilDiv(a, b) <= n
  {
    var q := CeilDiv(a, b);
    if q > n {
      assert q - 1 >= n;
      MulMono(b, n, q - 1);
      assert false;
    }
  }

  lemma MulMono(b: nat, x: nat, y: nat)
    requires x <= y
    ensures b * x <= b * y
  {
  }

  function Max(a: int, b: int): int { if a >= b then a else b }
}
