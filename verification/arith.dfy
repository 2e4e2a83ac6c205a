/** Facts about integer multiplication and Euclidean division by a positive
    divisor that the solver does not find on its own. */
module Arith {

  lemma {:induction false} MulAtLeastDivisor(b: int, k: int)
    requires b >= 1 && k >= 1
    ensures b * k >= b
  {
    if k > 1 {
      MulAtLeastDivisor(b, k - 1);
      assert b * k == b * (k - 1) + b;
    }
  }

  /** A multiple of b smaller than b is at most zero. */
  lemma MulBelowDivisor(b: int, k: int)
    requires b >= 1 && b * k < b
    ensures k <= 0
  {
    if k >= 1 {
      MulAtLeastDivisor(b, k);
    }
  }

  /** Multiplying by a non-negative factor keeps the order. */
  lemma MulMonotone(b: int, x: int, y: int)
    requires b >= 0 && x <= y
    ensures b * x <= b * y
  {
    if b >= 1 && x < y {
      MulAtLeastDivisor(b, y - x);
      assert b * y - b * x == b * (y - x);
    }
  }

  lemma MulSucc(c: int, k: int)
    ensures (c + 1) * k == c * k + k
  {
  }

  /** The quotient and remainder are determined by the bracketing multiple. */
  lemma DivUnique(a: int, b: int, q: int)
    requires b >= 1 && b * q <= a < b * q + b
    ensures a / b == q && a % b == a - b * q
  {
    var d := a / b;
    var m := a % b;
    assert a == b * d + m && 0 <= m < b;
    assert b * (q - d) == b * q - b * d;
    MulBelowDivisor(b, q - d);
    assert b * (d - q) == b * d - b * q;
    MulBelowDivisor(b, d - q);
  }

  /** Division of an exact multiple. */
  lemma DivMultiple(b: int, k: int)
    requires b >= 1
    ensures (b * k) / b == k && (b * k) % b == 0
  {
    DivUnique(b * k, b, k);
  }

  /** The remainder of a non-negative number is at most the number, and
      removing it leaves a multiple. */
  lemma RemainderFacts(a: int, b: int)
    requires a >= 0 && b >= 1
    ensures 0 <= a % b <= a
    ensures (a - a % b) % b == 0
  {
    var q := a / b;
    assert a == b * q + a % b;
    MulMonotone(b, 0, q);
    DivMultiple(b, q);
  }

  /** The negation of a multiple is a multiple. */
  lemma NegatedMultiple(b: int, m: int)
    requires b >= 1 && m % b == 0
    ensures (-m) % b == 0
  {
    var q := m / b;
    assert m == b * q;
    assert -m == b * (-q);
    DivMultiple(b, -q);
  }

  /** Division by b is monotone. */
  lemma DivMonotone(x: int, y: int, b: int)
    requires b >= 1 && x <= y
    ensures x / b <= y / b
  {
    var qx, qy := x / b, y / b;
    assert b * qx <= x < b * qx + b;
    assert b * qy <= y < b * qy + b;
    assert b * (qx - qy) == b * qx - b * qy;
    MulBelowDivisor(b, qx - qy);
  }
}
