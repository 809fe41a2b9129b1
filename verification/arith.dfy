/** Facts about integer division that the record counting and buffer window
    arithmetic rely on, proved once so that the solver need not rediscover them. */
module Arith {

  lemma MulAtLeast(x: int, b: nat)
    requires x >= 1
    ensures x * b >= b
  {
  }

  /** Multiplying by a non-negative number keeps the order. */
  lemma MulMonotone(a: nat, b: nat, h: nat)
    requires a <= b
    ensures a * h <= b * h
  {
    assert b * h - a * h == (b - a) * h;
  }

  /** The quotient and remainder are the only ones that rebuild `a`. */
  lemma DivModUnique(a: nat, b: nat, q: nat, r: nat)
    requires b > 0 && r < b && a == q * b + r
    ensures a / b == q && a % b == r
  {
    var q0, r0 := a / b, a % b;
    assert a == q0 * b + r0;
    if q0 > q {
      assert (q0 - q) * b == q0 * b - q * b;
      MulAtLeast(q0 - q, b);
    } else if q0 < q {
      assert (q - q0) * b == q * b - q0 * b;
      MulAtLeast(q - q0, b);
    }
  }

  lemma MulDiv(q: nat, b: nat)
    requires b > 0
    ensures (q * b) % b == 0 && (q * b) / b == q
  {
    DivModUnique(q * b, b, q, 0);
  }

  /** `a / b` whole copies of `b` fit in `a`, one more does not. */
  lemma DivBounds(a: nat, b: nat)
    requires b > 0
    ensures 0 <= a / b && (a / b) * b <= a < (a / b + 1) * b
  {
    assert a == (a / b) * b + a % b;
  }

  /** Taking away the remainder leaves a multiple. */
  lemma ModOfDifference(a: nat, b: nat)
    requires b > 0
    ensures a - a % b == (a / b) * b && (a - a % b) % b == 0
  {
    assert a == (a / b) * b + a % b;
    MulDiv(a / b, b);
  }
}
