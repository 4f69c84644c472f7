/**
 * Facts about multiplication and truncating division of naturals, which the
 * solver does not find unaided: the chunk boundaries and the thumbnail sizes
 * are computed with them.
 */
module Arith {

  lemma MulMonotone(a: nat, b: nat, c: nat)
    requires a <= b
    ensures a * c <= b * c
  {
    assert b * c == a * c + (b - a) * c;
  }

  /** A constant factor can move inside a product. */
  lemma MulShift(c: int, x: int, y: int)
    ensures c * (x * y) == x * (c * y)
  {
  }

  /** A quotient is at most `q` when the dividend is at most `q` times the divisor. */
  lemma DivAtMost(a: nat, d: nat, q: nat)
    requires d > 0 && a <= q * d
    ensures a / d <= q
  {
  }

  /** A quotient is at least `q` when the dividend is at least `q` times the divisor. */
  lemma DivAtLeast(a: nat, d: nat, q: nat)
    requires d > 0 && q * d <= a
    ensures q <= a / d
  {
    var r := a / d;
    assert a == r * d + a % d;
    assert q * d < (r + 1) * d;
    MulStrict(q, r + 1, d);
  }

  /** Multiplying by the same positive factor keeps a strict order, so it can be cancelled. */
  lemma MulStrict(x: nat, y: nat, d: nat)
    requires d > 0 && x * d < y * d
    ensures x < y
  {
    if y <= x {
      MulMonotone(y, x, d);
    }
  }

  /** Dividing `n * d + f` by `d` gives back `n` when the remainder `f` is below `d`. */
  lemma DivOfMultiplePlus(n: nat, d: nat, f: nat)
    requires f < d
    ensures (n * d + f) / d == n
  {
    var a := n * d + f;
    DivAtLeast(a, d, n);
    var r := a / d;
    assert a == r * d + a % d;
    assert (n + 1) * d == n * d + d;
    MulStrict(r, n + 1, d);
  }

  /** A quotient truncates to zero exactly when the dividend is below the divisor. */
  lemma DivIsZero(a: nat, d: nat)
    requires d > 0
    ensures a / d == 0 <==> a < d
  {
  }
}
