/**
 * Java's integer `/` and `%`. Java truncates the quotient toward zero, so the remainder takes
 * the sign of the dividend; Dafny's operators are Euclidean. The grid arithmetic is written
 * with these two functions so that negative operands behave as they do in the source.
 */
module JavaInt {

  /** `a / b` in Java: the quotient rounded toward zero. */
  function Div(a: int, b: int): int
    requires b != 0
  {
    if a >= 0 then
      (if b > 0 then a / b else -(a / -b))
    else
      (if b > 0 then -((-a) / b) else (-a) / (-b))
  }

  /** `a % b` in Java: what is left of `a` after taking `Div(a, b)` copies of `b`. */
  function Rem(a: int, b: int): int
    requires b != 0
  {
    a - b * Div(a, b)
  }

  /**
   * Java's quotient rounds toward zero: the remainder it leaves is smaller than the divisor
   * in magnitude and takes the sign of the dividend.
   */
  lemma DivIsTruncated(a: int, b: int)
    requires b != 0
    ensures a == b * Div(a, b) + Rem(a, b)
    ensures 0 <= a ==> 0 <= Rem(a, b) < (if b > 0 then b else -b)
    ensures a < 0 ==> -(if b > 0 then b else -b) < Rem(a, b) <= 0
  {
  }

  /** On a non-negative dividend and a positive divisor Java and Dafny agree. */
  lemma DivRemNonNegative(a: int, b: int)
    requires 0 <= a && 0 < b
    ensures Div(a, b) == a / b && Rem(a, b) == a % b
  {
  }

  /** The quotient is determined by the slot of width `w` that holds `x`. */
  lemma {:induction false} QuotientOfSlot(x: int, w: int, q: int)
    requires 0 < w && q * w <= x < q * w + w
    ensures x / w == q && x % w == x - q * w
  {
    var q' := x / w;
    assert x == q' * w + x % w && 0 <= x % w < w;
    if q' < q {
      MulMonotone(q' + 1, q, w);
    } else if q < q' {
      MulMonotone(q + 1, q', w);
    }
  }

  /** A non-negative number is its quotient times the divisor plus its remainder. */
  lemma Decompose(a: int, b: int)
    requires 0 <= a && 0 < b
    ensures a == (a / b) * b + a % b && 0 <= a % b < b && 0 <= a / b
  {
  }

  lemma MulMonotone(a: int, b: int, w: int)
    requires a <= b && 0 <= w
    ensures a * w <= b * w
  {
    assert b * w - a * w == (b - a) * w;
  }
}
