/**
 * Java's integer division and remainder on `int`, which truncate toward
 * zero (section 15.17.2 and 15.17.3 of the Java Language Specification),
 * stated over unbounded integers.
 */
module JavaInt {

  function Abs(x: int): nat { if x < 0 then -x else x }

  /** `a / b` in Java: the quotient rounded toward zero. */
  function JavaDiv(a: int, b: int): int
    requires b != 0
  {
    if (a < 0) == (b < 0) then Abs(a) / Abs(b) else -(Abs(a) / Abs(b))
  }

  /** `a % b` in Java: what is left after `JavaDiv`, carrying the sign of `a`. */
  function JavaRem(a: int, b: int): int
    requires b != 0
  {
    if a < 0 then -(Abs(a) % Abs(b)) else Abs(a) % Abs(b)
  }

  /**
   * The defining identity of Java's division: the quotient times the
   * divisor plus the remainder gives back the dividend, the remainder is
   * smaller than the divisor in magnitude and is never of the opposite
   * sign to the dividend.
   */
  lemma JavaDivRem(a: int, b: int)
    requires b != 0
    ensures JavaDiv(a, b) * b + JavaRem(a, b) == a
    ensures Abs(JavaRem(a, b)) < Abs(b)
    ensures a >= 0 ==> JavaRem(a, b) >= 0
    ensures a <= 0 ==> JavaRem(a, b) <= 0
  {
    var x, y := Abs(a), Abs(b);
    var q: int, r: int := x / y, x % y;
    assert q * y + r == x && 0 <= r < y;
    if a < 0 && b < 0 {
      MulNeg(q, y);
    } else if a < 0 {
      MulNeg(q, y);
      MulNeg(-q, y);
    } else if b < 0 {
      MulNeg(-q, y);
    }
  }

  /** Negating one factor negates the product; kept apart so the solver sees one product at a time. */
  lemma MulNeg(q: int, y: int)
    ensures q * -y == -(q * y)
  {
  }

  /** On non-negative operands Java's operators agree with Dafny's. */
  lemma JavaDivNonNegative(a: int, b: int)
    requires a >= 0 && b > 0
    ensures JavaDiv(a, b) == a / b && JavaRem(a, b) == a % b
  {
  }

  /** A product with a factor of magnitude at least 1 is at least the other factor in magnitude. */
  lemma MulBounds(d: int, n: int)
    requires n > 0
    ensures d >= 1 ==> d * n >= n
    ensures d <= -1 ==> d * n <= -n
  {
  }

  /** Euclidean remainders are unique: y = q * n + r with 0 <= r < n makes r the remainder. */
  lemma ModUnique(y: int, n: int, q: int, r: int)
    requires n > 0 && y == q * n + r && 0 <= r < n
    ensures y % n == r
  {
    var d := y / n - q;
    assert d * n == (y / n) * n - q * n;
    MulBounds(d, n);
  }

  /** Adding a multiple of n does not change the remainder modulo n. */
  lemma ModMultiple(x: int, t: int, n: int)
    requires n > 0
    ensures (x + t * n) % n == x % n
  {
    assert x + t * n == (x / n + t) * n + x % n;
    ModUnique(x + t * n, n, x / n + t, x % n);
  }
}
