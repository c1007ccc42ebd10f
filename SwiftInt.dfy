/** The two pieces of Swift integer arithmetic the calendar code relies on,
    written out over Dafny's unbounded `int`, whose `/` and `%` are Euclidean. */
module SwiftInt {

  /** `Int(Double(a) / Double(b))` for a positive divisor: the quotient rounded
      toward zero, so it has the sign of `a` and never exceeds it in magnitude. */
  function TruncDiv(a: int, b: int): (q: int)
    requires b > 0
    ensures a >= 0 ==> 0 <= q <= a
    ensures a < 0 ==> a <= q <= 0
    ensures q == 0 <==> -b < a < b
  {
    if a >= 0 then
      QuotientBounds(a, b);
      a / b
    else
      QuotientBounds(-a, b);
      -((-a) / b)
  }

  /** The Euclidean quotient of a natural number lies between zero and the
      dividend, and is zero exactly below the divisor. */
  lemma QuotientBounds(a: int, b: int)
    requires a >= 0 && b > 0
    ensures 0 <= a / b <= a
    ensures a / b == 0 <==> a < b
  {
    var q := a / b;
    assert a == q * b + a % b;
    if q < 0 {
      ProductAtLeast(-q, b);
      assert false;
    } else if q >= 1 {
      ProductAtLeast(q, b);
      ProductAtLeast(b, q);
      assert q * b == b * q;
    }
  }

  /** Swift's `%` on `Int`, `a - b * (a / b)` with the quotient truncated:
      the remainder of the magnitudes, with the sign of the dividend. */
  function Rem(a: int, b: int): (r: int)
    requires b > 0
    ensures a >= 0 ==> 0 <= r < b && r == a % b
    ensures a < 0 ==> -b < r <= 0 && r == -((-a) % b)
  {
    var q := TruncDiv(a, b);
    assert a < 0 ==> -a == b * ((-a) / b) + (-a) % b;
    a - b * q
  }

  /** A product of a positive and a positive number is at least the second. */
  lemma {:induction false} ProductAtLeast(k: int, b: int)
    requires k >= 1 && b > 0
    ensures k * b >= b
    decreases k
  {
    if k > 1 {
      ProductAtLeast(k - 1, b);
      assert k * b == (k - 1) * b + b;
    }
  }

  /** Euclidean division is determined by its defining equation. */
  lemma DivisionUnique(a: int, b: int, q: int, r: int)
    requires b > 0 && a == q * b + r && 0 <= r < b
    ensures a / b == q && a % b == r
  {
    var k := q - a / b;
    assert a == (a / b) * b + a % b;
    assert k * b == a % b - r;
    if k >= 1 {
      ProductAtLeast(k, b);
      assert false;
    } else if k <= -1 {
      ProductAtLeast(-k, b);
      assert false;
    }
  }

  /** On a non-negative dividend the truncated quotient is Dafny's. */
  lemma TruncDivOfNonNegative(a: int, b: int)
    requires a >= 0 && b > 0
    ensures TruncDiv(a, b) == a / b
  {
  }
}
