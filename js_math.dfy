/**
 * The JavaScript `Math` functions and the `%` operator that the rule engine
 * uses, over exact reals (floating-point rounding is not modelled).
 */
module JsMath {

  /** `Math.trunc`: the integer part, rounding toward zero. */
  function Trunc(x: real): (r: int)
    ensures x >= 0.0 ==> r as real <= x < r as real + 1.0
    ensures x < 0.0 ==> r as real - 1.0 < x <= r as real
  {
    if x >= 0.0 then x.Floor else -((-x).Floor)
  }

  /** `Math.floor`. */
  function Floor(x: real): (r: int)
    ensures r as real <= x < r as real + 1.0
  {
    x.Floor
  }

  /** `Math.ceil`. */
  function Ceil(x: real): (r: int)
    ensures r as real - 1.0 < x <= r as real
  {
    -((-x).Floor)
  }

  /** `Math.round`: the nearest integer, halves rounded up (toward +infinity). */
  function Round(x: real): (r: int)
    ensures x - 0.5 < r as real <= x + 0.5
  {
    (x + 0.5).Floor
  }

  function Abs(x: real): (r: real)
    ensures r >= 0.0 && (r == x || r == -x)
  {
    if x < 0.0 then -x else x
  }

  /**
   * `a % b` and the `rem` helper for `b != 0`: `a - b * trunc(a / b)`, the
   * remainder that takes the sign of the dividend.
   */
  function Remainder(a: real, b: real): (r: real)
    requires b != 0.0
    ensures Abs(r) < Abs(b)
    ensures a >= 0.0 ==> r >= 0.0
    ensures a <= 0.0 ==> r <= 0.0
  {
    RemainderBounds(a, b);
    a - b * Trunc(a / b) as real
  }

  /** What `%` takes away from `a` is `b` times the quotient rounded toward zero. */
  lemma RemainderQuotient(a: real, b: real)
    requires b != 0.0
    ensures (a - Remainder(a, b)) / b == Trunc(a / b) as real
  {
    var t := Trunc(a / b) as real;
    assert a - Remainder(a, b) == b * t;
    assert (b * t) / b == t;
  }

  lemma RemainderBounds(a: real, b: real)
    requires b != 0.0
    ensures var r := a - b * Trunc(a / b) as real;
      Abs(r) < Abs(b) && (a >= 0.0 ==> r >= 0.0) && (a <= 0.0 ==> r <= 0.0)
  {
    var q := a / b;
    SignOfQuotient(a, b);
    RemainderOfQuotient(a, b, q, Trunc(q));
  }

  lemma RemainderOfQuotient(a: real, b: real, q: real, t: int)
    requires b != 0.0 && a == b * q
    requires a == 0.0 ==> q == 0.0
    requires (a > 0.0) == (b > 0.0) && a != 0.0 ==> q > 0.0
    requires (a > 0.0) != (b > 0.0) && a != 0.0 ==> q < 0.0
    requires q >= 0.0 ==> t as real <= q < t as real + 1.0
    requires q < 0.0 ==> t as real - 1.0 < q <= t as real
    ensures var r := a - b * t as real;
      Abs(r) < Abs(b) && (a >= 0.0 ==> r >= 0.0) && (a <= 0.0 ==> r <= 0.0)
  {
    var d := q - t as real;
    var r := a - b * t as real;
    DistributeRemainder(a, b, q, t as real);
    if a == 0.0 {
      assert t == 0 && d == 0.0;
    } else if b > 0.0 && a > 0.0 {
      FractionOfPositive(b, d, r);
    } else if b > 0.0 {
      FractionOfNegative(b, d, r);
    } else if a > 0.0 {
      assert r == (-b) * (-d);
      FractionOfPositive(-b, -d, r);
    } else {
      assert r == (-b) * (-d);
      FractionOfNegative(-b, -d, r);
    }
  }

  lemma FractionOfPositive(b: real, d: real, r: real)
    requires b > 0.0 && 0.0 <= d < 1.0 && r == b * d
    ensures 0.0 <= r < b
  {
    assert b - r == b * (1.0 - d);
    assert b * (1.0 - d) > 0.0;
    assert b * d >= 0.0;
  }

  lemma FractionOfNegative(b: real, d: real, r: real)
    requires b > 0.0 && -1.0 < d <= 0.0 && r == b * d
    ensures -b < r <= 0.0
  {
    assert b + r == b * (1.0 + d);
    assert b * (1.0 + d) > 0.0;
    assert b * d <= 0.0;
  }

  lemma DistributeRemainder(a: real, b: real, q: real, t: real)
    requires a == b * q
    ensures a - b * t == b * (q - t)
  {
  }

  lemma SignOfQuotient(a: real, b: real)
    requires b != 0.0
    ensures a == b * (a / b)
    ensures a == 0.0 ==> a / b == 0.0
    ensures a > 0.0 && b > 0.0 ==> a / b > 0.0
    ensures a < 0.0 && b < 0.0 ==> a / b > 0.0
    ensures a > 0.0 && b < 0.0 ==> a / b < 0.0
    ensures a < 0.0 && b > 0.0 ==> a / b < 0.0
  {
  }

  /** On non-negative integers with a positive divisor, `Remainder` is the integer remainder. */
  lemma IntRemainder(a: int, n: int)
    requires a >= 0 && n > 0
    ensures Remainder(a as real, n as real) == (a % n) as real
  {
    var q, r := a / n, a % n;
    assert a == q * n + r;
    var x := a as real / n as real;
    assert a as real == (q as real) * (n as real) + r as real;
    assert x == q as real + (r as real) / (n as real);
    assert 0.0 <= (r as real) / (n as real) < 1.0;
    assert Trunc(x) == q;
  }
}
