/** Small numeric functions, and facts about products, quotients and squares of reals. */
module Arithmetic {

  function Abs(x: real): real {
    if x < 0.0 then -x else x
  }

  /** The closest number of the range. */
  function Clamp(x: real, low: real, high: real): (r: real)
    requires low <= high
    ensures low <= r <= high
    ensures r == x <==> low <= x <= high
    ensures (x <= low ==> r == low) && (x >= high ==> r == high)
  {
    if x < low then low else if x > high then high else x
  }

  /** Powers of integers, and of reals. */
  function Pow(b: int, e: nat): int {
    if e == 0 then 1 else b * Pow(b, e - 1)
  }

  function Power(b: real, e: nat): real {
    if e == 0 then 1.0 else b * Power(b, e - 1)
  }

  lemma ProductIsPositive(a: real, b: real)
    requires a > 0.0 && b > 0.0
    ensures a * b > 0.0
  {
  }

  lemma SameFactor(x: real, y: real, a: real)
    requires x == y
    ensures x * a == y * a
  {
  }

  lemma Reassociate(a: real, b: real, c: real)
    ensures (a * b) * c == a * (b * c)
  {
  }

  lemma ZeroFactor(a: real, x: real)
    requires a != 0.0 && a * x == 0.0
    ensures x == 0.0
  {
  }

  lemma CancelFactor(a: real, x: real, y: real)
    requires a != 0.0 && a * x == a * y
    ensures x == y
  {
    assert a * (x - y) == 0.0;
    ZeroFactor(a, x - y);
  }

  lemma QuotientTimes(a: real, b: real)
    requires b != 0.0
    ensures (a / b) * b == a
  {
  }

  /** A quotient is a number iff the number times the divisor is the dividend. */
  lemma QuotientIff(a: real, b: real, q: real)
    requires b != 0.0
    ensures a / b == q <==> a == q * b
  {
    QuotientTimes(a, b);
    if a == q * b {
      CancelFactor(b, a / b, q);
    }
  }

  /** Fractions compare as their cross products. */
  lemma QuotientsCompare(a: real, b: real, c: real, d: real)
    requires b > 0.0 && d > 0.0
    ensures a / b < c / d <==> a * d < c * b
  {
    var p, q := a / b, c / d;
    QuotientTimes(a, b);
    QuotientTimes(c, d);
    CrossProducts(p, b, q, d);
    ProductIsPositive(b, d);
    SignTimesPositive(q - p, b * d);
  }

  lemma CrossProducts(p: real, b: real, q: real, d: real)
    ensures (q * d) * b - (p * b) * d == (q - p) * (b * d)
  {
  }

  lemma SignTimesPositive(e: real, f: real)
    requires f > 0.0
    ensures e * f > 0.0 <==> e > 0.0
  {
  }

  lemma SquareGrows(y: real, x: real)
    requires 0.0 <= y < x
    ensures y * y < x * x
  {
    assert x * x == y * y + (x - y) * (x + y);
    ProductIsPositive(x - y, x + y);
  }
}
