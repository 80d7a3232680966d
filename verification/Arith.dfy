/** Division facts, and the C language's truncating operators. */
module Arith {
  function Abs(x: int): nat {
    if x < 0 then -x else x
  }

  lemma DivUnique(n: int, d: int, q: int, r: int)
    requires d > 0 && n == q * d + r && 0 <= r < d
    ensures n / d == q && n % d == r
  {
    var q', r' := n / d, n % d;
    assert n == q' * d + r';
    assert (q - q') * d == r' - r;
    if q > q' { Scale(q - q', d); }
    if q < q' { Scale(q' - q, d); }
  }

  lemma Scale(k: int, d: int)
    requires k >= 1 && d > 0
    ensures k * d >= d
  {}

  /** Adding a multiple of the divisor. */
  lemma DivAddMultiple(k: int, d: int, y: int)
    requires d > 0
    ensures (k * d + y) / d == k + y / d
  {
    var q, r := y / d, y % d;
    assert y == q * d + r;
    assert k * d + y == (k + q) * d + r;
    DivUnique(k * d + y, d, k + q, r);
  }

  lemma DivMonotone(a: int, b: int, d: int)
    requires d > 0 && a <= b
    ensures a / d <= b / d
  {
    var q, r := a / d, a % d;
    var y := b - a + r;
    assert b == q * d + y;
    DivAddMultiple(q, d, y);
    DivNonNegative(y, d);
  }

  lemma DivNonNegative(y: int, d: int)
    requires y >= 0 && d > 0
    ensures y / d >= 0
  {}

  lemma Product(a: int, b: int, d: int)
    requires a <= b && d >= 0
    ensures a * d <= b * d
  {}

  /** Wrapping the first of two summands does not change the wrapped sum. */
  lemma WrapSum(x: nat, y: nat, m: int)
    requires m > 0
    ensures (x % m + y) % m == (x + y) % m
  {
    var q, r := x / m, x % m;
    assert x + y == q * m + (r + y);
    var s := r + y;
    assert s == s / m * m + s % m;
    assert x + y == (q + s / m) * m + s % m;
    DivUnique(x + y, m, q + s / m, s % m);
  }

  lemma AbsOfProduct(n: nat, x: int)
    ensures Abs(n * x) == n * Abs(x)
  {
    if x >= 0 { Product(0, n, x); } else { Product(0, n, -x); }
    assert n * -x == -(n * x);
  }

  lemma AbsOfSum(x: int, y: int)
    ensures Abs(x + y) <= Abs(x) + Abs(y)
  {}

  /** C division: toward zero. */
  function TruncDiv(a: int, b: int): int
    requires b > 0
  {
    if a >= 0 then a / b else -((-a) / b)
  }

  /** C remainder: takes the sign of the dividend. */
  function TruncMod(a: int, b: int): int
    requires b > 0
  {
    a - TruncDiv(a, b) * b
  }

  /** Truncation is odd, monotone and never off by a whole unit. */
  lemma TruncError(a: int, d: int)
    requires d > 0
    ensures -d < TruncDiv(a, d) * d - a < d
    ensures a >= 0 ==> 0 <= TruncDiv(a, d) * d <= a
    ensures a <= 0 ==> a <= TruncDiv(a, d) * d <= 0
  {
    var n := if a >= 0 then a else -a;
    var q, m := n / d, n % d;
    assert n == q * d + m;
    assert -q * d == -(q * d);
    DivNonNegative(n, d);
    Product(0, q, d);
  }
}
