// The Python 2 arithmetic the algorithm relies on, written out over Dafny's
// unbounded integers and exact reals.

module PyMath {
  lemma MulMono(x: int, y: int, n: int)
    requires n > 0 && x <= y
    ensures x * n <= y * n
  {
    assert y * n == x * n + (y - x) * n;
  }

  lemma MulCancel(x: int, y: int, n: int)
    requires n > 0 && x * n < y * n
    ensures x < y
  {
    if x >= y {
      MulMono(y, x, n);
    }
  }

  /** Integer division by a positive number is monotone. */
  lemma DivMonotone(a: nat, b: nat, n: nat)
    requires a <= b && n > 0
    ensures a / n <= b / n
  {
    assert a / n * n <= a;
    assert b < (b / n + 1) * n;
    MulCancel(a / n, b / n + 1, n);
  }

  /** `a // b` and Python 2 `a / b` on integers: the quotient rounded down,
      also for a negative divisor (Dafny's `/` is Euclidean). */
  function FloorDiv(a: int, b: int): (q: int)
    requires b != 0
    ensures b > 0 ==> b * q <= a < b * q + b
    ensures b < 0 ==> b * q >= a > b * q + b
  {
    if b > 0 then a / b else (-a) / (-b)
  }

  /** `int(x)` of a float: truncation toward zero. */
  function Trunc(x: real): (n: int)
    ensures x >= 0.0 ==> n as real <= x < n as real + 1.0
    ensures x < 0.0 ==> n as real - 1.0 < x <= n as real
  {
    if x >= 0.0 then x.Floor else -((-x).Floor)
  }

  /** Python 2 `round(x)`: the nearest integer, halves away from zero. */
  function RoundHalfAway(x: real): (n: int)
    ensures x - 0.5 <= n as real <= x + 0.5
    ensures n as real == x + 0.5 ==> x >= 0.0
    ensures n as real == x - 0.5 ==> x < 0.0
  {
    if x >= 0.0 then (x + 0.5).Floor else -((-x + 0.5).Floor)
  }

  /** `x % m` on floats for a positive modulus: what is left of x over the
      largest multiple of m not above it. */
  function FloatMod(x: real, m: real): (r: real)
    requires m > 0.0
    ensures 0.0 <= r < m
    ensures x - r == (x / m).Floor as real * m
  {
    var q := x / m;
    var k := q.Floor as real;
    var f := q - k;
    assert 0.0 <= f < 1.0;
    FractionBound(f, m);
    assert x - k * m == f * m;
    x - k * m
  }

  lemma FractionBound(f: real, m: real)
    requires 0.0 <= f < 1.0 && m > 0.0
    ensures 0.0 <= f * m < m
  {
    assert m - f * m == (1.0 - f) * m;
  }
}
