// Numeric helpers shared by the analytics modules.  JavaScript numbers are
// modelled as exact reals (rounding of doubles is not modelled).
module Numbers {

  datatype Option<+T> = None | Some(value: T)

  /** Math.round: the integer below x + 1/2. */
  function Round(x: real): (r: int)
    ensures r as real - 0.5 <= x < r as real + 0.5
  {
    (x + 0.5).Floor
  }

  function Min(a: real, b: real): real {
    if a <= b then a else b
  }

  function Max(a: real, b: real): real {
    if a >= b then a else b
  }

  ghost predicate IsInteger(x: real) {
    x == x.Floor as real
  }

  lemma RoundMonotone(x: real, y: real)
    requires x <= y
    ensures Round(x) <= Round(y)
  {}

  /** Rounding never crosses an integer bound. */
  lemma RoundWithin(x: real, n: int)
    ensures x <= n as real ==> Round(x) <= n
    ensures n as real <= x ==> n <= Round(x)
  {}

  lemma MulNonNegative(a: real, b: real)
    requires a >= 0.0 && b >= 0.0
    ensures a * b >= 0.0
  {}

  lemma MulMonotone(a: real, b: real, c: real)
    requires a <= b && c >= 0.0
    ensures a * c <= b * c && c * a <= c * b
  {}

  lemma MulPositive(a: real, b: real)
    requires a > 0.0 && b > 0.0
    ensures a * b > 0.0
  {}

  lemma SquareStrict(a: real, b: real)
    requires 0.0 <= a < b
    ensures a * a < b * b
  {
    MulPositive(b - a, b + a);
    assert (b - a) * (b + a) == b * b - a * a;
  }

  /** Squares order non-negative numbers. */
  lemma SquareOrder(a: real, b: real)
    requires b >= 0.0 && a * a <= b * b
    ensures -b <= a <= b
  {
    if a > b {
      SquareStrict(b, a);
    } else if -b > a {
      SquareStrict(b, -a);
    }
  }

  /** Division by a positive number, in the form the proofs use. */
  lemma DivBounds(a: real, b: real, c: real)
    requires b > 0.0
    ensures a <= c * b ==> a / b <= c
    ensures c * b <= a ==> c <= a / b
    ensures (a / b) * b == a
  {}

  lemma Requotient(a: real, lo: real, hi: real, q: real)
    requires q * hi == lo
    ensures a * q * lo * hi == a * (lo * lo)
  {
    assert a * q * lo * hi == a * lo * (q * hi);
  }
}
