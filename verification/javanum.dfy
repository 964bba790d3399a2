/** Java's integer division and its double-to-integer cast, both of which round toward
    zero, unlike Dafny's Euclidean `/` and `Floor`. */
module JavaNum {

  /** Java's `a / b` for a positive divisor: the quotient rounded toward zero. */
  function JavaDiv(a: int, b: int): (q: int)
    requires b > 0
    ensures a >= 0 ==> 0 <= q * b <= a < q * b + b
    ensures a < 0 ==> q * b - b < a <= q * b <= 0
  {
    if a >= 0 then DivBounds(a, b); a / b
    else DivBounds(-a, b); NegMul((-a) / b, b); -((-a) / b)
  }

  lemma DivBounds(a: int, b: int)
    requires a >= 0 && b > 0
    ensures 0 <= (a / b) * b <= a < (a / b) * b + b
  {
  }

  lemma NegMul(q: int, b: int)
    ensures (-q) * b == -(q * b)
  {
  }

  /** Java's `a % b` for a positive divisor: the remainder takes the sign of `a`. */
  function JavaRem(a: int, b: int): (r: int)
    requires b > 0
    ensures a == JavaDiv(a, b) * b + r
    ensures a >= 0 ==> 0 <= r < b
    ensures a < 0 ==> -b < r <= 0
  {
    a - JavaDiv(a, b) * b
  }

  /** The `(int)` / `(long)` cast of a finite double: the fraction is dropped, toward zero. */
  function Trunc(x: real): (r: int)
    ensures x >= 0.0 ==> r as real <= x < r as real + 1.0 && r >= 0
    ensures x < 0.0 ==> r as real - 1.0 < x <= r as real && r <= 0
  {
    if x >= 0.0 then x.Floor else -((-x).Floor)
  }

  /** Java and Dafny agree on non-negative dividends and disagree on negative ones. */
  lemma DivExamples()
    ensures JavaDiv(7, 2) == 3 && JavaDiv(-7, 2) == -3 && (-7) / 2 == -4
    ensures JavaRem(-7, 2) == -1 && Trunc(-2.5) == -2 && Trunc(2.5) == 2
  {
  }
}
