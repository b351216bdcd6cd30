/**
 Facts about multiplication and division that the models share, one per lemma, so that proofs
 about products name the fact they need.
 */
module Arithmetic {

  lemma MulMonotone(a: int, b: int, c: int, d: int)
    requires 0 <= a <= b && 0 <= c <= d
    ensures 0 <= a * c <= b * d
  {
    assert a * c <= b * c;
    assert b * c <= b * d;
  }

  lemma MulBelow(a: int, b: int, c: int)
    requires a <= b && 0 <= c
    ensures a * c <= b * c && c * a <= c * b
  {
  }

  lemma MulStrict(a: int, b: int, c: int)
    requires a < b && 0 < c
    ensures c * a < c * b && a * c < b * c
  {
  }

  lemma MulSign(a: int, m: int)
    requires m > 0
    ensures a * m > 0 <==> a > 0
    ensures a * m >= 0 <==> a >= 0
  {
  }

  lemma NegatedProduct(a: int, b: int)
    ensures -a * b == -(a * b) && a * -b == -(a * b) && -a * -b == a * b
  {
  }

  lemma SquareNotNegative(a: int)
    ensures a * a >= 0
  {
  }

  /** A product is at most the product of bounds on the magnitudes. */
  lemma MagnitudeBound(a: int, b: int, m: int, n: int)
    requires -m <= a <= m && -n <= b <= n
    ensures -(m * n) <= a * b <= m * n
  {
    var p: int, q: int := Abs(a), Abs(b);
    MulMonotone(p, m, q, n);
    NegatedProduct(p, q);
    assert a * b == p * q || a * b == -(p * q);
  }

  function Abs(x: int): nat { if x < 0 then -x else x }

  lemma SquareBound(x: int, n: int)
    requires n >= 0 && x * x <= n * n
    ensures -n <= x <= n
  {
    var p: int := Abs(x);
    NegatedProduct(x, x);
    if p > n {
      MulStrict(n, p, p);
      MulBelow(n, p, n);
    }
  }

  lemma DivMod(n: int, d: int)
    requires d > 0
    ensures n == d * (n / d) + n % d && 0 <= n % d < d
  {
  }

  /** Quotient and remainder are the only ones. */
  lemma DivisionUnique(n: int, d: int, q: int, r: int)
    requires d > 0 && n == d * q + r && 0 <= r < d
    ensures n / d == q && n % d == r
  {
    NoMultiple(n / d - q, d, r - n % d);
  }

  /** No multiple of `d` lies strictly between `-d` and `d`, except zero. */
  lemma NoMultiple(k: int, d: int, x: int)
    requires d > 0 && -d < x < d && k * d == x
    ensures k == 0 && x == 0
  {
    assert k >= 1 ==> k * d >= d;
    assert -k >= 1 ==> -k * d >= d;
  }

  lemma DivMonotone(a: int, b: int, d: int)
    requires d > 0 && a <= b
    ensures a / d <= b / d
  {
    DivMod(a, d);
    DivMod(b, d);
    if a / d > b / d {
      MulBelow(b / d + 1, a / d, d);
    }
  }

  /** A floor and the number it comes from. */
  lemma FloorGap(p: int, d: int)
    requires d > 0
    ensures p - d < d * (p / d) <= p
  {
    DivMod(p, d);
  }
}
