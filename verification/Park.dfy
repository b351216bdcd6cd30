/**
 The Q31 Park transform and its inverse: a rotation by an angle given by its sine and cosine,
 in truncating fixed-point arithmetic with saturating sums.
 */
module Park {
  import opened Arithmetic
  import opened Bits
  import opened Saturation

  const W: int := 0x8000_0000

  /** `(q31_t) (((q63_t) a * b) >> 31)` */
  function Mul31(a: int32, b: int32): int32 {
    ToInt32(a as int * b / W)
  }

  /** The product fits 32 bits in every case but one. */
  lemma Mul31IsFloor(a: int32, b: int32)
    ensures !(a == Q31_MIN && b == Q31_MIN) ==> Mul31(a, b) == a as int * b / W
    ensures a == Q31_MIN && b == Q31_MIN ==> Mul31(a, b) == Q31_MIN
  {
    ProductRange(a, b);
    if !(a == Q31_MIN && b == Q31_MIN) {
      InRange(a as int * b / W);
    }
  }

  lemma ProductRange(a: int32, b: int32)
    ensures -W * W <= a as int * b <= W * W
    ensures !(a == Q31_MIN && b == Q31_MIN) ==> a as int * b < W * W
  {
    MagnitudeBound(a, b, W, W);
    if a != Q31_MIN {
      MagnitudeBound(a, b, W - 1, W);
    } else if b != Q31_MIN {
      MagnitudeBound(a, b, W, W - 1);
    }
  }

  method ParkQ31(alpha: int32, beta: int32, sin: int32, cos: int32) returns (id: int32, iq: int32)
    ensures id == Direct(alpha, beta, sin, cos) && iq == Quadrature(alpha, beta, sin, cos)
    ensures Exact(alpha, beta, sin, cos) ==>
              var s := alpha as int * cos / 0x8000_0000 + beta as int * sin / 0x8000_0000;
              && (s > 0x7FFF_FFFF ==> id == 0x7FFF_FFFF)
              && (s < -0x8000_0000 ==> id == -0x8000_0000)
              && (-0x8000_0000 <= s <= 0x7FFF_FFFF ==> id == s)
    ensures Exact(alpha, beta, sin, cos) ==>
              var s := beta as int * cos / 0x8000_0000 - alpha as int * sin / 0x8000_0000;
              && (s > 0x7FFF_FFFF ==> iq == 0x7FFF_FFFF)
              && (s < -0x8000_0000 ==> iq == -0x8000_0000)
              && (-0x8000_0000 <= s <= 0x7FFF_FFFF ==> iq == s)
  {
    hide Mul31;
    if Exact(alpha, beta, sin, cos) {
      ForwardNearest(alpha, beta, sin, cos);
    }
    var product1 := Mul31(alpha, cos);
    var product2 := Mul31(beta, sin);
    var product3 := Mul31(alpha, sin);
    var product4 := Mul31(beta, cos);
    id := QAdd(product1, product2);
    iq := QSub(product4, product3);
  }

  method InvParkQ31(id: int32, iq: int32, sin: int32, cos: int32) returns (alpha: int32, beta: int32)
    ensures alpha == InvAlpha(id, iq, sin, cos) && beta == InvBeta(id, iq, sin, cos)
    ensures Exact(id, iq, sin, cos) ==>
              var s := id as int * cos / 0x8000_0000 - iq as int * sin / 0x8000_0000;
              && (s > 0x7FFF_FFFF ==> alpha == 0x7FFF_FFFF)
              && (s < -0x8000_0000 ==> alpha == -0x8000_0000)
              && (-0x8000_0000 <= s <= 0x7FFF_FFFF ==> alpha == s)
    ensures Exact(id, iq, sin, cos) ==>
              var s := iq as int * cos / 0x8000_0000 + id as int * sin / 0x8000_0000;
              && (s > 0x7FFF_FFFF ==> beta == 0x7FFF_FFFF)
              && (s < -0x8000_0000 ==> beta == -0x8000_0000)
              && (-0x8000_0000 <= s <= 0x7FFF_FFFF ==> beta == s)
  {
    hide Mul31;
    if Exact(id, iq, sin, cos) {
      InverseNearest(id, iq, sin, cos);
    }
    var product1 := Mul31(id, cos);
    var product2 := Mul31(iq, sin);
    var product3 := Mul31(id, sin);
    var product4 := Mul31(iq, cos);
    alpha := QSub(product1, product2);
    beta := QAdd(product4, product3);
  }

  function Direct(alpha: int32, beta: int32, sin: int32, cos: int32): int32 {
    QAdd(Mul31(alpha, cos), Mul31(beta, sin))
  }

  function Quadrature(alpha: int32, beta: int32, sin: int32, cos: int32): int32 {
    QSub(Mul31(beta, cos), Mul31(alpha, sin))
  }

  function InvAlpha(id: int32, iq: int32, sin: int32, cos: int32): int32 {
    QSub(Mul31(id, cos), Mul31(iq, sin))
  }

  function InvBeta(id: int32, iq: int32, sin: int32, cos: int32): int32 {
    QAdd(Mul31(iq, cos), Mul31(id, sin))
  }

  /** Each output is the 32-bit value nearest to the sum or difference of the two floors. */
  lemma ForwardNearest(alpha: int32, beta: int32, sin: int32, cos: int32)
    requires Exact(alpha, beta, sin, cos)
    ensures var s := alpha as int * cos / 0x8000_0000 + beta as int * sin / 0x8000_0000;
            && (s > 0x7FFF_FFFF ==> Direct(alpha, beta, sin, cos) == 0x7FFF_FFFF)
            && (s < -0x8000_0000 ==> Direct(alpha, beta, sin, cos) == -0x8000_0000)
            && (-0x8000_0000 <= s <= 0x7FFF_FFFF ==> Direct(alpha, beta, sin, cos) == s)
    ensures var s := beta as int * cos / 0x8000_0000 - alpha as int * sin / 0x8000_0000;
            && (s > 0x7FFF_FFFF ==> Quadrature(alpha, beta, sin, cos) == 0x7FFF_FFFF)
            && (s < -0x8000_0000 ==> Quadrature(alpha, beta, sin, cos) == -0x8000_0000)
            && (-0x8000_0000 <= s <= 0x7FFF_FFFF ==> Quadrature(alpha, beta, sin, cos) == s)
  {
    hide Mul31;
    Mul31IsFloor(alpha, cos);
    Mul31IsFloor(beta, sin);
    Mul31IsFloor(beta, cos);
    Mul31IsFloor(alpha, sin);
    NearestSum(Mul31(alpha, cos), Mul31(beta, sin));
    NearestSum(Mul31(beta, cos), Mul31(alpha, sin));
  }

  lemma InverseNearest(id: int32, iq: int32, sin: int32, cos: int32)
    requires Exact(id, iq, sin, cos)
    ensures var s := id as int * cos / 0x8000_0000 - iq as int * sin / 0x8000_0000;
            && (s > 0x7FFF_FFFF ==> InvAlpha(id, iq, sin, cos) == 0x7FFF_FFFF)
            && (s < -0x8000_0000 ==> InvAlpha(id, iq, sin, cos) == -0x8000_0000)
            && (-0x8000_0000 <= s <= 0x7FFF_FFFF ==> InvAlpha(id, iq, sin, cos) == s)
    ensures var s := iq as int * cos / 0x8000_0000 + id as int * sin / 0x8000_0000;
            && (s > 0x7FFF_FFFF ==> InvBeta(id, iq, sin, cos) == 0x7FFF_FFFF)
            && (s < -0x8000_0000 ==> InvBeta(id, iq, sin, cos) == -0x8000_0000)
            && (-0x8000_0000 <= s <= 0x7FFF_FFFF ==> InvBeta(id, iq, sin, cos) == s)
  {
    hide Mul31;
    Mul31IsFloor(id, cos);
    Mul31IsFloor(iq, sin);
    Mul31IsFloor(iq, cos);
    Mul31IsFloor(id, sin);
    NearestSum(Mul31(id, cos), Mul31(iq, sin));
    NearestSum(Mul31(iq, cos), Mul31(id, sin));
  }

  lemma NearestSum(x: int32, y: int32)
    ensures var s := x as int + y;
            && (s > 0x7FFF_FFFF ==> QAdd(x, y) == 0x7FFF_FFFF)
            && (s < -0x8000_0000 ==> QAdd(x, y) == -0x8000_0000)
            && (-0x8000_0000 <= s <= 0x7FFF_FFFF ==> QAdd(x, y) == s)
    ensures var s := x as int - y;
            && (s > 0x7FFF_FFFF ==> QSub(x, y) == 0x7FFF_FFFF)
            && (s < -0x8000_0000 ==> QSub(x, y) == -0x8000_0000)
            && (-0x8000_0000 <= s <= 0x7FFF_FFFF ==> QSub(x, y) == s)
  {
  }

  predicate Fits(x: int) { Q31_MIN <= x <= Q31_MAX }

  predicate BothMin(a: int32, b: int32) { a == Q31_MIN && b == Q31_MIN }

  /** None of the four products wraps. */
  predicate Exact(a: int32, b: int32, sin: int32, cos: int32) {
    && !BothMin(a, cos) && !BothMin(a, sin) && !BothMin(b, cos) && !BothMin(b, sin)
  }

  /** Neither of the two sums saturates either. */
  predicate ForwardFits(alpha: int32, beta: int32, sin: int32, cos: int32) {
    && Exact(alpha, beta, sin, cos)
    && Fits(Mul31(alpha, cos) as int + Mul31(beta, sin))
    && Fits(Mul31(beta, cos) as int - Mul31(alpha, sin))
  }

  predicate InverseFits(id: int32, iq: int32, sin: int32, cos: int32) {
    && Exact(id, iq, sin, cos)
    && Fits(Mul31(id, cos) as int - Mul31(iq, sin))
    && Fits(Mul31(iq, cos) as int + Mul31(id, sin))
  }

  /** `x` is within `n` units of `v / 2^62`, strictly. */
  predicate Within(x: int, v: int, n: int) {
    -n * W * W < x * W * W - v < n * W * W
  }

  /** The vector comes back from the two transforms, scaled by the norm of the angle and within a few units. */
  predicate ComesBack(alpha: int32, beta: int32, sin: int32, cos: int32) {
    var id, iq := Direct(alpha, beta, sin, cos), Quadrature(alpha, beta, sin, cos);
    var norm := sin as int * sin + cos as int * cos;
    && Within(InvAlpha(id, iq, sin, cos), alpha * norm, 4)
    && Within(InvBeta(id, iq, sin, cos), beta * norm, 5)
  }

  // ---------- the rounding of the two transforms ----------

  /** What the forward transform loses: less than two units in `id`, less than one in `iq`. */
  lemma ForwardRounding(alpha: int32, beta: int32, sin: int32, cos: int32)
    requires Exact(alpha, beta, sin, cos)
    ensures var s := Mul31(alpha, cos) as int + Mul31(beta, sin);
            alpha as int * cos + beta as int * sin - 2 * W < W * s <= alpha as int * cos + beta as int * sin
    ensures var s := Mul31(beta, cos) as int - Mul31(alpha, sin);
            beta as int * cos - alpha as int * sin - W < W * s < beta as int * cos - alpha as int * sin + W
  {
    hide Mul31;
    Mul31IsFloor(alpha, cos);
    Mul31IsFloor(beta, sin);
    Mul31IsFloor(beta, cos);
    Mul31IsFloor(alpha, sin);
    FloorGap(alpha as int * cos, W);
    FloorGap(beta as int * sin, W);
    FloorGap(beta as int * cos, W);
    FloorGap(alpha as int * sin, W);
  }

  lemma ScaledLoss(d: int, n: int, c: int)
    requires n > 0 && -n * W < d < n * W && -W <= c <= W
    ensures -n * W * W < d * c < n * W * W
  {
    MagnitudeBound(d, c, n * W - 1, W);
  }

  /**
   The algebra of the round trip, with the losses `d` and `f` of the forward transform and `g`
   and `k` of the inverse; the cross terms cancel.
   */
  lemma RotateBack(a: int, b: int, s: int, c: int, id: int, iq: int, d: int, f: int, ra: int, rb: int, g: int, k: int)
    requires W * id == a * c + b * s + d && W * iq == b * c - a * s + f
    requires W * ra == id * c - iq * s + g && W * rb == iq * c + id * s + k
    ensures W * (W * ra) == a * (s * s + c * c) + d * c - f * s + W * g
    ensures W * (W * rb) == b * (s * s + c * c) + f * c + d * s + W * k
  {
    assert W * (id * c) == (W * id) * c && W * (iq * s) == (W * iq) * s;
    assert W * (id * s) == (W * id) * s && W * (iq * c) == (W * iq) * c;
    Cancel(a, b, s, c, d, f);
  }

  lemma Cancel(a: int, b: int, s: int, c: int, d: int, f: int)
    ensures (a * c + b * s + d) * c - (b * c - a * s + f) * s == a * (s * s + c * c) + d * c - f * s
    ensures (b * c - a * s + f) * c + (a * c + b * s + d) * s == b * (s * s + c * c) + f * c + d * s
  {
  }

  /** The sums of the inverse transform before saturation, when the forward transform is exact. */
  lemma InverseSums(alpha: int32, beta: int32, sin: int32, cos: int32)
    requires ForwardFits(alpha, beta, sin, cos)
    requires var id, iq := Direct(alpha, beta, sin, cos), Quadrature(alpha, beta, sin, cos); Exact(id, iq, sin, cos)
    ensures var id, iq := Direct(alpha, beta, sin, cos), Quadrature(alpha, beta, sin, cos);
            var norm := sin as int * sin + cos as int * cos;
            && Within(Mul31(id, cos) as int - Mul31(iq, sin), alpha * norm, 4)
            && Within(Mul31(iq, cos) as int + Mul31(id, sin), beta * norm, 5)
  {
    hide Mul31;
    var a: int, b: int, s: int, c: int := alpha, beta, sin, cos;
    var id, iq := Direct(alpha, beta, sin, cos), Quadrature(alpha, beta, sin, cos);
    ForwardRounding(alpha, beta, sin, cos);
    var d, f := W * id - (a * c + b * s), W * iq - (b * c - a * s);
    InverseRounding(id, iq, sin, cos);
    var ra, rb := Mul31(id, cos) as int - Mul31(iq, sin), Mul31(iq, cos) as int + Mul31(id, sin);
    var g, k := W * ra - (id * c - iq * s), W * rb - (iq * c + id * s);
    RotateBack(a, b, s, c, id, iq, d, f, ra, rb, g, k);
    ScaledLoss(d, 2, c);
    ScaledLoss(d, 2, s);
    ScaledLoss(f, 1, c);
    ScaledLoss(f, 1, s);
  }

  lemma InverseRounding(id: int32, iq: int32, sin: int32, cos: int32)
    requires Exact(id, iq, sin, cos)
    ensures var r := Mul31(id, cos) as int - Mul31(iq, sin);
            id as int * cos - iq as int * sin - W < W * r < id as int * cos - iq as int * sin + W
    ensures var r := Mul31(iq, cos) as int + Mul31(id, sin);
            iq as int * cos + id as int * sin - 2 * W < W * r <= iq as int * cos + id as int * sin
  {
    hide Mul31;
    Mul31IsFloor(id, cos);
    Mul31IsFloor(iq, sin);
    Mul31IsFloor(iq, cos);
    Mul31IsFloor(id, sin);
    FloorGap(id as int * cos, W);
    FloorGap(iq as int * sin, W);
    FloorGap(iq as int * cos, W);
    FloorGap(id as int * sin, W);
  }

  /**
   Saturating or not, each output of the transform is the exact rotation cut to the 32-bit range,
   less than two units low in `id` and less than one unit off in `iq`.
   */
  lemma ForwardCut(alpha: int32, beta: int32, sin: int32, cos: int32)
    requires Exact(alpha, beta, sin, cos)
    ensures var e := alpha as int * cos + beta as int * sin;
            var top, bottom := 0x7FFF_FFFF * 0x8000_0000, -0x8000_0000 * 0x8000_0000;
            var nearest := if e > top then top else if e < bottom then bottom else e;
            nearest - 2 * 0x8000_0000 < 0x8000_0000 * Direct(alpha, beta, sin, cos) <= nearest
    ensures var e := beta as int * cos - alpha as int * sin;
            var top, bottom := 0x7FFF_FFFF * 0x8000_0000, -0x8000_0000 * 0x8000_0000;
            var nearest := if e > top then top else if e < bottom then bottom else e;
            nearest - 0x8000_0000 < 0x8000_0000 * Quadrature(alpha, beta, sin, cos) < nearest + 0x8000_0000
  {
    hide Mul31;
    ForwardRounding(alpha, beta, sin, cos);
  }

  /** The same for the inverse transform. */
  lemma InverseCut(id: int32, iq: int32, sin: int32, cos: int32)
    requires Exact(id, iq, sin, cos)
    ensures var e := id as int * cos - iq as int * sin;
            var top, bottom := 0x7FFF_FFFF * 0x8000_0000, -0x8000_0000 * 0x8000_0000;
            var nearest := if e > top then top else if e < bottom then bottom else e;
            nearest - 0x8000_0000 < 0x8000_0000 * InvAlpha(id, iq, sin, cos) < nearest + 0x8000_0000
    ensures var e := iq as int * cos + id as int * sin;
            var top, bottom := 0x7FFF_FFFF * 0x8000_0000, -0x8000_0000 * 0x8000_0000;
            var nearest := if e > top then top else if e < bottom then bottom else e;
            nearest - 2 * 0x8000_0000 < 0x8000_0000 * InvBeta(id, iq, sin, cos) <= nearest
  {
    hide Mul31;
    InverseRounding(id, iq, sin, cos);
  }

  /**
   Round trip: whenever no sum saturates and no product wraps, the inverse transform of the
   transform is the original vector scaled by `sin*sin + cos*cos`, within 4 units in one
   coordinate and 5 in the other.
   */
  lemma RoundTrip(alpha: int32, beta: int32, sin: int32, cos: int32)
    requires ForwardFits(alpha, beta, sin, cos)
    requires InverseFits(Direct(alpha, beta, sin, cos), Quadrature(alpha, beta, sin, cos), sin, cos)
    ensures ComesBack(alpha, beta, sin, cos)
  {
    hide Mul31, Within;
    InverseSums(alpha, beta, sin, cos);
  }

  // ---------- vectors inside the circle ----------

  const RADIUS: int := 0x7FFF_FFFA

  predicate InUnitCircle(sin: int32, cos: int32) {
    sin as int * sin + cos as int * cos <= W * W
  }

  /** A sine and a cosine, but for rounding: in the unit circle and at most four units inside its edge. */
  predicate IsAngle(sin: int32, cos: int32) {
    InUnitCircle(sin, cos) && sin as int * sin + cos as int * cos >= (W - 4) * (W - 4)
  }

  /** The rotation preserves lengths (scaled by the norm of the angle's vector). */
  lemma LengthIdentity(a: int, b: int, s: int, c: int)
    ensures (a * c + b * s) * (a * c + b * s) + (b * c - a * s) * (b * c - a * s)
         == (a * a + b * b) * (s * s + c * c)
  {
    var p, q, r, t := a * c, b * s, b * c, a * s;
    assert p * q == r * t;
    assert p * p == (a * a) * (c * c) && q * q == (b * b) * (s * s);
    assert r * r == (b * b) * (c * c) && t * t == (a * a) * (s * s);
  }

  lemma InsideCircle(a: int, b: int, s: int, c: int)
    requires a * a + b * b <= RADIUS * RADIUS && s * s + c * c <= W * W
    ensures -RADIUS * W <= a * c + b * s <= RADIUS * W
    ensures -RADIUS * W <= b * c - a * s <= RADIUS * W
    ensures -RADIUS <= a <= RADIUS && -RADIUS <= b <= RADIUS && -W <= s <= W && -W <= c <= W
  {
    LengthIdentity(a, b, s, c);
    var x, y := a * c + b * s, b * c - a * s;
    assert (a * a + b * b) * (s * s + c * c) <= (RADIUS * W) * (RADIUS * W) by {
      MulMonotone(a * a + b * b, RADIUS * RADIUS, s * s + c * c, W * W);
    }
    assert x * x >= 0 && y * y >= 0;
    SquareBound(x, RADIUS * W);
    SquareBound(y, RADIUS * W);
    assert a * a >= 0 && b * b >= 0 && s * s >= 0 && c * c >= 0;
    SquareBound(a, RADIUS);
    SquareBound(b, RADIUS);
    SquareBound(s, W);
    SquareBound(c, W);
  }

  /**
   For a vector inside the circle of radius `RADIUS` and an angle's sine and cosine (a vector
   inside the unit circle), nothing saturates or wraps, so the round trip always holds.
   */
  lemma CircleRoundTrip(alpha: int32, beta: int32, sin: int32, cos: int32)
    requires alpha as int * alpha + beta as int * beta <= RADIUS * RADIUS
    requires InUnitCircle(sin, cos)
    ensures ForwardFits(alpha, beta, sin, cos)
    ensures InverseFits(Direct(alpha, beta, sin, cos), Quadrature(alpha, beta, sin, cos), sin, cos)
    ensures ComesBack(alpha, beta, sin, cos)
  {
    hide Mul31;
    InsideCircle(alpha, beta, sin, cos);
    ForwardRounding(alpha, beta, sin, cos);
    var id, iq := Direct(alpha, beta, sin, cos), Quadrature(alpha, beta, sin, cos);
    assert ForwardFits(alpha, beta, sin, cos);
    InverseSums(alpha, beta, sin, cos);
    var norm := sin as int * sin + cos as int * cos;
    Shrinks(alpha, norm);
    Shrinks(beta, norm);
    RoundTrip(alpha, beta, sin, cos);
  }

  lemma Shrinks(a: int, norm: int)
    requires -RADIUS <= a <= RADIUS && 0 <= norm <= W * W
    ensures -RADIUS * (W * W) <= a * norm <= RADIUS * (W * W)
  {
    MagnitudeBound(a, norm, RADIUS, W * W);
  }

  // ---------- vectors outside the circle ----------

  /** The square root, rounded up. */
  lemma {:induction false} RootAbove(n: nat) returns (r: nat)
    ensures n <= r * r && (r > 0 ==> (r - 1) * (r - 1) < n)
  {
    if n == 0 {
      r := 0;
    } else {
      r := RootAbove(n - 1);
      if n > r * r {
        r := r + 1;
      }
    }
  }

  /**
   The sine and cosine, in magnitude, of the direction of the vector `(a, b)`, rounded towards 0;
   `r` is the length of the vector, rounded up.
   */
  ghost predicate Direction(a: int, b: int, r: int, s: int, c: int) {
    && 0 <= a <= W && 0 <= b <= W && W < r && c == a * W / r && s == b * W / r
    && (r - 1) * (r - 1) < a * a + b * b <= r * r
  }

  lemma Quotient(a: int, r: int) returns (c: int)
    requires 0 <= a <= W < r
    ensures c == a * W / r && 0 <= c < W && r * c <= a * W < r * c + r
  {
    c := a * W / r;
    DivMod(a * W, r);
    MulMonotone(0, a, 0, W);
    if c < 0 {
      MulBelow(c, -1, r);
    } else if c >= W {
      MulMonotone(W + 1, r, W, c);
      MulBelow(a, W, W);
    }
  }

  lemma SquareScaled(r: int, c: int, a: int)
    requires 0 <= r * c <= a * W
    ensures r * r * (c * c) <= a * a * (W * W)
  {
    MulMonotone(r * c, a * W, r * c, a * W);
    SquareOfProduct(r, c);
    SquareOfProduct(a, W);
  }

  lemma SquareOfProduct(x: int, y: int)
    ensures (x * y) * (x * y) == x * x * (y * y)
  {
  }

  /** The direction is inside the unit circle. */
  lemma DirectionInCircle(a: int, b: int, r: int, s: int, c: int)
    requires Direction(a, b, r, s, c)
    ensures 0 <= s < W && 0 <= c < W && s * s + c * c <= W * W
  {
    var c' := Quotient(a, r);
    var s' := Quotient(b, r);
    MulMonotone(0, r, 0, c);
    MulMonotone(0, r, 0, s);
    SquareScaled(r, c, a);
    SquareScaled(r, s, b);
    MulMonotone(1, r, 1, r);
    CancelScale(r * r, s * s, c * c, a * a, b * b, W * W);
  }

  lemma CancelScale(r2: int, s2: int, c2: int, a2: int, b2: int, w2: int)
    requires r2 > 0 && w2 > 0 && r2 * c2 <= a2 * w2 && r2 * s2 <= b2 * w2 && a2 + b2 <= r2
    ensures s2 + c2 <= w2
  {
    assert r2 * (s2 + c2) <= (a2 + b2) * w2;
    MulBelow(a2 + b2, r2, w2);
    if s2 + c2 > w2 {
      MulStrict(w2, s2 + c2, r2);
    }
  }

  /** Along its own direction a vector is about as long as it is, and across it about nothing. */
  lemma AlongAndAcross(a: int, b: int, r: int, s: int, c: int)
    requires Direction(a, b, r, s, c)
    ensures a * c + b * s >= (r - 4) * W
    ensures -W < b * c - a * s < W
  {
    var c' := Quotient(a, r);
    var s' := Quotient(b, r);
    Along(a, b, r, s, c);
    Across(a, b, r, s, c);
  }

  lemma Along(a: int, b: int, r: int, s: int, c: int)
    requires 0 <= a <= W && 0 <= b <= W && W < r && (r - 1) * (r - 1) < a * a + b * b
    requires a * W < r * c + r && b * W < r * s + r
    ensures a * c + b * s >= (r - 4) * W
  {
    PartAlong(a, c, r);
    PartAlong(b, s, r);
    MulBelow(a, W, r);
    MulBelow(b, W, r);
    AddParts(r, a * c, b * s, a * a, b * b, a * r, b * r);
    DivideByRoot(r, a * a + b * b, a * c + b * s);
  }

  lemma AddParts(r: int, ac: int, bs: int, a2: int, b2: int, ar: int, br: int)
    requires r * ac >= a2 * W - ar && r * bs >= b2 * W - br && ar <= W * r && br <= W * r
    ensures r * (ac + bs) >= (a2 + b2) * W - 2 * (r * W)
  {
    assert r * (ac + bs) == r * ac + r * bs;
  }

  lemma DivideByRoot(r: int, n: int, dot: int)
    requires r > 0 && (r - 1) * (r - 1) < n && r * dot >= n * W - 2 * (r * W)
    ensures dot >= (r - 4) * W
  {
    var r2 := r * r;
    assert (r - 1) * (r - 1) == r2 - 2 * r + 1;
    assert n * W >= (r2 - 2 * r) * W by { MulBelow(r2 - 2 * r, n, W); }
    Collect(r);
    if dot < (r - 4) * W {
      MulStrict(dot, (r - 4) * W, r);
    }
  }

  lemma Collect(r: int)
    ensures (r * r - 2 * r) * W - 2 * (r * W) == r * ((r - 4) * W)
  {
    assert r * ((r - 4) * W) == (r * (r - 4)) * W;
    assert r * (r - 4) == r * r - 4 * r;
  }

  lemma PartAlong(a: int, c: int, r: int)
    requires 0 <= a && a * W < r * c + r
    ensures r * (a * c) >= a * a * W - a * r
  {
    MulBelow(a * W - r, r * c, a);
    assert a * (r * c) == r * (a * c) && a * (a * W - r) == a * a * W - a * r;
  }

  lemma Across(a: int, b: int, r: int, s: int, c: int)
    requires 0 <= a <= W && 0 <= b <= W && W < r
    requires r * c <= a * W < r * c + r && r * s <= b * W < r * s + r
    ensures -W < b * c - a * s < W
  {
    PartAcross(a, b, r, s, c);
    PartAcross(b, a, r, c, s);
  }

  lemma PartAcross(a: int, b: int, r: int, s: int, c: int)
    requires 0 <= a <= W && 0 <= b <= W && W < r
    requires r * c <= a * W && b * W < r * s + r
    ensures b * c - a * s < W
  {
    assert b * (r * c) <= b * (a * W) by { MulBelow(r * c, a * W, b); }
    assert a * (b * W - r + 1) <= a * (r * s) by { MulBelow(b * W - r + 1, r * s, a); }
    Crosswise(a, b, r, s, c);
    MulBelow(a, W, r);
    MulMonotone(1, r, 1, W);
    if b * c - a * s >= W {
      MulBelow(W, b * c - a * s, r);
    }
  }

  lemma Crosswise(a: int, b: int, r: int, s: int, c: int)
    requires b * (r * c) <= b * (a * W) && a * (b * W - r + 1) <= a * (r * s)
    ensures r * (b * c - a * s) <= a * r - a
  {
    var ab, bc, as' := a * b, b * c, a * s;
    assert b * (r * c) == r * bc && a * (r * s) == r * as';
    assert b * (a * W) == ab * W && a * (b * W - r + 1) == ab * W - a * r + a;
    assert r * (bc - as') == r * bc - r * as';
  }

  /** The angle along which a vector longer than `W` points, with the vector's length rounded up. */
  lemma Facing(alpha: int32, beta: int32) returns (sin: int32, cos: int32, r: nat)
    requires alpha as int * alpha + beta as int * beta > W * W
    ensures IsAngle(sin, cos) && sin != Q31_MIN && cos != Q31_MIN && W < r
    ensures (r - 1) * (r - 1) < alpha as int * alpha + beta as int * beta <= r * r
    ensures alpha as int * cos + beta as int * sin >= (r - 4) * W
    ensures -W < beta as int * cos - alpha as int * sin < W
  {
    var a: int, b: int := Abs(alpha), Abs(beta);
    Signs(alpha, alpha);
    Signs(beta, beta);
    r := RootAbove(a * a + b * b);
    if r <= W {
      MulMonotone(r, W, r, W);
    }
    var c, s := a * W / r, b * W / r;
    DirectionInCircle(a, b, r, s, c);
    AlongAndAcross(a, b, r, s, c);
    NormNearUnit(a, b, s, c, r);
    cos := if alpha < 0 then -c else c;
    sin := if beta < 0 then -s else s;
    Signs(alpha, cos);
    Signs(alpha, sin);
    Signs(beta, cos);
    Signs(beta, sin);
    Signs(cos, cos);
    Signs(sin, sin);
  }

  /** A product from the product of the magnitudes. */
  lemma Signs(x: int, y: int)
    ensures x * y == if (x < 0) == (y < 0) then Abs(x) * Abs(y) else -(Abs(x) * Abs(y) as int)
  {
    NegatedProduct(x, y);
  }

  /** How long a vector is, at least, when it is longer than some number. */
  lemma LongerThan(n: int, r: nat, k: int)
    requires n <= r * r && n > k * k && k >= 0
    ensures r > k
  {
    if r <= k {
      MulMonotone(r, k, r, k);
    }
  }

  /** Turned to face a vector this long, `id` saturates and `iq` is as good as 0. */
  lemma FacingSaturates(alpha: int32, beta: int32, sin: int32, cos: int32, r: nat)
    requires sin != Q31_MIN && cos != Q31_MIN && r >= W + 5
    requires alpha as int * cos + beta as int * sin >= (r - 4) * W
    requires -W < beta as int * cos - alpha as int * sin < W
    ensures Mul31(alpha, cos) as int + Mul31(beta, sin) > Q31_MAX
    ensures Direct(alpha, beta, sin, cos) == Q31_MAX && -1 <= Quadrature(alpha, beta, sin, cos) <= 1
  {
    hide Mul31;
    ForwardRounding(alpha, beta, sin, cos);
  }

  /**
   For every vector longer than `W + 4` there is an angle at which the transform saturates; the
   circle in which it never does ends less than eleven units further in.
   */
  lemma OutsideSaturates(alpha: int32, beta: int32)
    requires alpha as int * alpha + beta as int * beta > (W + 4) * (W + 4)
    ensures exists sin: int32, cos: int32 :: IsAngle(sin, cos) && !ForwardFits(alpha, beta, sin, cos)
  {
    hide Mul31, IsAngle;
    var sin, cos, r := Facing(alpha, beta);
    LongerThan(alpha as int * alpha + beta as int * beta, r, W + 4);
    FacingSaturates(alpha, beta, sin, cos, r);
    assert IsAngle(sin, cos) && !ForwardFits(alpha, beta, sin, cos);
  }

  /** What comes back is no longer than `id` allows. */
  lemma ReturnBound(id: int32, iq: int32, sin: int32, cos: int32)
    requires id == Q31_MAX && -1 <= iq <= 1 && sin != Q31_MIN && cos != Q31_MIN
    ensures Abs(InvAlpha(id, iq, sin, cos)) <= Abs(cos) + 2
    ensures Abs(InvBeta(id, iq, sin, cos)) <= Abs(sin) + 3
  {
    hide Mul31, Clamp, Abs;
    var x, y := Mul31(id, cos) as int - Mul31(iq, sin), Mul31(iq, cos) as int + Mul31(id, sin);
    InverseRounding(id, iq, sin, cos);
    UnitProduct(iq, sin);
    UnitProduct(iq, cos);
    SumMagnitude(x, cos, -(iq as int * sin), 1);
    SumMagnitude(y, sin, iq as int * cos, 2);
    ClampedMagnitude(x);
    ClampedMagnitude(y);
  }

  lemma SumMagnitude(x: int, c: int, u: int, k: int)
    requires -W <= c <= W && -W <= u <= W && Q31_MAX * c + u - k * W <= W * x <= Q31_MAX * c + u + k * W
    ensures Abs(x) <= Abs(c) + k + 1
  {
  }

  lemma ClampedMagnitude(x: int)
    ensures Abs(Clamp(Q31_MIN, Q31_MAX, x)) <= Abs(x)
  {
  }

  lemma UnitProduct(u: int, x: int)
    requires -1 <= u <= 1
    ensures -W <= x <= W ==> -W <= u * x <= W
  {
  }

  /** If the vector came back, what came back would have to be too long. */
  lemma TooLong(a: int, b: int, s: int, c: int, ra: int, rb: int, norm: int, dot: int)
    requires norm == s * s + c * c && dot == a * c + b * s && Abs(s) <= W && Abs(c) <= W
    requires Abs(ra) <= Abs(c) + 2 && Abs(rb) <= Abs(s) + 3
    requires Within(ra, a * norm, 4) && Within(rb, b * norm, 5)
    ensures dot * norm <= W * W * norm + 14 * (W * W * W)
  {
    hide Within;
    WithinTimes(ra, a, norm, 4, c);
    WithinTimes(rb, b, norm, 5, s);
    TimesItself(ra, c, 2);
    TimesItself(rb, s, 3);
    DotTimes(a, b, s, c, norm);
    AddUp(dot * norm, a * norm * c, b * norm * s, ra * c, rb * s, c * c, s * s, norm);
  }

  lemma DotTimes(a: int, b: int, s: int, c: int, norm: int)
    ensures (a * c + b * s) * norm == a * norm * c + b * norm * s
  {
  }

  lemma AddUp(total: int, p: int, q: int, x: int, y: int, cc: int, ss: int, norm: int)
    requires total == p + q && norm == ss + cc
    requires p <= x * (W * W) + 4 * (W * W * W) && q <= y * (W * W) + 5 * (W * W * W)
    requires x <= cc + 2 * W && y <= ss + 3 * W
    ensures total <= W * W * norm + 14 * (W * W * W)
  {
  }

  lemma WithinTimes(x: int, a: int, norm: int, n: int, c: int)
    requires Within(x, a * norm, n) && n >= 0 && Abs(c) <= W
    ensures a * norm * c <= x * c * (W * W) + n * (W * W * W)
  {
    var d := x * (W * W) - a * norm;
    MagnitudeBound(d, c, n * (W * W), W);
    assert d * c == x * c * (W * W) - a * norm * c;
  }

  lemma TimesItself(x: int, c: int, n: int)
    requires Abs(x) <= Abs(c) + n && n >= 0 && Abs(c) <= W
    ensures x * c <= c * c + n * W
  {
    var z: int := Abs(c);
    Signs(x, c);
    Signs(c, c);
    MulMonotone(Abs(x), z + n, z, z);
    MulMonotone(n, n, z, W);
    assert (z + n) * z == z * z + n * z;
  }

  /** The direction's vector is almost as long as the unit. */
  lemma NormNearUnit(a: int, b: int, s: int, c: int, r: int)
    requires W < r && a * a + b * b <= r * r && a * c + b * s >= (r - 4) * W
    ensures s * s + c * c >= (W - 4) * (W - 4)
  {
    var n, norm, dot, across := a * a + b * b, s * s + c * c, a * c + b * s, b * c - a * s;
    LengthIdentity(a, b, s, c);
    SquareNotNegative(across);
    SquareNotNegative(s);
    SquareNotNegative(c);
    assert n * norm >= dot * dot;
    MulBelow(n, r * r, norm);
    CancelLength(r, dot, norm);
  }

  lemma CancelLength(r: int, dot: int, norm: int)
    requires r > W && dot >= (r - 4) * W && dot * dot <= r * r * norm
    ensures norm >= (W - 4) * (W - 4)
  {
    var k := W - 4;
    assert dot >= r * k;
    MulMonotone(r * k, dot, r * k, dot);
    SquareOfProduct(r, k);
    var r2 := r * r;
    MulMonotone(1, r, 1, r);
    if norm < k * k {
      MulStrict(norm, k * k, r2);
    }
  }

  lemma Impossible(r: int, dot: int, norm: int)
    requires dot >= (r - 4) * W && dot * norm <= W * W * norm + 14 * (W * W * W) && norm >= (W - 4) * (W - 4)
    ensures r < W + 19
  {
    if r >= W + 19 {
      Excess(r - 4 - W, dot, norm);
    }
  }

  lemma Excess(k: int, dot: int, norm: int)
    requires k >= 15 && dot >= (W + k) * W && norm >= (W - 4) * (W - 4)
    ensures dot * norm > W * W * norm + 14 * (W * W * W)
  {
    MulBelow((W + k) * W, dot, norm);
    assert (W + k) * W * norm == W * W * norm + W * (k * norm);
    MulBelow(15, k, norm);
  }

  /**
   For every vector longer than `W + 18` there is an angle at which it does not come back: with
   `CircleRoundTrip` this fixes, to 24 units in 2^31, how long a vector may be for the round trip
   to hold at every angle.
   */
  lemma OutsideFails(alpha: int32, beta: int32)
    requires alpha as int * alpha + beta as int * beta > (W + 18) * (W + 18)
    ensures exists sin: int32, cos: int32 :: IsAngle(sin, cos) && !ComesBack(alpha, beta, sin, cos)
  {
    hide Mul31, Within, InUnitCircle, Direct, Quadrature, InvAlpha, InvBeta;
    var sin, cos, r := Facing(alpha, beta);
    LongerThan(alpha as int * alpha + beta as int * beta, r, W + 18);
    FacingSaturates(alpha, beta, sin, cos, r);
    var id, iq := Direct(alpha, beta, sin, cos), Quadrature(alpha, beta, sin, cos);
    ReturnBound(id, iq, sin, cos);
    if ComesBack(alpha, beta, sin, cos) {
      TooLong(alpha, beta, sin, cos, InvAlpha(id, iq, sin, cos), InvBeta(id, iq, sin, cos),
              sin as int * sin + cos as int * cos, alpha as int * cos + beta as int * sin);
      Impossible(r, alpha as int * cos + beta as int * sin, sin as int * sin + cos as int * cos);
    }
    assert IsAngle(sin, cos) && !ComesBack(alpha, beta, sin, cos);
  }
}
