/**
 The fixed-point reciprocals `arm_recip_q31` and `arm_recip_q15`: a table look-up refined by
 two Newton steps.

 Both work on a normalised argument `w/2 <= a < w`, where `w` is 2^31 or 2^15, and look for an
 `x` with `a * x` close to `w * w / 2`, the scaled 1. All bounds are exact integer statements.
 */
module Reciprocal {
  import opened Arithmetic
  import opened Bits
  import opened Saturation

  const Q31: nat := 0x8000_0000
  const Q15: nat := 0x8000

  predicate Scaled(w: nat, a: int, x: int) {
    w >= 4 && w % 2 == 0 && w / 2 <= a < w && 1 <= x < w
  }

  /** The scaled 1. */
  function One(w: nat): nat { w * (w / 2) }

  /** One Newton step, `x * (w - 1 - floor(a*x / w))`, scaled down by `w / 2`. */
  function Newton(w: nat, a: int, x: int): int
    requires w >= 4
  {
    x * (w - 1 - a * x / w) / (w / 2)
  }

  /** How far `a * x` falls short of the scaled 1. */
  function Error(w: nat, a: int, x: int): int { One(w) - a * x }

  // ---------- one step ----------

  /**
   The divisions of a step: `a*x = w*t + r`, `u = w - 1 - t`, and `x*u = h*y + q`, where `h` is
   half of `w`, `m` the scaled 1 and `y` the result.
   */
  datatype Division =
    Division(w: int, h: int, m: int, a: int, x: int, t: int, r: int, u: int, y: int, q: int)
  {
    ghost predicate Valid() {
      && h >= 2 && w == 2 * h && m == w * h && h <= a < w && 1 <= x < w
      && a * x == w * t + r && 0 <= r < w && u == w - 1 - t
      && x * u == h * y + q && 0 <= q < h
    }

    /** What the first floor and the `w - 1` cut off. */
    function First(): int { a * x * (w - r) }

    /** What the second floor cuts off. */
    function Second(): int { a * w * q }
  }

  function Divide(w: nat, a: int, x: int): (s: Division)
    requires Scaled(w, a, x)
    ensures s.Valid() && s.w == w && s.m == One(w) && s.a == a && s.x == x && s.y == Newton(w, a, x)
    ensures s.t == a * x / w
  {
    DivMod(a * x, w);
    DivMod(x * (w - 1 - a * x / w), w / 2);
    var u := w - 1 - a * x / w;
    Division(w, w / 2, One(w), a, x, a * x / w, a * x % w, u, Newton(w, a, x), x * u % (w / 2))
  }

  /** The quotient of the first division is below `x`, so the factor `u` is positive. */
  lemma FactorPositive(s: Division)
    requires s.Valid()
    ensures 0 <= s.t < s.x && s.u >= 1
  {
    var w, x, t := s.w, s.x, s.t;
    var p, wt := s.a * x, w * t;
    MulMonotone(s.a, w - 1, x, x);
    MulStrict(w - 1, w, x);
    assert p > 0 by { MulMonotone(1, s.a, 1, x); }
    if t >= x {
      MulMonotone(w, w, x, t);
    }
    if t < 0 {
      MulBelow(t, -1, w);
    }
  }

  lemma ResultPositive(s: Division)
    requires s.Valid()
    ensures s.y >= 1
  {
    FactorPositive(s);
    if s.x <= s.h {
      assert s.x * s.u >= s.h by { LargeFactor(s); }
    } else {
      MulMonotone(s.x, s.x, 1, s.u);
    }
    MulSign(s.y, s.h);
  }

  lemma LargeFactor(s: Division)
    requires s.Valid() && s.x <= s.h && 0 <= s.t < s.x
    ensures s.x * s.u >= s.h
  {
    MulMonotone(1, s.x, s.h, s.u);
  }

  /** The algebra of a Newton step: the error squares, and the two floors add what they cut off. */
  lemma ErrorSquares(s: Division)
    requires s.Valid()
    ensures (s.m - s.a * s.y) * s.m == (s.m - s.a * s.x) * (s.m - s.a * s.x) + s.First() + s.Second()
  {
    FactorTimesWord(s);
    Algebra(s.w, s.h, s.m, s.a, s.x, s.r, s.u, s.y, s.q, s.a * s.x);
  }

  lemma Algebra(w: int, h: int, m: int, a: int, x: int, r: int, u: int, y: int, q: int, p: int)
    requires p == a * x && w * u == 2 * m - w - p + r && h * y == x * u - q && m == w * h
    ensures (m - a * y) * m == (m - p) * (m - p) + p * (w - r) + a * w * q
  {
    var target := 2 * m - w - p + r;
    assert a * y * m == a * w * (x * u - q) by { Rearrange(a, y, w, h); }
    assert a * w * (x * u - q) == p * target - a * w * q by { Distribute(a, w, x, u, q); }
    Square(m, p, w, r);
    Difference(m, a * y);
  }

  lemma Difference(m: int, b: int)
    ensures (m - b) * m == m * m - b * m
  {
  }

  lemma Rearrange(a: int, b: int, w: int, h: int)
    ensures a * b * (w * h) == a * w * (h * b)
  {
  }

  lemma Distribute(a: int, w: int, x: int, u: int, q: int)
    ensures a * w * (x * u - q) == a * x * (w * u) - a * w * q
  {
    Rearrange(a, x, w, u);
  }

  lemma Square(m: int, p: int, w: int, r: int)
    ensures m * m - p * (2 * m - w - p + r) == (m - p) * (m - p) + p * (w - r)
  {
  }

  lemma FactorTimesWord(s: Division)
    requires s.Valid()
    ensures s.w * s.u == 2 * s.m - s.w - s.a * s.x + s.r
  {
    WordTimesFactor(s.w, s.h, s.m, s.a * s.x, s.t, s.r, s.u);
  }

  lemma WordTimesFactor(w: int, h: int, m: int, p: int, t: int, r: int, u: int)
    requires w == 2 * h && m == w * h && p == w * t + r && u == w - 1 - t
    ensures w * u == 2 * m - w - p + r
  {
    assert w * (w - 1 - t) == w * w - w - w * t;
    assert w * w == 2 * (w * h);
  }

  /** The second loss is less than one unit of `w * m`. */
  lemma SecondLoss(s: Division)
    requires s.Valid()
    ensures 0 <= s.Second() < s.w * s.m
  {
    SecondLossOf(s.w, s.h, s.m, s.a, s.q, s.a * s.q);
    MulSwap(s.a, s.w, s.q);
  }

  lemma SecondLossOf(w: int, h: int, m: int, a: int, q: int, aq: int)
    requires m == w * h && 0 < a < w && 0 <= q < h && aq == a * q
    ensures 0 <= w * aq < w * m
  {
    MulMonotone(a, w, q, h);
    if q > 0 {
      MulStrict(a, w, q);
    } else {
      MulStrict(0, w, h);
    }
    MulBelow(0, aq, w);
    MulStrict(aq, m, w);
  }

  lemma MulSwap(a: int, b: int, c: int)
    ensures a * b * c == b * (a * c) == a * c * b
  {
  }

  /** The first loss is less than two units, or one below the scaled 1. */
  lemma FirstLoss(s: Division)
    requires s.Valid()
    ensures 0 < s.First() < 2 * s.m * s.w
    ensures s.a * s.x < s.m ==> s.First() < s.m * s.w
  {
    FirstLossOf(s.w, s.h, s.m, s.a, s.x, s.a * s.x, s.w - s.r);
  }

  lemma FirstLossOf(w: int, h: int, m: int, a: int, x: int, p: int, d: int)
    requires h >= 2 && w == 2 * h && m == w * h && h <= a < w && 1 <= x < w && p == a * x && 1 <= d <= w
    ensures 0 < p * d < 2 * m * w && (p < m ==> p * d < m * w)
  {
    assert 1 <= p by { MulMonotone(1, a, 1, x); }
    assert p < 2 * m by {
      MulMonotone(a, w, x, w - 1);
      assert w * (w - 1) == 2 * m - w;
    }
    TimesAtMost(p, 2 * m, d, w);
    if p < m {
      TimesAtMost(p, m, d, w);
    }
  }

  lemma TimesAtMost(p: int, n: int, d: int, w: int)
    requires 1 <= p < n && 1 <= d <= w
    ensures 0 < p * d < n * w
  {
    MulMonotone(1, p, 1, d);
    MulMonotone(p, p, d, w);
    MulStrict(p, n, w);
  }

  /** Both losses together, as one number. */
  lemma Losses(s: Division, loss: int)
    requires s.Valid() && loss == s.First() + s.Second()
    ensures 0 < loss < 3 * s.w * s.m
    ensures s.a * s.x < s.m ==> loss < 2 * s.w * s.m
  {
    FirstLoss(s);
    SecondLoss(s);
    var first, second, unit := s.First(), s.Second(), s.w * s.m;
    Units(s.m, s.w);
    assert 0 < first < 2 * unit && 0 <= second < unit;
  }

  lemma Units(m: int, w: int)
    ensures 2 * m * w == 2 * (w * m) == 2 * w * m && m * w == w * m && 3 * w * m == 3 * (w * m)
  {
  }

  /**
   One step, from any positive start: the result is positive and below `w`, so the clip that
   follows never acts; it never overestimates; and the relative error `e` becomes less than
   `e*e + 6/w`, the floors and the `w - 1` costing at most `2/w` each.
   */
  lemma NewtonStep(w: nat, a: int, x: int)
    requires Scaled(w, a, x)
    ensures Scaled(w, a, Newton(w, a, x))
    ensures Error(w, a, Newton(w, a, x)) > 0
    ensures Error(w, a, Newton(w, a, x)) * One(w) < Error(w, a, x) * Error(w, a, x) + 3 * w * One(w)
    ensures Error(w, a, x) > 0 ==>
              Error(w, a, Newton(w, a, x)) * One(w) < Error(w, a, x) * Error(w, a, x) + 2 * w * One(w)
  {
    hide Newton, One;
    StepCore(Divide(w, a, x));
  }

  lemma StepCore(s: Division)
    requires s.Valid()
    ensures 1 <= s.y < s.w && s.a * s.y < s.m
    ensures (s.m - s.a * s.y) * s.m < (s.m - s.a * s.x) * (s.m - s.a * s.x) + 3 * s.w * s.m
    ensures s.a * s.x < s.m ==>
              (s.m - s.a * s.y) * s.m < (s.m - s.a * s.x) * (s.m - s.a * s.x) + 2 * s.w * s.m
  {
    hide s.First, s.Second;
    var loss, e := s.First() + s.Second(), s.m - s.a * s.x;
    ResultPositive(s);
    ErrorSquares(s);
    Losses(s, loss);
    SquareNotNegative(e);
    Conclude(s.w, s.h, s.m, s.a, s.y, e * e, loss);
  }

  lemma Conclude(w: int, h: int, m: int, a: int, y: int, square: int, loss: int)
    requires w == 2 * h && m == w * h && 0 < h <= a && (m - a * y) * m == square + loss
    requires square >= 0 && loss > 0
    ensures a * y < m && y < w
  {
    assert m > 0 by { MulSign(w, h); }
    MulSign(m - a * y, m);
    if y >= w {
      MulMonotone(h, a, w, y);
    }
  }

  // ---------- both steps ----------

  /**
   Both steps together: whatever the table entry, the result is an underestimate and its
   relative error is less than `(e0*e0 + 6/w) * (e0*e0 + 6/w) + 4/w`, `e0` being the entry's.
   */
  lemma TwoSteps(w: nat, a: int, x0: int)
    requires Scaled(w, a, x0)
    ensures Scaled(w, a, Newton(w, a, x0)) && Scaled(w, a, Newton(w, a, Newton(w, a, x0)))
    ensures var m := One(w);
            var error := Error(w, a, Newton(w, a, Newton(w, a, x0)));
            var bound := Error(w, a, x0) * Error(w, a, x0) + 3 * w * m;
            && 0 < error
            && error * m * (m * m) < bound * bound + 2 * w * m * (m * m)
  {
    hide Newton, One, Error;
    var x1 := Newton(w, a, x0);
    NewtonStep(w, a, x0);
    NewtonStep(w, a, x1);
    OnePositive(w);
    Compose(One(w), Error(w, a, x1), Error(w, a, Newton(w, a, x1)),
            Error(w, a, x0) * Error(w, a, x0) + 3 * w * One(w), 2 * w * One(w));
  }

  lemma OnePositive(w: nat)
    requires w >= 4
    ensures One(w) > 0
  {
    MulMonotone(1, w, 1, w / 2);
  }

  lemma Compose(m: int, e1: int, e2: int, bound: int, slack: int)
    requires m > 0 && e1 > 0 && e1 * m < bound && e2 * m < e1 * e1 + slack
    ensures e2 * m * (m * m) < bound * bound + slack * (m * m)
  {
    var c, mm := e1 * m, m * m;
    assert c > 0 by { MulSign(e1, m); }
    assert mm > 0 by { MulSign(m, m); }
    assert c * c <= bound * bound by { MulMonotone(c, bound, c, bound); }
    assert c * c == e1 * e1 * mm;
    assert (e2 * m) * mm < (e1 * e1 + slack) * mm by { MulStrict(e2 * m, e1 * e1 + slack, mm); }
  }

  // ---------- the two functions ----------

  /** `x & INDEX_MASK`. */
  function IndexOf(x: int): nat {
    Bitwise(And, ToUint32(x), 0x3F)
  }

  lemma IndexIsRemainder(x: int)
    ensures IndexOf(x) == x % 64
  {
    hide Bitwise, Shl;
    var w: int := ToUint32(x);
    assert Pow2(6) == 64;
    ShlIsProduct(w / 64, 6);
    DivMod(w, 64);
    LowMask(6, w / 64, w % 64);
    WordRemainder(x);
  }

  lemma WordRemainder(x: int)
    ensures ToUint32(x) % 64 == x % 64
  {
    var h, w: int := x / 0x1_0000_0000, ToUint32(x);
    DivisionUnique(x, 64, 0x400_0000 * h + w / 64, w % 64);
  }

  /** The index is the six bits below the leading one, and always inside the table. */
  lemma LookUp31(a: int)
    ensures IndexOf(a / 0x100_0000) == a / 0x100_0000 % 64
    ensures 0x4000_0000 <= a < 0x8000_0000 ==> IndexOf(a / 0x100_0000) == a / 0x100_0000 - 64
  {
    hide IndexOf;
    IndexIsRemainder(a / 0x100_0000);
  }

  lemma LookUp15(a: int)
    ensures IndexOf(a / 0x100) == a / 0x100 % 64
    ensures 0x4000 <= a < 0x8000 ==> IndexOf(a / 0x100) == a / 0x100 - 64
  {
    hide IndexOf;
    IndexIsRemainder(a / 0x100);
  }

  /** The loop body of `arm_recip_q31`, with the conversions it makes between signed and unsigned. */
  function Iterate31(a: int32, out: uint32): (r: uint32)
    requires out <= Q31_MAX
    ensures r <= Q31_MAX
  {
    var t := ToUint32(ToInt32(a * out / Q31));
    var u := ToUint32(0x7FFF_FFFF - t);
    Product64(out, u);
    var y := out * u / 0x4000_0000;
    SmallUnsigned(ClipQ63ToQ31(y));
    ToUint32(ClipQ63ToQ31(y))
  }

  lemma Product64(x: int, u: int)
    requires 0 <= x < Q31 && 0 <= u < 0x1_0000_0000
    ensures 0 <= x * u / 0x4000_0000 < 0x8000_0000_0000_0000
  {
    MulMonotone(x, Q31, u, 0x1_0000_0000);
  }

  /** No conversion loses anything when the quotient fits 31 bits, with or without its sign. */
  lemma IterateParts31(a: int32, x: uint32, t: int, x': int)
    requires x <= Q31_MAX && t == a * x / Q31 && -0x8000_0000 <= t < 0x8000_0000
    requires x' == x * (0x7FFF_FFFF - t) / 0x4000_0000 && x' >= 0
    ensures Iterate31(a, x) == if x' <= Q31_MAX then x' else Q31_MAX
  {
    hide ToInt32, ToUint32, ClipQ63ToQ31;
    WrapsBack(t);
    Product64(x, 0x7FFF_FFFF - t);
    SmallUnsigned(if x' <= Q31_MAX then x' else Q31_MAX);
  }

  lemma WrapsBack(t: int)
    requires -0x8000_0000 <= t < 0x8000_0000
    ensures ToUint32(0x7FFF_FFFF - ToUint32(ToInt32(t))) == 0x7FFF_FFFF - t
  {
  }

  /** For a positive argument no conversion loses anything and the clip does nothing. */
  lemma IterateIsNewton31(a: int32, x: uint32)
    requires Scaled(Q31, a, x)
    ensures Iterate31(a, x) == Newton(Q31, a, x)
    ensures Scaled(Q31, a, Iterate31(a, x))
  {
    hide One, Iterate31;
    var s := Divide(Q31, a, x);
    FactorPositive(s);
    NewtonStep(Q31, a, x);
    IterateParts31(a, x, s.t, Newton(Q31, a, x));
  }

  /** For a negative argument the factor is at least 2^31, so the value at least doubles or clips. */
  lemma IterateNegative31(a: int32, x: uint32)
    requires Q31_MIN <= a < 0 && 1 <= x <= Q31_MAX
    ensures var y := x * (0x7FFF_FFFF - a * x / 0x8000_0000) / 0x4000_0000;
            y >= 2 * x && Iterate31(a, x) == if y > 0x7FFF_FFFF then 0x7FFF_FFFF else y
  {
    var t: int := a * x / Q31;
    NegativeQuotient(a, x);
    var u: int := 0x7FFF_FFFF - t;
    MulMonotone(x, x, Q31, u);
    Product64(x, u);
    assert x * u / 0x4000_0000 >= 2 * x;
    IterateParts31(a, x, t, x * u / 0x4000_0000);
  }

  lemma NegativeQuotient(a: int, x: int)
    requires Q31_MIN <= a < 0 && 1 <= x
    ensures -x <= a * x / Q31 < 0
  {
    MulMonotone(1, -a, 1, x);
    MulMonotone(-a, Q31, x, x);
    assert a * x == -(-a * x);
  }

  /** The two passes of the loop from the table entry `x0`. */
  lemma TwoPasses31(a: int32, x0: uint32)
    requires a != 0 && 1 <= x0 <= Q31_MAX && (a > 0 ==> Scaled(Q31, a, x0))
    ensures var out := Iterate31(a, Iterate31(a, x0));
            && out >= 1
            && (a > 0 ==> out == Newton(Q31, a, Newton(Q31, a, x0)) && Error(Q31, a, out) > 0)
  {
    hide Iterate31, Newton, One, Error;
    if a > 0 {
      IterateIsNewton31(a, x0);
      IterateIsNewton31(a, Iterate31(a, x0));
      NewtonStep(Q31, a, Iterate31(a, x0));
    } else {
      IterateNegative31(a, x0);
      IterateNegative31(a, Iterate31(a, x0));
    }
  }

  /** Shifting out the sign bits puts the leading one right below the sign. */
  lemma Normalised(x: nat, zeros: nat, bits: nat)
    requires 1 <= bits <= 31 && 0 < x < Pow2(bits) && zeros <= 31
    requires Pow2(31 - zeros) <= x < Pow2(32 - zeros)
    ensures 32 - bits <= zeros
    ensures Pow2(bits - 1) <= x * Pow2(zeros - (32 - bits)) < Pow2(bits)
  {
    if zeros < 32 - bits {
      Pow2Monotone(bits, 31 - zeros);
      assert false;
    }
    var s: nat := zeros - (32 - bits);
    Pow2Add(31 - zeros, s);
    Pow2Add(32 - zeros, s);
    MulMonotone(Pow2(31 - zeros), x, Pow2(s), Pow2(s));
    MulStrict(x, Pow2(32 - zeros), Pow2(s));
  }

  /**
   `dst` and the returned shift for every argument on which the source is defined: zero would
   keep the leading-zero loop running for ever, and the most negative value has no negation.
   The shift is the one that normalises the argument, and `dst` two passes of the loop body.

   The reciprocal is right in sign exactly for positive arguments, since `dst` is always
   positive; for those, with `a` the normalised argument, it is the two-step refinement of the
   table entry at the six bits below the leading one, whose accuracy is `TwoSteps`.
   */
  method RecipQ31(input: int32, table: seq<int32>) returns (dst: int32, shift: uint32)
    requires input != 0 && input != Q31_MIN
    requires |table| == 64 && forall i :: 0 <= i < 64 ==> table[i] >= 1
    ensures 1 <= shift <= 31
    ensures var a := input * Pow2(shift - 1);
            && 0x4000_0000 <= Abs(a) < 0x8000_0000
            && dst == Iterate31(a, Iterate31(a, table[a / 0x100_0000 % 64]))
    ensures 1 <= dst
    ensures input as int * dst > 0 <==> input > 0
    ensures input > 0 ==>
              var a := input * Pow2(shift - 1);
              && Q31 / 2 <= a < Q31
              && var x0 := table[a / 0x100_0000 - 64];
              && dst == Newton(Q31, a, Newton(Q31, a, x0))
              && 0 < Error(Q31, a, dst)
  {
    hide Newton, Iterate31, One, Error, IndexOf, ToInt32, Pow2;
    var zeros := Clz(Abs(input));
    Argument31(input, zeros);
    var signBits := zeros - 1;
    var a := ToInt32(input * Pow2(signBits));
    var index := IndexOf(a / 0x100_0000);
    var out: uint32 := table[index];
    TwoPasses31(a, out);
    var i := 0;
    while i < 2
      invariant 0 <= i <= 2
      invariant out <= Q31_MAX
      invariant out == if i == 0 then table[index] else if i == 1 then Iterate31(a, table[index])
                       else Iterate31(a, Iterate31(a, table[index]))
    {
      out := Iterate31(a, out);
      i := i + 1;
    }
    dst := ToInt32(out);
    InRange(out);
    MulSign(input, dst);
    shift := signBits + 1;
  }

  lemma NormalisedArgument(input: int, zeros: nat, bits: nat)
    requires input != 0 && 1 <= bits <= 31 && -(Pow2(bits) as int) < input < Pow2(bits) && zeros <= 31
    requires Pow2(31 - zeros) <= Abs(input) < Pow2(32 - zeros)
    ensures 32 - bits <= zeros
    ensures var a := input * Pow2(zeros - (32 - bits));
            if input > 0 then Pow2(bits - 1) <= a < Pow2(bits)
            else -(Pow2(bits) as int) < a <= -(Pow2(bits - 1) as int)
  {
    Pow2Monotone(bits, 31);
    Normalised(Abs(input), zeros, bits);
    NegatedProduct(input, Pow2(zeros - (32 - bits)));
  }

  lemma HalfPowers()
    ensures Pow2(31) == Q31 && Pow2(30) == Q31 / 2 && Pow2(15) == Q15 && Pow2(14) == Q15 / 2
  {
    Pow2Values();
    assert Pow2(31) == 2 * Pow2(30) && Pow2(15) == 2 * Pow2(14);
  }

  lemma Argument31(input: int32, zeros: nat)
    requires input != 0 && input != Q31_MIN && zeros <= 31
    requires Pow2(31 - zeros) <= Abs(input) < Pow2(32 - zeros)
    ensures 1 <= zeros
    ensures var a := input * Pow2(zeros - 1);
            && ToInt32(a) == a && Q31 / 2 <= Abs(a) < Q31 && IndexOf(a / 0x100_0000) == a / 0x100_0000 % 64
            && (input > 0 ==> Q31 / 2 <= a < Q31 && IndexOf(a / 0x100_0000) == a / 0x100_0000 - 64)
  {
    hide IndexOf, Pow2;
    HalfPowers();
    NormalisedArgument(input, zeros, 31);
    LookUp31(input * Pow2(zeros - 1));
  }

  lemma Argument15(input: int16, zeros: nat)
    requires input != 0 && input != -0x8000 && zeros <= 31
    requires Pow2(31 - zeros) <= Abs(input) < Pow2(32 - zeros)
    ensures 17 <= zeros
    ensures var a := input * Pow2(zeros - 17);
            && ToInt16(a) == a && Q15 / 2 <= Abs(a) < Q15 && IndexOf(a / 0x100) == a / 0x100 % 64
            && (input < 0 ==> -0x8000 < a <= -0x4000)
            && (input > 0 ==> Q15 / 2 <= a < Q15 && IndexOf(a / 0x100) == a / 0x100 - 64)
  {
    hide IndexOf, Pow2;
    HalfPowers();
    NormalisedArgument(input, zeros, 15);
    LookUp15(input * Pow2(zeros - 17));
  }

  /** The loop body of `arm_recip_q15`: the products are 32-bit unsigned, the results 16-bit signed. */
  function Iterate15(a: int16, out: uint32): uint32 {
    var t := ToUint32(ToInt16(ToUint32(a * out) / Q15));
    var u := ToUint32(0x7FFF - t);
    ToUint32(ToInt16(ToUint32(ToInt32(out) * u) / 0x4000))
  }

  /** One pass on signed values: the Newton step, wrapped to 16 bits. */
  function Pass15(a: int16, x: int16): int16 {
    ToInt16(Newton(Q15, a, x))
  }

  /** The loop body is that pass for every signed value, positive or negative. */
  lemma IterateIsPass15(a: int16, x: int16)
    requires -0x8000 < a
    ensures Iterate15(a, ToUint32(x)) == ToUint32(Pass15(a, x))
  {
    hide ToInt32, ToInt16, ToUint32;
    var p := a as int * x;
    var t := p / Q15;
    WrapProduct(a, x);
    WrapShift(p, Q15);
    SmallQuotient(a, x);
    WrapFactor(t);
    SignedBack(x);
    WrapShift(x * (0x7FFF - t), 0x4000);
  }

  lemma WrapProduct(a: int, x: int)
    ensures ToUint32(a * ToUint32(x)) == ToUint32(a * x)
  {
    var s, w := x / 0x1_0000_0000, ToUint32(x);
    assert a * x == a * w + 0x1_0000_0000 * (a * s) by { MulSplit(a, w, s); }
    SameRemainder(a * x, a * w, a * s);
  }

  lemma MulSplit(a: int, w: int, s: int)
    ensures a * (w + 0x1_0000_0000 * s) == a * w + 0x1_0000_0000 * (a * s)
  {
  }

  lemma SameRemainder(x: int, y: int, k: int)
    requires x == y + 0x1_0000_0000 * k
    ensures ToUint32(x) == ToUint32(y)
  {
    DivisionUnique(x, 0x1_0000_0000, y / 0x1_0000_0000 + k, y % 0x1_0000_0000);
  }

  /** A logical shift of the low word agrees with the arithmetic shift in the low 16 bits. */
  lemma WrapShift(p: int, d: nat)
    requires d == 0x4000 || d == 0x8000
    ensures ToInt16(ToUint32(p) / d) == ToInt16(p / d)
  {
    var h, w, c := p / 0x1_0000_0000, ToUint32(p), 0x1_0000_0000 / d;
    assert w == d * (w / d) + w % d;
    DivisionUnique(p, d, c * h + w / d, w % d);
    var k := if d == 0x4000 then 4 else 2;
    DivisionUnique(p / d, 0x1_0000, k * h + w / d / 0x1_0000, w / d % 0x1_0000);
  }

  lemma SmallQuotient(a: int16, x: int16)
    requires -0x8000 < a
    ensures ToInt16(a as int * x / Q15) == a as int * x / Q15
  {
    MagnitudeBound(a, x, Q15 - 1, Q15);
    FloorGap(a as int * x, Q15);
  }

  lemma WrapFactor(t: int)
    requires -0x8000 <= t < 0x8000
    ensures ToUint32(0x7FFF - ToUint32(t)) == 0x7FFF - t
  {
    SameRemainder(0x7FFF - ToUint32(t), 0x7FFF - t, t / 0x1_0000_0000);
  }

  lemma SignedBack(x: int16)
    ensures ToInt32(ToUint32(x)) == x && ToInt16(ToUint32(x)) == x
  {
  }

  lemma PassIsNewton15(a: int16, x: int16)
    requires Scaled(Q15, a, x)
    ensures Pass15(a, x) == Newton(Q15, a, x) && Scaled(Q15, a, Pass15(a, x))
  {
    NewtonStep(Q15, a, x);
  }

  /** For a positive argument no conversion loses anything. */
  lemma TwoPasses15(a: int16, x0: int16)
    requires Scaled(Q15, a, x0)
    ensures var out := Pass15(a, Pass15(a, x0));
            Scaled(Q15, a, out) && out == Newton(Q15, a, Newton(Q15, a, x0)) && Error(Q15, a, out) > 0
  {
    hide Pass15, Newton, One, Error;
    PassIsNewton15(a, x0);
    PassIsNewton15(a, Pass15(a, x0));
    NewtonStep(Q15, a, Pass15(a, x0));
  }

  // ---------- negative arguments ----------

  /**
   A step with argument and value both negative is again a Newton step: it stays negative except
   in one corner, stays in range, and the error squares, the floors now costing `2/w` on the one
   side and `4/w` on the other.
   */
  lemma MirroredStep(w: nat, a: int, x: int)
    requires w >= 4 && w % 2 == 0 && -(w as int) < a <= -(w / 2) && -(w as int) <= x < 0
    ensures -(w as int) <= Newton(w, a, x) <= 0
    ensures Newton(w, a, x) == 0 <==> a == 1 - w && x == -(w as int)
    ensures var e, m := Error(w, a, x), One(w);
            e * e - w * m < Error(w, a, Newton(w, a, x)) * m < e * e + 2 * w * m
  {
    hide One, Newton;
    var t, r, u, q := Divisions(w, a, x);
    var h, m, p, y := w / 2, One(w), a * x, Newton(w, a, x);
    assert w * u == 2 * m - w - p + r by { WordTimesFactor(w, h, m, p, t, r, u); }
    NegatedProduct(-a, -x);
    MirroredRange(w, h, m, -a, -x, p, r, u);
    MirroredResult(h, w, x, u, y, q);
    MirroredError(w, h, m, a, x, p, r, u, y, q, m - p);
  }

  lemma Divisions(w: nat, a: int, x: int) returns (t: int, r: int, u: int, q: int)
    requires w >= 4 && w % 2 == 0
    ensures a * x == w * t + r && 0 <= r < w && u == w - 1 - t
    ensures x * u == w / 2 * Newton(w, a, x) + q && 0 <= q < w / 2
    ensures One(w) == w * (w / 2)
  {
    t, r := a * x / w, a * x % w;
    u := w - 1 - t;
    q := x * u % (w / 2);
    DivMod(a * x, w);
    DivMod(x * u, w / 2);
  }

  lemma MirroredError(w: int, h: int, m: int, a: int, x: int, p: int, r: int, u: int, y: int, q: int, e: int)
    requires h >= 2 && w == 2 * h && m == w * h && -w < a <= -h && e == m - p
    requires p == a * x && 0 < p < w * w && 0 <= r < w && w * u == 2 * m - w - p + r
    requires x * u == h * y + q && 0 <= q < h
    ensures e * e - w * m < (m - a * y) * m < e * e + 2 * w * m
  {
    var first, second := p * (w - r), -a * (w * q);
    assert (m - a * y) * m == e * e + first - second by {
      Algebra(w, h, m, a, x, r, u, y, q, p);
      SignOut(a, w, q);
    }
    SquareOfWord(w, h, m);
    LossBelow(w, m, p, w - r);
    SecondMirrored(w, h, m, -a, q);
  }

  lemma SignOut(a: int, w: int, q: int)
    ensures a * w * q == -(-a * (w * q))
  {
    MulSwap(a, w, q);
    MulSwap(-a, w, q);
    NegatedProduct(a, q);
    NegatedProduct(w, a * q);
    assert -a * (w * q) == w * (-a * q);
  }

  /** With the magnitudes `b` and `z`: the factor is not negative, and the product fits. */
  lemma MirroredRange(w: int, h: int, m: int, b: int, z: int, p: int, r: int, u: int)
    requires h >= 2 && w == 2 * h && m == w * h && h <= b < w && 1 <= z <= w
    requires p == b * z && 0 <= r < w && w * u == 2 * m - w - p + r
    ensures 0 < p < w * w
    ensures u >= 0 && (u == 0 <==> b == w - 1 && z == w)
    ensures z * u <= h * w
  {
    assert w * w == 2 * m;
    MulMonotone(1, b, 1, z);
    CornerOnly(w, b, z);
    FactorSign(w, p, r, u);
    ProductFits(w, h, m, b, z, p, u);
  }

  lemma CornerOnly(w: int, b: int, z: int)
    requires w >= 4 && 1 <= b < w && 1 <= z <= w
    ensures b * z <= w * w - w
    ensures b * z == w * w - w <==> b == w - 1 && z == w
  {
    if z < w {
      MulMonotone(b, w - 1, z, w - 1);
      SquareBelow(w);
    } else if b < w - 1 {
      MulBelow(b, w - 2, w);
    }
  }

  lemma SquareBelow(w: int)
    ensures (w - 1) * (w - 1) == w * w - 2 * w + 1
  {
  }

  lemma FactorSign(w: int, p: int, r: int, u: int)
    requires w >= 4 && p <= w * w - w && 0 <= r < w && w * u == w * w - w - p + r
    ensures u >= 0 && (u == 0 <==> p == w * w - w)
  {
    if u < 0 {
      MulBelow(u, -1, w);
    } else if u > 0 {
      MulBelow(1, u, w);
    }
  }

  /** `z * (2 - b*z / m)` is largest where `b` is smallest and `z` is `w`. */
  lemma ProductFits(w: int, h: int, m: int, b: int, z: int, p: int, u: int)
    requires h >= 2 && w == 2 * h && m == w * h && h <= b && 1 <= z <= w && p == b * z
    requires w * u <= 2 * m - p
    ensures z * u <= h * w
  {
    assert z * (w * u) <= z * (2 * m - p) by { MulBelow(w * u, 2 * m - p, z); }
    assert h * z <= p by { MulBelow(h, b, z); }
    assert z * (2 * m - p) <= z * (2 * m - h * z) by { MulBelow(2 * m - p, 2 * m - h * z, z); }
    assert z * (2 * m - h * z) == h * (z * (2 * w - z)) by { FactorOut(z, w, h, m); }
    SquareNotNegative(w - z);
    assert z * (2 * w - z) == w * w - (w - z) * (w - z);
    assert h * (z * (2 * w - z)) <= h * (w * w) by { MulBelow(z * (2 * w - z), w * w, h); }
    CancelWord(w, h, z, u);
  }

  lemma FactorOut(z: int, w: int, h: int, m: int)
    requires m == w * h
    ensures z * (2 * m - h * z) == h * (z * (2 * w - z))
  {
  }

  lemma CancelWord(w: int, h: int, z: int, u: int)
    requires w > 0 && z * (w * u) <= h * (w * w)
    ensures z * u <= h * w
  {
    assert z * (w * u) == w * (z * u) && h * (w * w) == w * (h * w);
    if z * u > h * w {
      MulStrict(h * w, z * u, w);
    }
  }

  lemma MirroredResult(h: int, w: int, x: int, u: int, y: int, q: int)
    requires h >= 2 && x < 0 && u >= 0 && -x * u <= h * w && x * u == h * y + q && 0 <= q < h
    ensures -w <= y <= 0 && (y == 0 <==> u == 0)
  {
    NegatedProduct(x, u);
    if u > 0 {
      MulMonotone(1, -x, 1, u);
    }
    if y < -w {
      MulBelow(y, -w - 1, h);
    } else if y >= 1 {
      MulBelow(1, y, h);
    }
  }

  lemma SquareOfWord(w: int, h: int, m: int)
    requires w == 2 * h && m == w * h
    ensures w * w == 2 * m
  {
  }

  lemma SecondMirrored(w: int, h: int, m: int, b: int, q: int)
    requires m == w * h && 0 < b < w && 0 <= q < h
    ensures 0 <= b * (w * q) < w * m
  {
    SecondLossOf(w, h, m, b, q, b * q);
    MulSwap(b, w, q);
    Associate(b, w, q);
  }

  lemma Associate(a: int, b: int, c: int)
    ensures a * (b * c) == a * b * c
  {
  }

  lemma LossBelow(w: int, m: int, p: int, d: int)
    requires 0 < p < w * w && 1 <= d <= w && w * w == 2 * m
    ensures 0 < p * d < 2 * w * m
  {
    MulMonotone(1, p, 1, d);
    MulBelow(d, w, p);
    MulStrict(p, w * w, w);
    assert w * w * w == (2 * m) * w;
  }

  /** The product that a pass shifts down by 14 bits, `x * (0x7FFF - floor(a*x / 2^15))`. */
  function Product15(a: int, x: int): int {
    x * (0x7FFF - a * x / 0x8000)
  }

  /** Where a pass lands on the negative half of the 16 bits. */
  predicate Wraps(v: int) {
    0x2000_0000 <= v < 0x4000_0000 || 0x6000_0000 <= v
  }

  /** The value a pass leaves otherwise. */
  function Landed(v: int): int {
    v / 0x4000 % 0x1_0000
  }

  /**
   When two passes from a table entry `x0` give a negative argument its sign: the first product
   is in one of two ranges, or else the second one is.
   */
  predicate RightSign15(a: int, x0: int) {
    var v := Product15(a, x0);
    Wraps(v) || Wraps(Product15(a, Landed(v)))
  }

  lemma FirstProduct(a: int16, x: int16)
    requires -0x8000 < a <= -0x4000 && x >= 0
    ensures 0 <= Product15(a, x) < 0x8000_0000
  {
    NegatedProduct(-(a as int), x);
    MulMonotone(0, -(a as int), 0, x);
    MulBelow(-(a as int), 0x8000, x);
    QuotientRange(a as int * x, x);
    MulMonotone(x, 0x7FFF, 0x7FFF - a as int * x / 0x8000, 0xFFFE);
  }

  lemma QuotientRange(p: int, x: int)
    requires -0x8000 * x <= p <= 0 && 0 <= x <= 0x7FFF
    ensures -x <= p / 0x8000 <= 0
  {
  }

  /** Where a pass from a value that is not negative lands, in terms of the product. */
  lemma PassLands(a: int16, x: int16)
    requires -0x8000 < a <= -0x4000 && x >= 0
    ensures Pass15(a, x) < 0 <==> Wraps(Product15(a, x))
    ensures Pass15(a, x) >= 0 ==> Pass15(a, x) == Landed(Product15(a, x))
  {
    FirstProduct(a, x);
    ProductIsNewton(a, x);
    LandsNegative(Product15(a, x));
  }

  lemma ProductIsNewton(a: int16, x: int16)
    ensures Pass15(a, x) == ToInt16(Product15(a, x) / 0x4000)
  {
    hide ToInt16;
  }

  lemma LandsNegative(v: int)
    requires 0 <= v < 0x8000_0000
    ensures ToInt16(v / 0x4000) < 0 <==> Wraps(v)
    ensures ToInt16(v / 0x4000) >= 0 ==> ToInt16(v / 0x4000) == Landed(v)
  {
    var n := v / 0x4000;
    var k := if n < 0x1_0000 then 0 else 1;
    DivisionUnique(n, 0x1_0000, k, n - 0x1_0000 * k);
  }

  /** No table entry leads to the one corner in which a negative first pass loses the sign. */
  lemma CornerNeverReached(x: int16)
    requires x >= 1
    ensures Pass15(-0x7FFF, x) != -0x8000
  {
    hide ToInt16;
    var a: int16, v := -0x7FFF, x as int * (0x7FFF + x);
    DivisionUnique(a as int * x, 0x8000, -(x as int), x);
    ProductIsNewton(a, x);
    assert Product15(a, x) == v;
    if x <= 11994 {
      MulMonotone(x, 11994, 0x7FFF + x, 0x7FFF + 11994);
    } else {
      MulMonotone(11995, x, 0x7FFF + 11995, 0x7FFF + x);
    }
    if x <= 26964 {
      MulMonotone(x, 26964, 0x7FFF + x, 0x7FFF + 26964);
    } else {
      MulMonotone(26965, x, 0x7FFF + 26965, 0x7FFF + x);
    }
    MulMonotone(x, 0x7FFF, 0x7FFF + x, 0xFFFE);
    LeastValue(v);
  }

  /** The products that land on the least value. */
  lemma LeastValue(v: int)
    requires 0 <= v < 0x8000_0000
    ensures ToInt16(v / 0x4000) == -0x8000 ==>
              0x2000_0000 <= v < 0x2000_4000 || 0x6000_0000 <= v < 0x6000_4000
  {
    var n := v / 0x4000;
    var k := if n < 0x1_0000 then 0 else 1;
    DivisionUnique(n, 0x1_0000, k, n - 0x1_0000 * k);
  }

  /**
   For a negative argument and any table entry: a first pass that wraps to a negative value gives
   the right sign, the second pass then losing nothing; and in all, the sign is right exactly
   when the first product is in one of two ranges, or else the second one is.
   */
  lemma NegativePasses15(a: int16, x0: int16)
    requires -0x8000 < a <= -0x4000 && x0 >= 1
    ensures Pass15(a, Pass15(a, x0)) < 0 <==> RightSign15(a, x0)
    ensures var x1 := Pass15(a, x0);
            x1 < 0 ==> Pass15(a, x1) == Newton(Q15, a, x1) < 0
  {
    hide Newton, Pass15;
    var x1 := Pass15(a, x0);
    PassLands(a, x0);
    if x1 < 0 {
      MirroredPass(a, x1);
      if a == -0x7FFF {
        CornerNeverReached(x0);
      }
    } else {
      PassLands(a, x1);
    }
  }

  lemma MirroredPass(a: int16, x: int16)
    requires -0x8000 < a <= -0x4000 && x < 0
    ensures Pass15(a, x) == Newton(Q15, a, x) <= 0
    ensures Pass15(a, x) == 0 <==> a == -0x7FFF && x == -0x8000
  {
    hide Newton;
    MirroredStep(Q15, a, x);
  }

  /**
   Both happen: with the same argument, -2^14, one table entry leads to the wrong sign and
   another one to the right sign.
   */
  lemma NegativeSigns15()
    ensures Pass15(-0x4000, Pass15(-0x4000, 0x6000)) == 4219
    ensures Pass15(-0x4000, Pass15(-0x4000, 0x4000)) == -30720
  {
    hide Newton;
    NewtonValue(-0x4000, 0x6000, -0x3000, 67582);
    NewtonValue(-0x4000, 2046, -1023, 4219);
    NewtonValue(-0x4000, 0x4000, -0x2000, 40959);
    NewtonValue(-0x4000, -24577, 12288, -30720);
  }

  lemma NewtonValue(a: int16, x: int16, t: int, y: int)
    requires t == a as int * x / 0x8000 && y == x * (0x7FFF - t) / 0x4000
    ensures Newton(Q15, a, x) == y && Pass15(a, x) == ToInt16(y)
  {
    hide ToInt16;
  }

  /**
   The 16-bit reciprocal, again for every argument on which the source is defined; for a
   negative one the passes wrap, and the sign is right exactly under `RightSign15`.
   */
  method RecipQ15(input: int16, table: seq<int16>) returns (dst: int16, shift: uint32)
    requires input != 0 && input != -0x8000
    requires |table| == 64 && forall i :: 0 <= i < 64 ==> table[i] >= 1
    ensures 1 <= shift <= 15
    ensures var a := input * Pow2(shift - 1);
            && 0x4000 <= Abs(a) < 0x8000
            && var x0 := table[a / 0x100 % 64];
            && dst == Pass15(a, Pass15(a, x0))
            && (input < 0 ==> a < 0 && (dst < 0 <==> RightSign15(a, x0)))
    ensures input > 0 ==>
              var a := input * Pow2(shift - 1);
              && Q15 / 2 <= a < Q15
              && var x0 := table[a / 0x100 - 64];
              && dst == Newton(Q15, a, Newton(Q15, a, x0))
              && 1 <= dst && 0 < Error(Q15, a, dst)
  {
    hide Newton, Iterate15, Pass15, RightSign15, One, Error, IndexOf, ToInt16, Pow2;
    var zeros := Clz(Abs(input));
    Argument15(input, zeros);
    var signBits := zeros - 17;
    var a := ToInt16(input * Pow2(signBits));
    var index := IndexOf(a / 0x100);
    var out: uint32 := table[index];
    ghost var x0 := table[index];
    SmallUnsigned(x0);
    if input > 0 {
      TwoPasses15(a, x0);
    } else {
      NegativePasses15(a, x0);
    }
    var i := 0;
    while i < 2
      invariant 0 <= i <= 2
      invariant out == ToUint32(if i == 0 then x0 else if i == 1 then Pass15(a, x0) else Pass15(a, Pass15(a, x0)))
    {
      IterateIsPass15(a, if i == 0 then x0 else Pass15(a, x0));
      out := Iterate15(a, out);
      i := i + 1;
    }
    dst := ToInt16(out);
    SignedBack(Pass15(a, Pass15(a, x0)));
    shift := signBits + 1;
  }
}
