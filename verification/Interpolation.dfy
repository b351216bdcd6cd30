/**
 Linear interpolation in a table of Q31 values, `arm_linear_interp_q31`: the top 12 bits of the
 argument select a cell of the table, the other 20 are the position inside it.
 */
module Interpolation {
  import opened Arithmetic
  import opened Bits
  import opened Saturation

  const CELL := 0x10_0000
  const W: int := 0x8000_0000

  /** `(x & 0xFFF00000) >> 20`; the mask is unsigned, so the shift brings in no sign. */
  function Index(x: int32): nat {
    Bitwise(And, ToUint32(x), 0xFFF0_0000) / CELL
  }

  /** `(x & 0x000FFFFF) << 11`, the position in the cell as a Q31 fraction. */
  function Fraction(x: int32): int {
    ToInt32(Bitwise(And, ToUint32(x), 0x000F_FFFF) * 0x800)
  }

  /** The value between `y0` and `y1`, with every conversion the source makes. */
  function Blend(y0: int32, y1: int32, fract: int): int32 {
    var y := ToInt32(y0 * (0x7FFF_FFFF - fract) / 0x1_0000_0000);
    var sum := ToInt32(y as int + ToInt32(y1 * fract / 0x1_0000_0000));
    ToInt32(sum as int * 2)
  }

  /**
   The interpolated value. The source's second test, for a negative index, is left out here: the
   index is a natural number, so that test never succeeds.
   */
  function LinearInterp(table: seq<int32>, x: int32): int32
    requires 0 < |table| <= 0x8000_0000
  {
    if Index(x) >= |table| - 1 then table[|table| - 1]
    else Blend(table[Index(x)], table[Index(x) + 1], Fraction(x))
  }

  // ---------- the two fields of the argument ----------

  lemma Fields(x: int32)
    ensures Index(x) == ToUint32(x) / CELL < 0x1000
    ensures Fraction(x) == ToUint32(x) % CELL * 0x800
  {
    hide Bitwise, Shl, Pow2;
    var w: int := ToUint32(x);
    var hi, lo := w / CELL, w % CELL;
    assert Pow2(20) == CELL && Pow2(12) == 0x1000 by { PowersHere(); }
    ShlIsProduct(hi, 20);
    ShlIsProduct(0xFFF, 20);
    WithZero(lo);
    WithOnes(12, hi);
    Split(And, 20, hi, lo, 0xFFF, 0);
    LowMask(20, hi, lo);
  }

  lemma PowersHere()
    ensures Pow2(20) == CELL && Pow2(12) == 0x1000
  {
    Pow2Values();
    Pow2Add(8, 4);
    Pow2Add(12, 8);
  }

  // ---------- inside a cell ----------

  /**
   The two terms and their doubled sum stay in range, even when both neighbours are -2^31: the
   fraction is even, so the first floor is the only one that rounds there.
   */
  lemma NoOverflow(y0: int32, y1: int32, fract: int)
    requires 0 <= fract < W && fract % 2 == 0
    ensures var p, q := y0 * (W - 1 - fract) / 0x1_0000_0000, y1 * fract / 0x1_0000_0000;
            && -0x4000_0000 <= p + q < 0x4000_0000
            && -0x4000_0000 <= p < 0x4000_0000 && -0x4000_0000 <= q < 0x4000_0000
  {
    var a := W - 1 - fract;
    var half := fract / 2;
    MulBelow(-W, y0, a);
    MulBelow(y0, W - 1, a);
    MulBelow(-W, y1, fract);
    MulBelow(y1, W - 1, fract);
    DivMonotone(-W * a, y0 * a, 0x1_0000_0000);
    DivMonotone(-W * fract, y1 * fract, 0x1_0000_0000);
    assert -W * a / 0x1_0000_0000 == half - 0x4000_0000;
    assert -W * fract / 0x1_0000_0000 == -half;
    FloorGap(y0 * a, 0x1_0000_0000);
    FloorGap(y1 * fract, 0x1_0000_0000);
  }

  lemma BlendIsDoubledSum(y0: int32, y1: int32, fract: int)
    requires 0 <= fract < W && fract % 2 == 0
    ensures Blend(y0, y1, fract)
         == 2 * (y0 * (W - 1 - fract) / 0x1_0000_0000 + y1 * fract / 0x1_0000_0000)
  {
    hide ToInt32;
    NoOverflow(y0, y1, fract);
    var p, q := y0 * (W - 1 - fract) / 0x1_0000_0000, y1 * fract / 0x1_0000_0000;
    InRange(p);
    InRange(q);
    InRange(p + q);
    InRange((p + q) * 2);
  }

  /** The exact rational interpolant times 2^31. */
  function Exact(y0: int, y1: int, fract: int): int {
    y0 * (W - fract) + y1 * fract
  }

  /**
   Inside a cell the result is less than 5 units below and at most 1 unit above the exact
   interpolant of the two neighbours, for all neighbours and all positions.
   */
  lemma CellError(table: seq<int32>, x: int32)
    requires 0 < |table| <= 0x8000_0000 && Index(x) < |table| - 1
    ensures var exact := Exact(table[Index(x)], table[Index(x) + 1], Fraction(x));
            -5 * W < LinearInterp(table, x) * W - exact <= W
  {
    hide Index, Fraction, Blend;
    Fields(x);
    var y0: int, y1: int, f := table[Index(x)], table[Index(x) + 1], Fraction(x);
    BlendIsDoubledSum(y0, y1, f);
    FloorGap(y0 * (W - 1 - f), 0x1_0000_0000);
    FloorGap(y1 * f, 0x1_0000_0000);
    assert y0 * (W - f) == y0 * (W - 1 - f) + y0;
  }

  /**
   From the last table entry on, the result is that entry. "On" is meant for the argument read
   as an unsigned word, so negative arguments come after all others.
   */
  lemma AboveTable(table: seq<int32>, x: int32)
    requires 0 < |table| <= 0x8000_0000
    ensures ToUint32(x) >= (|table| - 1) * CELL <==> Index(x) >= |table| - 1
    ensures ToUint32(x) >= (|table| - 1) * CELL ==> LinearInterp(table, x) == table[|table| - 1]
  {
    hide Index, Fraction;
    Fields(x);
  }

  /**
   A negative argument reads nothing below entry 2048 but the last entry: two tables that agree
   from there on give the same result, whatever their first entries are.
   */
  lemma BelowReadsTheEnd(table: seq<int32>, other: seq<int32>, x: int32)
    requires 0 < |table| == |other| <= 0x8000_0000 && x < 0
    requires forall i :: 0 <= i < |table| && (i >= 2048 || i == |table| - 1) ==> table[i] == other[i]
    ensures Index(x) >= 2048
    ensures LinearInterp(table, x) == LinearInterp(other, x)
  {
    hide Index, Fraction, Blend;
    Fields(x);
  }

  /**
   Below the table the result is not its first entry, as the second test of the source intends:
   a negative argument has an index of at least 2048, which reads the end of the table, so in a
   table of up to 2049 entries the first entry comes back only if the last one equals it.
   */
  lemma BelowTable(table: seq<int32>, x: int32)
    requires 0 < |table| <= 2049 && x < 0
    ensures LinearInterp(table, x) == table[|table| - 1]
    ensures LinearInterp(table, x) == table[0] <==> table[|table| - 1] == table[0]
  {
    hide Index, Fraction;
    Fields(x);
  }
}
