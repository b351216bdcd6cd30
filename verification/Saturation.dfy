/**
 The clipping, saturating and bit-counting primitives of `arm_math.h` in the form the
 Cortex-M0+ build selects, and the packed 8- and 16-bit lane operations built on them.
 */
module Saturation {
  import opened Arithmetic
  import opened Bits

  const Q31_MIN: int := -0x8000_0000
  const Q31_MAX: int := 0x7FFF_FFFF

  // ---------- clipping to 32 bits ----------

  /** `v ^ m` for a mask that is 0 or -1: the value itself or its bitwise complement. */
  function XorSign(v: int32, m: int): int32
    requires m == 0 || m == -1
  {
    if m == 0 then v else -1 - v
  }

  /** The shift-and-compare clip is the exact clamp, for every 64-bit argument. */
  function ClipQ63ToQ31(x: int64): (r: int32)
    ensures r == Clamp(Q31_MIN, Q31_MAX, x)
  {
    var high := ToInt32(x / 0x1_0000_0000);
    var sign := ToInt32(x) / 0x8000_0000;
    ClipTest(x);
    if high != sign then XorSign(0x7FFF_FFFF, x / 0x8000_0000_0000_0000) else ToInt32(x)
  }

  /** The high word equals the sign of the low word exactly when the value fits the low word. */
  lemma ClipTest(x: int64)
    ensures ToInt32(x / 0x1_0000_0000) == ToInt32(x) / 0x8000_0000 <==> Q31_MIN <= x <= Q31_MAX
    ensures Q31_MIN <= x <= Q31_MAX ==> ToInt32(x) == x
    ensures x / 0x8000_0000_0000_0000 == if x < 0 then -1 else 0
  {
    var h, l := x / 0x1_0000_0000, x % 0x1_0000_0000;
    assert x == h * 0x1_0000_0000 + l;
    assert ToInt32(h) == h;
    assert ToInt32(x) == ToInt32(l);
  }

  function QAdd(x: int32, y: int32): (r: int32)
    ensures r == Clamp(Q31_MIN, Q31_MAX, x + y)
  {
    ClipQ63ToQ31(x + y)
  }

  function QSub(x: int32, y: int32): (r: int32)
    ensures r == Clamp(Q31_MIN, Q31_MAX, x - y)
  {
    ClipQ63ToQ31(x - y)
  }

  // ---------- saturation to a width ----------

  /** The clamp to `width` signed bits. */
  function Saturate(x: int, width: nat): (r: int)
    requires width > 0
    ensures -(Pow2(width - 1) as int) <= r < Pow2(width - 1)
    ensures -(Pow2(width - 1) as int) <= x < Pow2(width - 1) ==> r == x
  {
    Clamp(-(Pow2(width - 1) as int), Pow2(width - 1) - 1, x)
  }

  /** The doubling loop and the two one-sided tests; a width of 32 would overflow `posMax`. */
  method Ssat(x: int32, y: uint32) returns (r: int32)
    requires 1 <= y <= 31
    ensures r == Saturate(x, y)
  {
    Pow2Monotone(y - 1, 30);
    Pow2Values();
    var posMax: int32 := 1;
    var i := 0;
    while i < y - 1
      invariant 0 <= i <= y - 1
      invariant posMax == Pow2(i)
    {
      Pow2Monotone(i + 1, 30);
      posMax := posMax * 2;
      i := i + 1;
    }
    r := x;
    if x > 0 {
      posMax := posMax - 1;
      if x > posMax {
        r := posMax;
      }
    } else {
      var negMin := -posMax;
      if x < negMin {
        r := negMin;
      }
    }
  }

  // ---------- counting leading zeros ----------

  lemma TopBit(k: nat, u: nat)
    requires u < Pow2(k + 1)
    ensures Bitwise(And, u, Pow2(k)) == 0 <==> u < Pow2(k)
  {
    hide Bitwise, Shl;
    var h, l := if u < Pow2(k) then 0 else 1, if u < Pow2(k) then u else u - Pow2(k);
    ShlIsProduct(h, k);
    ShlIsProduct(1, k);
    WithZero(l);
    WithZero(1);
    WithOnes(1, 1);
    Split(And, k, h, l, 1, 0);
  }

  /**
   The mask walks down from bit 31 to the highest bit set. On zero the mask would run out and
   the loop never end, so the source may only be called with a value that is not zero.
   */
  method Clz(data: int32) returns (count: nat)
    requires data != 0
    ensures count <= 31
    ensures Pow2(31 - count) <= ToUint32(data) < Pow2(32 - count)
  {
    hide Bitwise;
    count := 0;
    var mask: uint32 := 0x8000_0000;
    Pow2Values();
    TopBit(31, ToUint32(data));
    while Bitwise(And, ToUint32(data), mask) == 0
      invariant count <= 31
      invariant mask == Pow2(31 - count)
      invariant 0 < ToUint32(data) < Pow2(32 - count)
      invariant Bitwise(And, ToUint32(data), mask) == 0 <==> ToUint32(data) < mask
      decreases mask
    {
      count := count + 1;
      mask := mask / 2;
      assert mask == Pow2(31 - count);
      TopBit(31 - count, ToUint32(data));
    }
  }

  // ---------- packed lanes ----------

  /** Lane `k` of a packed word, as the signed 8-bit integer it holds. */
  function Lane8(x: int32, k: nat): int8
    requires k < 4
  {
    ToInt8(Byte(ToUint32(x), k))
  }

  function Low16(x: int32): int16 { ToInt16(x) }

  function High16(x: int32): int16 { ToInt16(ToUint32(x) / 0x1_0000) }

  /** The four lanes as the source extracts them: shift up to the sign, then down. */
  function Extract8(x: int32, k: nat): int
    requires k < 4
  {
    if k == 0 then ToInt8(x)
    else if k == 1 then ToInt32(x * 0x1_0000) / 0x100_0000
    else if k == 2 then ToInt32(x * 0x100) / 0x100_0000
    else x / 0x100_0000
  }

  /** `((u << 24) & 0xFF000000) | ((t << 16) & 0x00FF0000) | ((s << 8) & 0x0000FF00) | (r & 0x000000FF)` */
  function Pack8(r: int8, s: int8, t: int8, u: int8): int32 {
    ToInt32(Bitwise(Or, Bitwise(Or, Bitwise(Or,
      Bitwise(And, ToUint32(u * 0x100_0000), 0xFF00_0000),
      Bitwise(And, ToUint32(t * 0x1_0000), 0x00FF_0000)),
      Bitwise(And, ToUint32(s * 0x100), 0x0000_FF00)),
      Bitwise(And, ToUint32(r), 0x0000_00FF)))
  }

  function Sat8(x: int): int8 {
    Pow2Values();
    Saturate(x, 8)
  }

  function Sat16(x: int): int16 {
    Pow2Values();
    Saturate(x, 16)
  }

  function QAdd8(x: int32, y: int32): int32 {
    Pack8(Sat8(Extract8(x, 0) + Extract8(y, 0)), Sat8(Extract8(x, 1) + Extract8(y, 1)),
          Sat8(Extract8(x, 2) + Extract8(y, 2)), Sat8(Extract8(x, 3) + Extract8(y, 3)))
  }

  function QSub8(x: int32, y: int32): int32 {
    Pack8(Sat8(Extract8(x, 0) - Extract8(y, 0)), Sat8(Extract8(x, 1) - Extract8(y, 1)),
          Sat8(Extract8(x, 2) - Extract8(y, 2)), Sat8(Extract8(x, 3) - Extract8(y, 3)))
  }

  /** `((s << 16) & 0xFFFF0000) | (r & 0x0000FFFF)` */
  function Pack16(r: int16, s: int16): int32 {
    ToInt32(Bitwise(Or,
      Bitwise(And, ToUint32(s * 0x1_0000), 0xFFFF_0000),
      Bitwise(And, ToUint32(r), 0x0000_FFFF)))
  }

  function QAdd16(x: int32, y: int32): int32 {
    Pack16(Sat16(ToInt16(x) + ToInt16(y)), Sat16(x / 0x1_0000 + y / 0x1_0000))
  }

  function QSub16(x: int32, y: int32): int32 {
    Pack16(Sat16(ToInt16(x) - ToInt16(y)), Sat16(x / 0x1_0000 - y / 0x1_0000))
  }

  /** A word is recovered from the signed integer with the same bits. */
  lemma SameBits(w: uint32)
    ensures ToUint32(ToInt32(w)) == w
  {
  }

  /** Multiples of 2^32 vanish in a conversion. */
  lemma DropsHigh(low: uint32, q: int)
    ensures ToInt32(low + 0x1_0000_0000 * q) == ToInt32(low)
  {
  }

  /** A signed word as its bytes and its sign. */
  lemma SignedBytes(x: int32)
    ensures x == Byte(ToUint32(x), 0) as int + 0x100 * Byte(ToUint32(x), 1) + 0x1_0000 * Byte(ToUint32(x), 2)
                 + 0x100_0000 * Byte(ToUint32(x), 3) - 0x1_0000_0000 * (if x < 0 then 1 else 0)
  {
    hide Byte;
    WordOfBytes(ToUint32(x));
  }

  lemma ShiftUpDown(x: int, b0: byte, b1: byte, b2: byte, b3: byte, sign: int)
    requires x == b0 + 0x100 * b1 + 0x1_0000 * b2 + 0x100_0000 * b3 - 0x1_0000_0000 * sign
    ensures ToInt32(x * 0x1_0000) / 0x100_0000 == ToInt8(b1)
    ensures ToInt32(x * 0x100) / 0x100_0000 == ToInt8(b2)
    ensures ToInt32(x) / 0x100_0000 == ToInt8(b3)
  {
    hide ToInt32;
    TopByte(b0 * 0x1_0000, b1);
    DropsHigh(b0 * 0x1_0000 + b1 * 0x100_0000, b2 + 0x100 * b3 - 0x1_0000 * sign);
    TopByte(b0 * 0x100 + b1 * 0x1_0000, b2);
    DropsHigh(b0 * 0x100 + b1 * 0x1_0000 + b2 * 0x100_0000, b3 - 0x100 * sign);
    TopByte(b0 + b1 * 0x100 + b2 * 0x1_0000, b3);
    DropsHigh(b0 + b1 * 0x100 + b2 * 0x1_0000 + b3 * 0x100_0000, -sign);
  }

  lemma ExtractIsLane(x: int32, k: nat)
    requires k < 4
    ensures Extract8(x, k) == Lane8(x, k)
  {
    hide Byte, ToInt32;
    var w := ToUint32(x);
    SignedBytes(x);
    ShiftUpDown(x, Byte(w, 0), Byte(w, 1), Byte(w, 2), Byte(w, 3), if x < 0 then 1 else 0);
    InRange(x);
    if k == 0 {
      LowByte(x);
    }
  }

  lemma LowByte(x: int32)
    ensures ToInt8(x) == Lane8(x, 0)
  {
  }

  lemma InRange(x: int32)
    ensures ToInt32(x) == x
  {
  }

  /** An arithmetic shift by 24 leaves the top byte, as a signed integer. */
  lemma TopByte(low: nat, b: byte)
    requires low < 0x100_0000
    ensures ToInt32(low + b * 0x100_0000) / 0x100_0000 == ToInt8(b)
  {
  }

  function Fill(v: int8): byte { if v < 0 then 255 else 0 }

  lemma ShiftedBytes(v: int8)
    ensures var b, f: byte := v % 256, Fill(v);
            && ToUint32(v * 0x100_0000) == Word(0, 0, 0, b) && ToUint32(v * 0x1_0000) == Word(0, 0, b, f)
            && ToUint32(v * 0x100) == Word(0, b, f, f) && ToUint32(v) == Word(b, f, f, f)
    ensures 0xFF00_0000 == Word(0, 0, 0, 255) && 0x00FF_0000 == Word(0, 0, 255, 0)
    ensures 0x0000_FF00 == Word(0, 255, 0, 0) && 0x0000_00FF == Word(255, 0, 0, 0)
  {
    var s := if v < 0 then -1 else 0;
    DivisionUnique(v, 256, s, v - 256 * s);
    DivisionUnique(v * 0x100_0000, WORD, s, v * 0x100_0000 - WORD * s);
    DivisionUnique(v * 0x1_0000, WORD, s, v * 0x1_0000 - WORD * s);
    DivisionUnique(v * 0x100, WORD, s, v * 0x100 - WORD * s);
    DivisionUnique(v, WORD, s, v - WORD * s);
  }

  lemma MaskedLanes(v: int8)
    ensures Bitwise(And, ToUint32(v * 0x100_0000), 0xFF00_0000) == Word(0, 0, 0, v % 256)
    ensures Bitwise(And, ToUint32(v * 0x1_0000), 0x00FF_0000) == Word(0, 0, v % 256, 0)
    ensures Bitwise(And, ToUint32(v * 0x100), 0x0000_FF00) == Word(0, v % 256, 0, 0)
    ensures Bitwise(And, ToUint32(v), 0x0000_00FF) == Word(v % 256, 0, 0, 0)
  {
    hide Bitwise, OnBytes, Word, ToUint32;
    var b, f: byte := v % 256, Fill(v);
    ShiftedBytes(v);
    ByteMasks(0);
    ByteMasks(b);
    ByteMasks(f);
    Bytewise(And, 0, 0, 0, b, 0, 0, 0, 255);
    Bytewise(And, 0, 0, b, f, 0, 0, 255, 0);
    Bytewise(And, 0, b, f, f, 0, 255, 0, 0);
    Bytewise(And, b, f, f, f, 255, 0, 0, 0);
  }

  lemma OrOfLanes(b0: byte, b1: byte, b2: byte, b3: byte)
    ensures Bitwise(Or, Bitwise(Or, Bitwise(Or, Word(0, 0, 0, b3), Word(0, 0, b2, 0)), Word(0, b1, 0, 0)),
                    Word(b0, 0, 0, 0)) == Word(b0, b1, b2, b3)
  {
    hide Bitwise, OnBytes, Word;
    ByteMasks(0);
    ByteMasks(b0);
    ByteMasks(b1);
    ByteMasks(b2);
    ByteMasks(b3);
    Bytewise(Or, 0, 0, 0, b3, 0, 0, b2, 0);
    Bytewise(Or, 0, 0, b2, b3, 0, b1, 0, 0);
    Bytewise(Or, 0, b1, b2, b3, b0, 0, 0, 0);
  }

  /** The packed word holds each byte in its own place. */
  lemma Pack8Bytes(r: int8, s: int8, t: int8, u: int8)
    ensures ToUint32(Pack8(r, s, t, u)) == Word(r % 256, s % 256, t % 256, u % 256)
  {
    hide Bitwise, Word, ToUint32, ToInt32;
    MaskedLanes(r);
    MaskedLanes(s);
    MaskedLanes(t);
    MaskedLanes(u);
    OrOfLanes(r % 256, s % 256, t % 256, u % 256);
    SameBits(Word(r % 256, s % 256, t % 256, u % 256));
  }

  lemma Pack8Lane(r: int8, s: int8, t: int8, u: int8)
    ensures var p := Pack8(r, s, t, u); Lane8(p, 0) == r && Lane8(p, 1) == s && Lane8(p, 2) == t && Lane8(p, 3) == u
  {
    hide Pack8, Word, Byte;
    Pack8Bytes(r, s, t, u);
    BytesOfWord(r % 256, s % 256, t % 256, u % 256);
  }

  /** Each lane of `__QADD8` is the saturated sum of the two lanes, whatever the others hold. */
  lemma QAdd8Lanes(x: int32, y: int32, k: nat)
    requires k < 4
    ensures Lane8(QAdd8(x, y), k) == Clamp(-128, 127, Lane8(x, k) + Lane8(y, k))
  {
    hide Pack8, Extract8, Lane8;
    Pow2Values();
    ExtractIsLane(x, k);
    ExtractIsLane(y, k);
    assert Pow2(7) == 128;
    Pack8Lane(Sat8(Extract8(x, 0) + Extract8(y, 0)), Sat8(Extract8(x, 1) + Extract8(y, 1)),
              Sat8(Extract8(x, 2) + Extract8(y, 2)), Sat8(Extract8(x, 3) + Extract8(y, 3)));
  }

  lemma QSub8Lanes(x: int32, y: int32, k: nat)
    requires k < 4
    ensures Lane8(QSub8(x, y), k) == Clamp(-128, 127, Lane8(x, k) - Lane8(y, k))
  {
    hide Pack8, Extract8, Lane8;
    Pow2Values();
    ExtractIsLane(x, k);
    ExtractIsLane(y, k);
    assert Pow2(7) == 128;
    Pack8Lane(Sat8(Extract8(x, 0) - Extract8(y, 0)), Sat8(Extract8(x, 1) - Extract8(y, 1)),
              Sat8(Extract8(x, 2) - Extract8(y, 2)), Sat8(Extract8(x, 3) - Extract8(y, 3)));
  }

  /** The word with the halves `lo` and `hi`, by bytes. */
  lemma HalfWords(lo: uint16, hi: uint16)
    ensures Word(lo % 256, lo / 256, hi % 256, hi / 256) == lo + 0x1_0000 * hi
  {
  }

  lemma Pack16Word(lo: uint16, hi: uint16, f: uint16)
    requires f == 0 || f == 0xFFFF
    ensures Bitwise(Or, Bitwise(And, 0x1_0000 * hi, 0xFFFF_0000), Bitwise(And, lo + 0x1_0000 * f, 0x0000_FFFF))
         == lo + 0x1_0000 * hi
  {
    hide Bitwise, OnBytes, Word;
    var b0, b1, b2, b3: byte := lo % 256, lo / 256, hi % 256, hi / 256;
    var g: byte := f % 256;
    HalfWords(0, hi);
    HalfWords(0, 0xFFFF);
    HalfWords(lo, f);
    HalfWords(0xFFFF, 0);
    HalfWords(lo, 0);
    HalfWords(lo, hi);
    ByteMasks(0);
    ByteMasks(g);
    ByteMasks(b0);
    ByteMasks(b1);
    ByteMasks(b2);
    ByteMasks(b3);
    Bytewise(And, 0, 0, b2, b3, 0, 0, 255, 255);
    Bytewise(And, b0, b1, g, g, 255, 255, 0, 0);
    Bytewise(Or, 0, 0, b2, b3, b0, b1, 0, 0);
  }

  lemma ShiftedHalves(r: int16)
    ensures ToUint32(r * 0x1_0000) == 0x1_0000 * (r % 0x1_0000)
    ensures ToUint32(r) == r % 0x1_0000 + 0x1_0000 * (if r < 0 then 0xFFFF else 0)
    ensures ToInt16(r % 0x1_0000) == r
  {
    var s := if r < 0 then -1 else 0;
    DivisionUnique(r, 0x1_0000, s, r - 0x1_0000 * s);
    DivisionUnique(r * 0x1_0000, WORD, s, r * 0x1_0000 - WORD * s);
    DivisionUnique(r, WORD, s, r - WORD * s);
  }

  lemma Pack16Halves(r: int16, s: int16)
    ensures Low16(Pack16(r, s)) == r && High16(Pack16(r, s)) == s
  {
    hide Bitwise, ToUint32, ToInt32, ToInt16, High16;
    var lo: uint16, hi: uint16 := r % 0x1_0000, s % 0x1_0000;
    ShiftedHalves(r);
    ShiftedHalves(s);
    Pack16Word(lo, hi, if r < 0 then 0xFFFF else 0);
    Halves(lo, hi);
  }

  lemma Halves(lo: uint16, hi: uint16)
    ensures var x := ToInt32(lo + 0x1_0000 * hi); Low16(x) == ToInt16(lo) && High16(x) == ToInt16(hi)
  {
    var x := ToInt32(lo + 0x1_0000 * hi);
    assert x % 0x1_0000 == lo;
    assert ToUint32(x) / 0x1_0000 == hi;
  }

  /** The arithmetic shift by 16 is the high half. */
  lemma HighHalf(x: int32)
    ensures x / 0x1_0000 == High16(x)
  {
    var w := ToUint32(x);
    assert w / 0x1_0000 == if x < 0 then x / 0x1_0000 + 0x1_0000 else x / 0x1_0000;
  }

  /** Both halves of `__QADD16` and `__QSUB16` saturate on their own. */
  lemma QAdd16Lanes(x: int32, y: int32)
    ensures Low16(QAdd16(x, y)) == Clamp(-0x8000, 0x7FFF, Low16(x) + Low16(y))
    ensures High16(QAdd16(x, y)) == Clamp(-0x8000, 0x7FFF, High16(x) + High16(y))
  {
    hide Pack16, High16, ToInt16;
    Pow2Values();
    HighHalf(x);
    HighHalf(y);
    Pack16Halves(Sat16(ToInt16(x) + ToInt16(y)), Sat16(x / 0x1_0000 + y / 0x1_0000));
  }

  lemma QSub16Lanes(x: int32, y: int32)
    ensures Low16(QSub16(x, y)) == Clamp(-0x8000, 0x7FFF, Low16(x) - Low16(y))
    ensures High16(QSub16(x, y)) == Clamp(-0x8000, 0x7FFF, High16(x) - High16(y))
  {
    hide Pack16, High16, ToInt16;
    Pow2Values();
    HighHalf(x);
    HighHalf(y);
    Pack16Halves(Sat16(ToInt16(x) - ToInt16(y)), Sat16(x / 0x1_0000 - y / 0x1_0000));
  }
}
