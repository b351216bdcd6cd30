/**
 Machine words as natural numbers, and the C operators the sources apply to them.

 The bitwise operators are defined bit by bit; everything the models need about masks and
 packed fields follows from one lemma, `Split`, which says that an operator works on the
 high and the low part of its operands separately.
 */
module Bits {
  import opened Arithmetic

  const WORD: nat := 0x1_0000_0000

  type byte = b: int | 0 <= b < 256
  type uint16 = w: int | 0 <= w < 0x1_0000
  type uint32 = w: int | 0 <= w < 0x1_0000_0000

  datatype Op = And | Or | Xor

  function Pow2(n: nat): (p: nat)
    ensures p > 0
  {
    if n == 0 then 1 else 2 * Pow2(n - 1)
  }

  lemma {:induction false} Pow2Add(m: nat, n: nat)
    ensures Pow2(m + n) == Pow2(m) * Pow2(n)
  {
    if m != 0 {
      Pow2Add(m - 1, n);
      var p, q := Pow2(m - 1), Pow2(n);
      assert 2 * p * q == 2 * (p * q);
    }
  }

  lemma {:induction false} Pow2Monotone(m: nat, n: nat)
    requires m <= n
    ensures Pow2(m) <= Pow2(n)
  {
    if m < n {
      Pow2Monotone(m, n - 1);
    }
  }

  /** C's `a << k` on an unsigned operand, before truncation to the word. */
  function Shl(a: nat, k: nat): nat {
    if k == 0 then a else 2 * Shl(a, k - 1)
  }

  lemma {:induction false} ShlIsProduct(a: nat, k: nat)
    ensures Shl(a, k) == a * Pow2(k)
  {
    if k != 0 {
      ShlIsProduct(a, k - 1);
      assert a * (2 * Pow2(k - 1)) == 2 * (a * Pow2(k - 1));
    }
  }

  /** The powers that occur as word sizes and field offsets. */
  lemma Pow2Values()
    ensures Pow2(0) == 1 && Pow2(8) == 0x100 && Pow2(15) == 0x8000 && Pow2(16) == 0x1_0000 && Pow2(24) == 0x100_0000
    ensures Pow2(31) == 0x8000_0000 && Pow2(32) == 0x1_0000_0000
  {
    assert Pow2(4) == 16;
    Pow2Add(4, 4);
    Pow2Add(8, 8);
    assert Pow2(16) == 2 * Pow2(15);
    Pow2Add(8, 16);
    Pow2Add(16, 16);
    assert Pow2(32) == 2 * Pow2(31);
  }

  // ---------- bitwise operators ----------

  function OnBits(op: Op, x: nat, y: nat): (bit: nat)
    requires x < 2 && y < 2
    ensures bit < 2
  {
    match op
    case And => x * y
    case Or => if x + y == 0 then 0 else 1
    case Xor => if x == y then 0 else 1
  }

  /** `a op b` for C's `&`, `|` and `^` on unsigned operands. */
  function Bitwise(op: Op, a: nat, b: nat): nat
    decreases a + b
  {
    if a == 0 && b == 0 then 0
    else 2 * Bitwise(op, a / 2, b / 2) + OnBits(op, a % 2, b % 2)
  }

  /** An operator acts on the bits from `k` up and on the bits below `k` independently. */
  lemma {:induction false} Split(op: Op, k: nat, ah: nat, al: nat, bh: nat, bl: nat)
    requires al < Pow2(k) && bl < Pow2(k)
    ensures Bitwise(op, Shl(ah, k) + al, Shl(bh, k) + bl) == Shl(Bitwise(op, ah, bh), k) + Bitwise(op, al, bl)
  {
    hide Bitwise;
    if k == 0 {
      Zeroes(op);
    } else {
      var a, b := Shl(ah, k) + al, Shl(bh, k) + bl;
      assert a / 2 == Shl(ah, k - 1) + al / 2 && a % 2 == al % 2;
      assert b / 2 == Shl(bh, k - 1) + bl / 2 && b % 2 == bl % 2;
      Split(op, k - 1, ah, al / 2, bh, bl / 2);
      SplitStep(op, a, b, al, bl, Shl(Bitwise(op, ah, bh), k - 1));
    }
  }

  lemma Zeroes(op: Op)
    ensures Bitwise(op, 0, 0) == 0
  {
  }

  lemma SplitStep(op: Op, a: nat, b: nat, al: nat, bl: nat, high: nat)
    requires a % 2 == al % 2 && b % 2 == bl % 2
    requires Bitwise(op, a / 2, b / 2) == high + Bitwise(op, al / 2, bl / 2)
    ensures Bitwise(op, a, b) == 2 * high + Bitwise(op, al, bl)
  {
    Halve(op, a, b);
    Halve(op, al, bl);
  }

  lemma Halve(op: Op, a: nat, b: nat)
    ensures Bitwise(op, a, b) == 2 * Bitwise(op, a / 2, b / 2) + OnBits(op, a % 2, b % 2)
  {
  }

  lemma {:induction false} WithZero(a: nat)
    ensures Bitwise(And, a, 0) == 0 && Bitwise(And, 0, a) == 0
    ensures Bitwise(Or, a, 0) == a && Bitwise(Or, 0, a) == a
  {
    if a != 0 {
      WithZero(a / 2);
    }
  }

  lemma {:induction false} WithOnes(k: nat, a: nat)
    requires a < Pow2(k)
    ensures Bitwise(And, a, Pow2(k) - 1) == a && Bitwise(And, Pow2(k) - 1, a) == a
  {
    hide Bitwise;
    if k == 0 {
      Zeroes(And);
    } else {
      assert (Pow2(k) - 1) / 2 == Pow2(k - 1) - 1 && (Pow2(k) - 1) % 2 == 1;
      WithOnes(k - 1, a / 2);
      Halve(And, a, Pow2(k) - 1);
      Halve(And, Pow2(k) - 1, a);
    }
  }

  /** Two fields are complements of each other exactly when they add up to all ones. */
  lemma {:induction false} XorIsOnes(k: nat, a: nat, b: nat)
    requires a < Pow2(k) && b < Pow2(k)
    ensures Bitwise(Xor, a, b) == Pow2(k) - 1 <==> a + b == Pow2(k) - 1
    ensures Bitwise(Xor, a, b) < Pow2(k)
  {
    if k != 0 {
      XorIsOnes(k - 1, a / 2, b / 2);
      Halve(Xor, a, b);
      assert a == 2 * (a / 2) + a % 2 && b == 2 * (b / 2) + b % 2;
    }
  }

  /** Setting bits above everything that is already set is addition. */
  lemma OrAbove(k: nat, low: nat, high: nat)
    requires low < Pow2(k)
    ensures Bitwise(Or, low, Shl(high, k)) == low + Shl(high, k)
    ensures Bitwise(Or, Shl(high, k), low) == low + Shl(high, k)
  {
    hide Bitwise;
    WithZero(low);
    WithZero(high);
    ShlIsProduct(0, k);
    Split(Or, k, 0, low, high, 0);
    Split(Or, k, high, 0, 0, low);
  }

  /** Masking with `2^k - 1` keeps exactly the bits below `k`. */
  lemma LowMask(k: nat, high: nat, low: nat)
    requires low < Pow2(k)
    ensures Bitwise(And, Shl(high, k) + low, Pow2(k) - 1) == low
  {
    hide Bitwise;
    WithZero(high);
    WithOnes(k, low);
    ShlIsProduct(0, k);
    Split(And, k, high, low, 0, Pow2(k) - 1);
  }

  // ---------- bytes of a word ----------

  function Word(b0: byte, b1: byte, b2: byte, b3: byte): uint32 {
    b0 + 0x100 * (b1 + 0x100 * (b2 + 0x100 * b3))
  }

  function Byte(w: uint32, lane: nat): byte
    requires lane < 4
  {
    if lane == 0 then w % 256
    else if lane == 1 then w / 0x100 % 256
    else if lane == 2 then w / 0x1_0000 % 256
    else w / 0x100_0000 % 256
  }

  lemma WordOfBytes(w: uint32)
    ensures Word(Byte(w, 0), Byte(w, 1), Byte(w, 2), Byte(w, 3)) == w
  {
    var q1: int := w / 0x100;
    var q2: int := q1 / 0x100;
    var q3: int := q2 / 0x100;
    DivisionUnique(w, 0x1_0000, q2, w % 0x100 + 0x100 * (q1 % 0x100));
    DivisionUnique(w, 0x100_0000, q3, w % 0x100 + 0x100 * (q1 % 0x100) + 0x1_0000 * (q2 % 0x100));
  }

  lemma BytesOfWord(b0: byte, b1: byte, b2: byte, b3: byte)
    ensures var w := Word(b0, b1, b2, b3); Byte(w, 0) == b0 && Byte(w, 1) == b1 && Byte(w, 2) == b2 && Byte(w, 3) == b3
  {
    var w := Word(b0, b1, b2, b3);
    assert w / 0x100 == b1 + 0x100 * (b2 + 0x100 * b3);
    assert w / 0x1_0000 == b2 + 0x100 * b3;
    assert w / 0x100_0000 == b3;
  }

  function OnBytes(op: Op, a: byte, b: byte): byte {
    Pow2Values();
    BitwiseBound(op, 8, a, b);
    Bitwise(op, a, b)
  }

  /** An operator acts on the four bytes of a word independently. */
  lemma Bytewise(op: Op, a0: byte, a1: byte, a2: byte, a3: byte, b0: byte, b1: byte, b2: byte, b3: byte)
    ensures Bitwise(op, Word(a0, a1, a2, a3), Word(b0, b1, b2, b3))
         == Word(OnBytes(op, a0, b0), OnBytes(op, a1, b1), OnBytes(op, a2, b2), OnBytes(op, a3, b3))
  {
    hide Bitwise;
    SplitByte(op, a2, a3, b2, b3);
    SplitByte(op, a1, a2 + 0x100 * a3, b1, b2 + 0x100 * b3);
    SplitByte(op, a0, a1 + 0x100 * (a2 + 0x100 * a3), b0, b1 + 0x100 * (b2 + 0x100 * b3));
  }

  lemma SplitByte(op: Op, al: byte, ah: nat, bl: byte, bh: nat)
    ensures Bitwise(op, al + 0x100 * ah, bl + 0x100 * bh) == OnBytes(op, al, bl) + 0x100 * Bitwise(op, ah, bh)
  {
    hide Bitwise, Shl;
    Pow2Values();
    ShlIsProduct(ah, 8);
    ShlIsProduct(bh, 8);
    ShlIsProduct(Bitwise(op, ah, bh), 8);
    Split(op, 8, ah, al, bh, bl);
  }

  lemma {:induction false} BitwiseBound(op: Op, k: nat, a: nat, b: nat)
    requires a < Pow2(k) && b < Pow2(k)
    ensures Bitwise(op, a, b) < Pow2(k)
  {
    if k != 0 {
      BitwiseBound(op, k - 1, a / 2, b / 2);
    }
  }

  /** The byte masks: AND with 0xFF keeps a byte, AND with 0 clears it, OR with 0 keeps it. */
  lemma ByteMasks(b: byte)
    ensures OnBytes(And, b, 0xFF) == b && OnBytes(And, b, 0) == 0
    ensures OnBytes(Or, b, 0) == b && OnBytes(Or, 0, b) == b
  {
    hide Bitwise;
    Pow2Values();
    WithZero(b);
    WithOnes(8, b);
  }

  // ---------- two's complement ----------

  type int8 = x: int | -0x80 <= x < 0x80
  type int16 = x: int | -0x8000 <= x < 0x8000
  type int32 = x: int | -0x8000_0000 <= x < 0x8000_0000
  type int64 = x: int | -0x8000_0000_0000_0000 <= x < 0x8000_0000_0000_0000

  /** Conversions to narrower types keep the low bits. */
  function ToInt8(x: int): int8 {
    var r := x % 0x100;
    if r < 0x80 then r else r - 0x100
  }

  function ToInt16(x: int): int16 {
    var r := x % 0x1_0000;
    if r < 0x8000 then r else r - 0x1_0000
  }

  function ToInt32(x: int): int32 {
    var r := x % 0x1_0000_0000;
    if r < 0x8000_0000 then r else r - 0x1_0000_0000
  }

  function ToUint32(x: int): uint32 {
    x % 0x1_0000_0000
  }

  lemma SmallUnsigned(x: int)
    requires 0 <= x < 0x1_0000_0000
    ensures ToUint32(x) == x
  {
  }

  function Clamp(lo: int, hi: int, x: int): int {
    if x < lo then lo else if x > hi then hi else x
  }
}
