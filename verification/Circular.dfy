/**
 The circular buffer primitives `arm_circularWrite_*` and `arm_circularRead_*`, and the delay
 line the filters build from them.

 The three element types of the source share one body, so the model is generic.
 */
module Circular {
  import opened Arithmetic
  import opened Bits

  /** The largest buffer whose offset arithmetic stays inside 32 signed bits. */
  const MAX_LENGTH: int := 0x4000_0000

  // ---------- modular offsets ----------

  /** Where the `a`-th element of an unbounded stream lives in a buffer of `l` elements. */
  function Slot(a: nat, l: nat): (o: nat)
    requires l > 0
    ensures o < l
    ensures a < l ==> o == a
  {
    a % l
  }

  lemma SlotSmall(a: nat, l: nat)
    requires a < l
    ensures Slot(a, l) == a
  {
  }

  lemma SlotUnique(a: nat, q: int, r: int, l: nat)
    requires l > 0 && a == q * l + r && 0 <= r < l
    ensures Slot(a, l) == r
  {
    DivisionUnique(a, l, q, r);
  }

  /** One conditional subtraction is the remainder, when the increment is at most the length. */
  lemma SlotStep(a: nat, inc: nat, l: nat)
    requires l > 0 && inc <= l
    ensures Slot(a + inc, l) == if Slot(a, l) + inc >= l then Slot(a, l) + inc - l else Slot(a, l) + inc
  {
    var q, r := a / l, a % l;
    assert a == q * l + r;
    if r + inc >= l {
      assert (q + 1) * l == q * l + l;
      SlotUnique(a + inc, q + 1, r + inc - l, l);
    } else {
      SlotUnique(a + inc, q, r + inc, l);
    }
  }

  lemma SlotAdd(a: nat, i: nat, l: nat)
    requires l > 0
    ensures Slot(Slot(a, l) + i, l) == Slot(a + i, l)
  {
    var q, b := a / l, a % l + i;
    var p := b / l;
    assert a == q * l + a % l && b == p * l + b % l;
    assert (q + p) * l == q * l + p * l;
    SlotUnique(a + i, q + p, b % l, l);
  }

  /** Elements less than a buffer length apart live in different slots. */
  lemma SlotDistinct(a: nat, b: nat, l: nat)
    requires a < b < a + l
    ensures Slot(a, l) != Slot(b, l)
  {
    var d := b / l - a / l;
    assert d * l == b - a - (b % l - a % l);
    if a % l == b % l {
      NoMultiple(d, l, b - a);
    }
  }

  lemma MulNext(n: nat, k: int)
    ensures (n + 1) * k == n * k + k
  {
  }

  // ---------- the walk of an offset ----------

  /** The offset after `n` steps: an increment, and one conditional subtraction. */
  function OffsetAt(l: nat, w: int, inc: int, n: nat): int {
    if n == 0 then w
    else
      var o := OffsetAt(l, w, inc, n - 1) + inc;
      if o >= l then o - l else o
  }

  /** The first `n` offsets are inside the buffer. */
  predicate InBounds(l: nat, w: int, inc: int, n: nat) {
    forall i :: 0 <= i < n ==> 0 <= OffsetAt(l, w, inc, i) < l
  }

  /** With an increment between 0 and the length the walk is modular. */
  lemma {:induction false} Forward(l: nat, w: nat, inc: nat, n: nat)
    requires w < l && inc <= l
    ensures forall i :: 0 <= i <= n ==> OffsetAt(l, w, inc, i) == Slot(w + i * inc, l)
    ensures InBounds(l, w, inc, n)
  {
    hide Slot;
    if n == 0 {
      SlotSmall(w, l);
    } else {
      Forward(l, w, inc, n - 1);
      MulNext(n - 1, inc);
      SlotStep(w + (n - 1) * inc, inc, l);
    }
  }

  /** With a negative increment it never wraps. */
  lemma {:induction false} Backward(l: nat, w: int, inc: int, n: nat)
    requires 0 <= w < l && inc < 0
    ensures OffsetAt(l, w, inc, n) == w + n * inc <= w
  {
    if n > 0 {
      Backward(l, w, inc, n - 1);
      MulNext(n - 1, inc);
    }
  }

  /** With an increment beyond the length it always subtracts, and climbs all the same. */
  lemma {:induction false} Beyond(l: nat, w: int, inc: int, n: nat)
    requires 0 <= w < l && inc > l
    ensures OffsetAt(l, w, inc, n) == w + n * (inc - l) >= w
  {
    if n > 0 {
      Beyond(l, w, inc, n - 1);
      MulNext(n - 1, inc - l);
    }
  }

  /** The increments that keep `n` accesses from the offset `w` inside a buffer of `l` elements. */
  predicate KeepsInside(l: nat, w: int, inc: int, n: nat) {
    || n == 0
    || 0 <= inc <= l
    || (inc < 0 && w + (n - 1) * inc >= 0)
    || (inc > l && w + (n - 1) * (inc - l) < l)
  }

  /** For every increment whatever, exactly these. */
  lemma InBoundsExactly(l: nat, w: int, inc: int, n: nat)
    requires 0 <= w < l
    ensures InBounds(l, w, inc, n) <==> KeepsInside(l, w, inc, n)
  {
    hide OffsetAt;
    if n == 0 {
    } else if 0 <= inc <= l {
      Forward(l, w, inc, n);
    } else if inc < 0 {
      BackwardInside(l, w, inc, n);
    } else {
      BeyondInside(l, w, inc, n);
    }
  }

  lemma BackwardInside(l: nat, w: int, inc: int, n: nat)
    requires 0 <= w < l && inc < 0 && n > 0
    ensures InBounds(l, w, inc, n) <==> w + (n - 1) * inc >= 0
  {
    hide OffsetAt;
    Backward(l, w, inc, n - 1);
    if w + (n - 1) * inc >= 0 {
      forall i | 0 <= i < n
        ensures 0 <= OffsetAt(l, w, inc, i) < l
      {
        Backward(l, w, inc, i);
        MulBelow(i, n - 1, -inc);
        NegatedProduct(i, inc);
        NegatedProduct(n - 1, inc);
      }
    }
  }

  lemma BeyondInside(l: nat, w: int, inc: int, n: nat)
    requires 0 <= w < l && inc > l && n > 0
    ensures InBounds(l, w, inc, n) <==> w + (n - 1) * (inc - l) < l
  {
    hide OffsetAt;
    Beyond(l, w, inc, n - 1);
    if w + (n - 1) * (inc - l) < l {
      forall i | 0 <= i < n
        ensures 0 <= OffsetAt(l, w, inc, i) < l
      {
        Beyond(l, w, inc, i);
        MulBelow(i, n - 1, inc - l);
      }
    }
  }

  // ---------- write ----------

  /** The buffer after storing `xs` along the walk from `w` in steps of `inc`. */
  function Written<T>(buf: seq<T>, l: nat, w: int, inc: int, xs: seq<T>): (r: seq<T>)
    requires l <= |buf| && InBounds(l, w, inc, |xs|)
    ensures |r| == |buf|
  {
    if xs == [] then buf
    else
      var n := |xs| - 1;
      Written(buf, l, w, inc, xs[..n])[OffsetAt(l, w, inc, n) := xs[n]]
  }

  /** Every `srcInc`-th source element. */
  function Strided<T>(src: seq<T>, srcInc: int, n: nat): (xs: seq<T>)
    requires forall i :: 0 <= i < n ==> 0 <= i * srcInc < |src|
    ensures |xs| == n
  {
    seq(n, i requires 0 <= i < n => src[i * srcInc])
  }

  /** The stored offset is 16 bits wide, so it is exact just for buffers of up to 2^16 elements. */
  lemma OffsetWidth(l: nat)
    requires l > 0
    ensures (forall a: nat :: Slot(a, l) % 0x1_0000 == Slot(a, l)) <==> l <= 0x1_0000
  {
    if l > 0x1_0000 {
      assert Slot(0x1_0000, l) == 0x1_0000;
    }
  }

  lemma WrittenNothing<T>(buf: seq<T>, l: nat, w: int, inc: int)
    requires l <= |buf|
    ensures Written(buf, l, w, inc, []) == buf
  {
  }

  lemma WrittenNext<T>(buf: seq<T>, l: nat, w: int, inc: int, xs: seq<T>, n: nat)
    requires l <= |buf| && InBounds(l, w, inc, |xs|) && n < |xs|
    ensures 0 <= OffsetAt(l, w, inc, n) < l
    ensures Written(buf, l, w, inc, xs[..n + 1])
         == Written(buf, l, w, inc, xs[..n])[OffsetAt(l, w, inc, n) := xs[n]]
  {
    assert xs[..n + 1][..n] == xs[..n];
  }

  /**
   For every increment that keeps the accesses inside: increments up to the length always do,
   others for blocks that are short enough (`InBoundsExactly`).
   */
  method CircularWrite<T>(circBuffer: array<T>, l: int, writeOffset: uint16, bufferInc: int32,
                          src: array<T>, srcInc: int, blockSize: nat)
    returns (newOffset: uint16)
    requires 0 < l <= MAX_LENGTH && l <= circBuffer.Length && writeOffset < l && bufferInc <= MAX_LENGTH
    requires KeepsInside(l, writeOffset, bufferInc, blockSize)
    requires forall i :: 0 <= i < blockSize ==> 0 <= i * srcInc < src.Length
    requires circBuffer != src
    modifies circBuffer
    ensures InBounds(l, writeOffset, bufferInc, blockSize)
    ensures circBuffer[..] == Written(old(circBuffer[..]), l, writeOffset, bufferInc,
                                      Strided(src[..], srcInc, blockSize))
    ensures newOffset == OffsetAt(l, writeOffset, bufferInc, blockSize) % 0x1_0000
    ensures 0 <= bufferInc <= l ==> newOffset == (writeOffset + blockSize * bufferInc) % l % 0x1_0000
  {
    hide Slot, Written;
    InBoundsExactly(l, writeOffset, bufferInc, blockSize);
    if 0 <= bufferInc <= l {
      Forward(l, writeOffset, bufferInc, blockSize);
      SlotIsRemainder(writeOffset + blockSize * bufferInc, l);
    }
    var wOffset: int := writeOffset;
    var at := 0;
    var i := blockSize;
    ghost var before, xs, n := circBuffer[..], Strided(src[..], srcInc, blockSize), 0;
    WrittenNothing(before, l, writeOffset, bufferInc);
    while i > 0
      invariant 0 <= n <= blockSize && n + i == blockSize
      invariant at == n * srcInc
      invariant wOffset == OffsetAt(l, writeOffset, bufferInc, n)
      invariant circBuffer[..] == Written(before, l, writeOffset, bufferInc, xs[..n])
    {
      WrittenNext(before, l, writeOffset, bufferInc, xs, n);
      circBuffer[wOffset] := src[at];
      MulNext(n, srcInc);
      at := at + srcInc;
      var next: int32 := wOffset + bufferInc;
      wOffset := next;
      if wOffset >= l {
        wOffset := wOffset - l;
      }
      i, n := i - 1, n + 1;
    }
    assert xs[..blockSize] == xs;
    newOffset := wOffset % 0x1_0000;
  }

  // ---------- read ----------

  /** Where the destination pointer is after `n` advances: it wraps when it meets the end exactly. */
  function DstAt(start: int, base: int, length: int, inc: int, n: nat): int {
    if n == 0 then start
    else
      var d := DstAt(start, base, length, inc, n - 1) + inc;
      if d == base + length then base else d
  }

  /** The destination after the first `n` samples along the walk from `r` in steps of `inc`. */
  function Delivered<T>(dst: seq<T>, start: int, base: int, length: int, dstInc: int,
                        buf: seq<T>, l: nat, r: int, inc: int, n: nat): (d: seq<T>)
    requires l <= |buf| && InBounds(l, r, inc, n)
    requires forall i :: 0 <= i < n ==> 0 <= DstAt(start, base, length, dstInc, i) < |dst|
    ensures |d| == |dst|
  {
    if n == 0 then dst
    else
      Delivered(dst, start, base, length, dstInc, buf, l, r, inc, n - 1)
      [DstAt(start, base, length, dstInc, n - 1) := buf[OffsetAt(l, r, inc, n - 1)]]
  }

  lemma DeliveredNothing<T>(dst: seq<T>, start: int, base: int, length: int, dstInc: int,
                            buf: seq<T>, l: nat, r: int, inc: int)
    requires l <= |buf|
    ensures Delivered(dst, start, base, length, dstInc, buf, l, r, inc, 0) == dst
  {
  }

  lemma DeliveredNext<T>(dst: seq<T>, start: int, base: int, length: int, dstInc: int,
                         buf: seq<T>, l: nat, r: int, inc: int, n: nat)
    requires l <= |buf| && InBounds(l, r, inc, n + 1)
    requires forall i :: 0 <= i < n + 1 ==> 0 <= DstAt(start, base, length, dstInc, i) < |dst|
    ensures 0 <= OffsetAt(l, r, inc, n) < l
    ensures Delivered(dst, start, base, length, dstInc, buf, l, r, inc, n + 1)
         == Delivered(dst, start, base, length, dstInc, buf, l, r, inc, n)
            [DstAt(start, base, length, dstInc, n) := buf[OffsetAt(l, r, inc, n)]]
  {
  }

  method CircularRead<T>(circBuffer: array<T>, l: int, readOffset: nat, bufferInc: int32,
                         dst: array<T>, dstStart: int, dstBase: int, dstLength: int, dstInc: int, blockSize: nat)
    returns (newOffset: int)
    requires 0 < l <= MAX_LENGTH && l <= circBuffer.Length && readOffset < l && bufferInc <= MAX_LENGTH
    requires KeepsInside(l, readOffset, bufferInc, blockSize)
    requires forall i :: 0 <= i < blockSize ==> 0 <= DstAt(dstStart, dstBase, dstLength, dstInc, i) < dst.Length
    requires circBuffer != dst
    modifies dst
    ensures InBounds(l, readOffset, bufferInc, blockSize)
    ensures dst[..] == Delivered(old(dst[..]), dstStart, dstBase, dstLength, dstInc,
                                 circBuffer[..], l, readOffset, bufferInc, blockSize)
    ensures newOffset == OffsetAt(l, readOffset, bufferInc, blockSize)
    ensures 0 <= bufferInc <= l ==> newOffset == (readOffset + blockSize * bufferInc) % l
  {
    hide Slot, Delivered;
    InBoundsExactly(l, readOffset, bufferInc, blockSize);
    if 0 <= bufferInc <= l {
      Forward(l, readOffset, bufferInc, blockSize);
      SlotIsRemainder(readOffset + blockSize * bufferInc, l);
    }
    var rOffset: int := readOffset;
    var at := dstStart;
    var i := blockSize;
    ghost var before, n := dst[..], 0;
    DeliveredNothing(before, dstStart, dstBase, dstLength, dstInc, circBuffer[..], l, readOffset, bufferInc);
    while i > 0
      invariant 0 <= n <= blockSize && n + i == blockSize
      invariant at == DstAt(dstStart, dstBase, dstLength, dstInc, n)
      invariant rOffset == OffsetAt(l, readOffset, bufferInc, n)
      invariant dst[..] == Delivered(before, dstStart, dstBase, dstLength, dstInc,
                                     circBuffer[..], l, readOffset, bufferInc, n)
    {
      DeliveredNext(before, dstStart, dstBase, dstLength, dstInc, circBuffer[..], l, readOffset, bufferInc, n);
      dst[at] := circBuffer[rOffset];
      at := at + dstInc;
      if at == dstBase + dstLength {
        at := dstBase;
      }
      var next: int32 := rOffset + bufferInc;
      rOffset := next;
      if rOffset >= l {
        rOffset := rOffset - l;
      }
      i, n := i - 1, n + 1;
    }
    newOffset := rOffset;
  }

  // ---------- the destination ----------

  /** As long as the end is not met the destination pointer climbs. */
  lemma {:induction false} Climbs(start: int, end: int, base: int, inc: int, n: nat)
    requires inc > 0 && start + n * inc < end
    ensures DstAt(start, base, end - base, inc, n) == start + n * inc
  {
    if n > 0 {
      MulNext(n - 1, inc);
      Climbs(start, end, base, inc, n - 1);
    }
  }

  /** After a wrap the pointer goes on as from the base. */
  lemma {:induction false} Restarts(start: int, base: int, length: int, inc: int, m: nat, n: nat)
    requires DstAt(start, base, length, inc, m) == base
    ensures DstAt(start, base, length, inc, m + n) == DstAt(base, base, length, inc, n)
  {
    if n > 0 {
      Restarts(start, base, length, inc, m, n - 1);
    }
  }

  /** In steps of `inc`, with the pointer `q` of `k` steps up from the base, the walk is modular. */
  lemma {:induction false} WalksAround(base: int, inc: nat, k: nat, q: nat, n: nat)
    requires inc > 0 && q < k
    ensures DstAt(base + q * inc, base, k * inc, inc, n) == base + Slot(q + n, k) * inc
  {
    hide Slot;
    if n == 0 {
      SlotSmall(q, k);
    } else {
      WalksAround(base, inc, k, q, n - 1);
      SlotStep(q + (n - 1), 1, k);
      var p := Slot(q + (n - 1), k);
      MulNext(p, inc);
      if p + 1 < k {
        MulStrict(p + 1, k, inc);
      }
    }
  }

  lemma ScaledRemainder(x: nat, k: nat, inc: nat)
    requires k > 0 && inc > 0
    ensures k * inc > 0 && x * inc % (k * inc) == Slot(x, k) * inc
  {
    DivMod(x, k);
    var p, r := x / k, x % k;
    MulStrict(r, k, inc);
    MulBelow(0, r, inc);
    assert x * inc == (k * inc) * p + r * inc by { Spread(x, k, p, r, inc); }
    DivisionUnique(x * inc, k * inc, p, r * inc);
  }

  lemma Spread(x: int, k: int, p: int, r: int, inc: int)
    requires x == k * p + r
    ensures x * inc == (k * inc) * p + r * inc
  {
  }

  /**
   With an increment that divides the length and the distance from the base, sample `n` goes to
   the place `n` increments on, modulo the length, always inside the destination.
   */
  lemma DestinationWraps(start: int, base: int, length: int, inc: int, n: nat)
    requires inc > 0 && base <= start < base + length && length % inc == 0 && (start - base) % inc == 0
    ensures DstAt(start, base, length, inc, n) == base + (start - base + n * inc) % length
    ensures base <= DstAt(start, base, length, inc, n) < base + length
  {
    hide DstAt;
    var k, q := Quotient(length, inc), Quotient(start - base, inc);
    Quotients(length, start - base, inc, k, q);
    StepsAround(base, inc, k, q, n);
  }

  /** The quotient of a division without remainder. */
  function Quotient(x: int, inc: int): (k: int)
    requires inc > 0 && x % inc == 0
    ensures k * inc == x
  {
    DivMod(x, inc);
    x / inc
  }

  lemma StepsAround(base: int, inc: nat, k: nat, q: nat, n: nat)
    requires inc > 0 && q < k && k * inc > 0
    ensures DstAt(base + q * inc, base, k * inc, inc, n) == base + (q * inc + n * inc) % (k * inc)
    ensures base <= DstAt(base + q * inc, base, k * inc, inc, n) < base + k * inc
  {
    hide DstAt, Slot;
    WalksAround(base, inc, k, q, n);
    ScaledRemainder(q + n, k, inc);
    assert (q + n) * inc == q * inc + n * inc;
  }

  lemma Quotients(length: int, s: int, inc: int, k: int, q: int)
    requires inc > 0 && length == k * inc && s == q * inc && 0 <= s < length
    ensures 0 <= q < k
  {
    if q < 0 {
      MulBelow(q, -1, inc);
    }
    if q >= k {
      MulBelow(k, q, inc);
    }
  }

  /** The pointer never leaves the destination. */
  ghost predicate Stays(start: int, base: int, length: int, inc: int) {
    forall n: nat :: base <= DstAt(start, base, length, inc, n) < base + length
  }

  /** The pointer stays inside the destination for good if and only if the increment divides both. */
  lemma StaysExactly(start: int, base: int, length: int, inc: int)
    requires inc > 0 && base <= start < base + length
    ensures Stays(start, base, length, inc) <==> length % inc == 0 && (start - base) % inc == 0
  {
    hide DstAt;
    if length % inc == 0 && (start - base) % inc == 0 {
      forall n: nat
        ensures base <= DstAt(start, base, length, inc, n) < base + length
      {
        DestinationWraps(start, base, length, inc, n);
      }
    } else if Stays(start, base, length, inc) {
      DividesIfStays(start, base, length, inc);
    }
  }

  lemma DividesIfStays(start: int, base: int, length: int, inc: int)
    requires inc > 0 && base <= start < base + length
    requires Stays(start, base, length, inc)
    ensures length % inc == 0 && (start - base) % inc == 0
  {
    hide DstAt;
    var m := MeetsTheEnd(start, base, length, inc);
    forall n: nat
      ensures base <= DstAt(base, base, length, inc, n) < base + length
    {
      Restarts(start, base, length, inc, m, n);
      assert base <= DstAt(start, base, length, inc, m + n) < base + length;
    }
    var l := MeetsTheEnd(base, base, length, inc);
    BothDivide(length, start - base, inc, l, m);
  }

  lemma BothDivide(length: int, s: int, inc: int, l: int, m: int)
    requires inc > 0 && l * inc == length && m * inc == length - s
    ensures length % inc == 0 && s % inc == 0
  {
    DivisionUnique(length, inc, l, 0);
    assert inc * (l - m) == l * inc - m * inc;
    DivisionUnique(s, inc, l - m, 0);
  }

  /** A pointer that never leaves meets the end after a whole number of increments. */
  lemma MeetsTheEnd(start: int, base: int, length: int, inc: int) returns (m: nat)
    requires inc > 0 && base <= start < base + length
    requires Stays(start, base, length, inc)
    ensures m * inc == base + length - start && DstAt(start, base, length, inc, m) == base
  {
    var gap := base + length - start;
    var n := (gap - 1) / inc;
    DivMod(gap - 1, inc);
    if n < 0 {
      MulBelow(n, -1, inc);
    }
    Climbs(start, base + length, base, inc, n);
    m := n + 1;
    MulNext(n, inc);
    assert base <= DstAt(start, base, length, inc, m) < base + length;
  }

  // ---------- what the blocks leave ----------

  /** The sample stored last in a place stays there. */
  lemma {:induction false} WrittenAt<T>(buf: seq<T>, l: nat, w: int, inc: int, xs: seq<T>, i: nat)
    requires l <= |buf| && InBounds(l, w, inc, |xs|) && i < |xs|
    requires forall j :: i < j < |xs| ==> OffsetAt(l, w, inc, j) != OffsetAt(l, w, inc, i)
    ensures 0 <= OffsetAt(l, w, inc, i) < l
    ensures Written(buf, l, w, inc, xs)[OffsetAt(l, w, inc, i)] == xs[i]
  {
    hide OffsetAt;
    var n := |xs| - 1;
    if i < n {
      WrittenAt(buf, l, w, inc, xs[..n], i);
    }
  }

  /** Places that are not written keep what they held. */
  lemma {:induction false} NotWritten<T>(buf: seq<T>, l: nat, w: int, inc: int, xs: seq<T>, k: nat)
    requires l <= |buf| && InBounds(l, w, inc, |xs|) && k < |buf|
    requires forall j :: 0 <= j < |xs| ==> OffsetAt(l, w, inc, j) != k
    ensures Written(buf, l, w, inc, xs)[k] == buf[k]
  {
    hide OffsetAt;
    if xs != [] {
      NotWritten(buf, l, w, inc, xs[..|xs| - 1], k);
    }
  }

  /**
   What a block write leaves: source element `i * srcInc` in the slot `(w + i*inc) mod l`, for
   every sample that no later one of the block overwrites.
   */
  lemma WriteLeaves<T>(buf: seq<T>, l: nat, w: nat, inc: nat, src: seq<T>, srcInc: int, n: nat, i: nat)
    requires 0 < l <= |buf| && w < l && inc <= l && i < n
    requires forall j :: 0 <= j < n ==> 0 <= j * srcInc < |src|
    requires forall j :: i < j < n ==> OffsetAt(l, w, inc, j) != (w + i * inc) % l
    ensures InBounds(l, w, inc, n)
    ensures Written(buf, l, w, inc, Strided(src, srcInc, n))[(w + i * inc) % l] == src[i * srcInc]
  {
    hide Written, OffsetAt, Slot;
    Forward(l, w, inc, n);
    SlotIsRemainder(w + i * inc, l);
    WrittenAt(buf, l, w, inc, Strided(src, srcInc, n), i);
  }

  lemma SlotIsRemainder(a: nat, l: nat)
    requires l > 0
    ensures Slot(a, l) == a % l
  {
  }

  /** The sample delivered last to a place stays there. */
  lemma {:induction false} DeliveredAt<T>(dst: seq<T>, start: int, base: int, length: int, dstInc: int,
                                          buf: seq<T>, l: nat, r: int, inc: int, n: nat, i: nat)
    requires l <= |buf| && InBounds(l, r, inc, n) && i < n
    requires forall j :: 0 <= j < n ==> 0 <= DstAt(start, base, length, dstInc, j) < |dst|
    requires forall j :: i < j < n ==> DstAt(start, base, length, dstInc, j) != DstAt(start, base, length, dstInc, i)
    ensures 0 <= OffsetAt(l, r, inc, i) < l
    ensures Delivered(dst, start, base, length, dstInc, buf, l, r, inc, n)[DstAt(start, base, length, dstInc, i)]
         == buf[OffsetAt(l, r, inc, i)]
    decreases n
  {
    hide OffsetAt, DstAt;
    if i < n - 1 {
      DeliveredAt(dst, start, base, length, dstInc, buf, l, r, inc, n - 1, i);
    }
  }

  /** Places that nothing is delivered to keep what they held. */
  lemma {:induction false} NotDelivered<T>(dst: seq<T>, start: int, base: int, length: int, dstInc: int,
                                           buf: seq<T>, l: nat, r: int, inc: int, n: nat, k: nat)
    requires l <= |buf| && InBounds(l, r, inc, n) && k < |dst|
    requires forall j :: 0 <= j < n ==> 0 <= DstAt(start, base, length, dstInc, j) < |dst|
    requires forall j :: 0 <= j < n ==> DstAt(start, base, length, dstInc, j) != k
    ensures Delivered(dst, start, base, length, dstInc, buf, l, r, inc, n)[k] == dst[k]
    decreases n
  {
    hide OffsetAt, DstAt;
    if n > 0 {
      NotDelivered(dst, start, base, length, dstInc, buf, l, r, inc, n - 1, k);
    }
  }

  /** Two samples less than a round of the destination apart go to different places. */
  lemma RoundIsDistinct(start: int, base: int, length: int, inc: int, i: nat, j: nat)
    requires inc > 0 && base <= start < base + length && length % inc == 0 && (start - base) % inc == 0
    requires i < j && (j - i) * inc < length
    ensures DstAt(start, base, length, inc, i) != DstAt(start, base, length, inc, j)
  {
    DestinationWraps(start, base, length, inc, i);
    DestinationWraps(start, base, length, inc, j);
    var s := start - base;
    MulBelow(0, i, inc);
    MulStrict(i, j, inc);
    assert (j - i) * inc == j * inc - i * inc;
    SlotIsRemainder(s + i * inc, length);
    SlotIsRemainder(s + j * inc, length);
    SlotDistinct(s + i * inc, s + j * inc, length);
  }

  /**
   What a block read leaves, for a destination pointer that meets its end: each of the samples of
   the last round is the one from slot `(r + i*inc) mod l`, in the place `i` increments on modulo
   the length of the destination; and nothing outside the destination is touched.
   */
  lemma ReadLeaves<T>(dst: seq<T>, start: int, base: int, length: int, dstInc: int,
                      buf: seq<T>, l: nat, r: nat, inc: nat, n: nat, i: nat, k: nat)
    requires 0 < l <= |buf| && r < l && inc <= l && i < n && k < |dst| && 0 <= base && base + length <= |dst|
    requires dstInc > 0 && base <= start < base + length && length % dstInc == 0 && (start - base) % dstInc == 0
    ensures InBounds(l, r, inc, n) && forall j :: 0 <= j < n ==> 0 <= DstAt(start, base, length, dstInc, j) < |dst|
    ensures (n - i) * dstInc <= length ==>
              Delivered(dst, start, base, length, dstInc, buf, l, r, inc, n)
                [base + (start - base + i * dstInc) % length] == buf[(r + i * inc) % l]
    ensures !(base <= k < base + length) ==>
              Delivered(dst, start, base, length, dstInc, buf, l, r, inc, n)[k] == dst[k]
  {
    hide Delivered, OffsetAt, DstAt, Slot;
    Forward(l, r, inc, n);
    forall j | 0 <= j < n
      ensures base <= DstAt(start, base, length, dstInc, j) < base + length
    {
      DestinationWraps(start, base, length, dstInc, j);
    }
    if (n - i) * dstInc <= length {
      forall j | i < j < n
        ensures DstAt(start, base, length, dstInc, j) != DstAt(start, base, length, dstInc, i)
      {
        MulStrict(j - i, n - i, dstInc);
        RoundIsDistinct(start, base, length, dstInc, i, j);
      }
      DeliveredAt(dst, start, base, length, dstInc, buf, l, r, inc, n, i);
      DestinationWraps(start, base, length, dstInc, i);
      SlotIsRemainder(r + i * inc, l);
    }
    if !(base <= k < base + length) {
      NotDelivered(dst, start, base, length, dstInc, buf, l, r, inc, n, k);
    }
  }

  // ---------- the delay line ----------

  /**
   A buffer first written at offset `s` with the stream `h`: each of the last `l` samples is
   where its number says.
   */
  ghost predicate Holds<T>(buf: seq<T>, l: nat, s: nat, h: seq<T>) {
    && 0 < l <= |buf|
    && forall j :: 0 <= j < |h| && |h| - l <= j ==> buf[Slot(s + j, l)] == h[j]
  }

  lemma StoreAppends<T>(b: seq<T>, l: nat, s: nat, g: seq<T>, x: T)
    requires Holds(b, l, s, g)
    ensures Holds(b[Slot(s + |g|, l) := x], l, s, g + [x])
  {
    hide Slot;
    var b', g' := b[Slot(s + |g|, l) := x], g + [x];
    forall j | 0 <= j < |g'| && |g'| - l <= j
      ensures b'[Slot(s + j, l)] == g'[j]
    {
      if j < |g| {
        SlotDistinct(s + j, s + |g|, l);
      }
    }
  }

  /** Writing a block with unit increment at the current offset appends it to the stream. */
  lemma {:induction false} WriteAppends<T>(buf: seq<T>, l: nat, s: nat, h: seq<T>, xs: seq<T>)
    requires Holds(buf, l, s, h)
    ensures InBounds(l, Slot(s + |h|, l), 1, |xs|)
    ensures Holds(Written(buf, l, Slot(s + |h|, l), 1, xs), l, s, h + xs)
  {
    hide Slot, InBounds;
    Forward(l, Slot(s + |h|, l), 1, |xs|);
    if xs == [] {
      assert h + xs == h;
    } else {
      var n := |xs| - 1;
      var init := xs[..n];
      WriteAppends(buf, l, s, h, init);
      SlotAdd(s + |h|, n, l);
      assert h + xs == h + init + [xs[n]];
      StoreAppends(Written(buf, l, Slot(s + |h|, l), 1, init), l, s, h + init, xs[n]);
    }
  }

  function Concat<T>(blocks: seq<seq<T>>): seq<T> {
    if blocks == [] then [] else Concat(blocks[..|blocks| - 1]) + blocks[|blocks| - 1]
  }

  /** The buffer after a sequence of block writes, each from the offset the one before returned. */
  function WrittenBlocks<T>(buf: seq<T>, l: nat, s: nat, blocks: seq<seq<T>>): (r: seq<T>)
    requires 0 < l <= |buf| && s < l && s < 0x1_0000
    ensures |r| == |buf|
  {
    if blocks == [] then buf
    else
      var init := blocks[..|blocks| - 1];
      OffsetFits(l, s, init);
      Forward(l, WriteOffset(l, s, init), 1, |blocks[|blocks| - 1]|);
      Written(WrittenBlocks(buf, l, s, init), l, WriteOffset(l, s, init), 1, blocks[|blocks| - 1])
  }

  /** The write offset after the blocks, as successive calls hand it on in 16 bits. */
  function WriteOffset<T>(l: nat, s: nat, blocks: seq<seq<T>>): nat
    requires l > 0
  {
    if blocks == [] then s
    else Slot(WriteOffset(l, s, blocks[..|blocks| - 1]) + |blocks[|blocks| - 1]| * 1, l) % 0x1_0000
  }

  /** The contents of source arrays. */
  function Contents<T>(blocks: seq<array<T>>): (c: seq<seq<T>>)
    reads blocks
    ensures |c| == |blocks|
  {
    if blocks == [] then [] else Contents(blocks[..|blocks| - 1]) + [blocks[|blocks| - 1][..]]
  }

  lemma {:induction false} OffsetFits<T>(l: nat, s: nat, blocks: seq<seq<T>>)
    requires 0 < l && s < l && s < 0x1_0000
    ensures WriteOffset(l, s, blocks) < l && WriteOffset(l, s, blocks) < 0x1_0000
  {
    hide Slot;
    if blocks != [] {
      OffsetFits(l, s, blocks[..|blocks| - 1]);
    }
  }

  /** What a caller does with a stream that arrives in blocks: every call starts where the last stopped. */
  method WriteBlocks<T>(circBuffer: array<T>, l: int, writeOffset: uint16, blocks: seq<array<T>>)
    returns (newOffset: uint16)
    requires 0 < l <= MAX_LENGTH && l <= circBuffer.Length && writeOffset < l && circBuffer !in blocks
    modifies circBuffer
    ensures circBuffer[..] == WrittenBlocks(old(circBuffer[..]), l, writeOffset, Contents(blocks))
    ensures newOffset == WriteOffset(l, writeOffset, Contents(blocks))
  {
    hide Slot, Written, WrittenBlocks, WriteOffset, Contents, InBounds;
    ghost var before, cs := circBuffer[..], Contents(blocks);
    NoBlocks(before, l, writeOffset);
    assert cs[..0] == [];
    newOffset := writeOffset;
    var i := 0;
    while i < |blocks|
      invariant 0 <= i <= |blocks|
      invariant Contents(blocks) == cs
      invariant newOffset < l && newOffset == WriteOffset(l, writeOffset, cs[..i])
      invariant circBuffer[..] == WrittenBlocks(before, l, writeOffset, cs[..i])
    {
      var b := blocks[i];
      ContentsAt(blocks, i);
      assert Strided(b[..], 1, b.Length) == b[..];
      NextBlock(before, l, writeOffset, cs, i);
      SlotIsRemainder(newOffset + b.Length, l);
      newOffset := CircularWrite(circBuffer, l, newOffset, 1, b, 1, b.Length);
      i := i + 1;
    }
    assert cs[..i] == cs;
  }

  lemma {:induction false} ContentsAt<T>(blocks: seq<array<T>>, i: nat)
    requires i < |blocks|
    ensures Contents(blocks)[i] == blocks[i][..]
  {
    if i < |blocks| - 1 {
      ContentsAt(blocks[..|blocks| - 1], i);
    }
  }

  lemma NoBlocks<T>(buf: seq<T>, l: nat, s: nat)
    requires 0 < l <= |buf| && s < l && s < 0x1_0000
    ensures WrittenBlocks(buf, l, s, []) == buf && WriteOffset<T>(l, s, []) == s
  {
  }

  lemma NextBlock<T>(buf: seq<T>, l: nat, s: nat, blocks: seq<seq<T>>, i: nat)
    requires 0 < l <= |buf| && s < l && s < 0x1_0000 && i < |blocks|
    ensures InBounds(l, WriteOffset(l, s, blocks[..i]), 1, |blocks[i]|)
    ensures WrittenBlocks(buf, l, s, blocks[..i + 1])
         == Written(WrittenBlocks(buf, l, s, blocks[..i]), l, WriteOffset(l, s, blocks[..i]), 1, blocks[i])
    ensures WriteOffset(l, s, blocks[..i + 1])
         == Slot(WriteOffset(l, s, blocks[..i]) + |blocks[i]| * 1, l) % 0x1_0000 < l
  {
    hide Slot, Written, InBounds;
    assert blocks[..i + 1][..i] == blocks[..i];
    OffsetFits(l, s, blocks[..i]);
    OffsetFits(l, s, blocks[..i + 1]);
    Forward(l, WriteOffset(l, s, blocks[..i]), 1, |blocks[i]|);
  }

  lemma {:induction false} WriteOffsetIsTotal<T>(l: nat, s: nat, blocks: seq<seq<T>>)
    requires 0 < l <= 0x1_0000 && s < l
    ensures WriteOffset(l, s, blocks) == Slot(s + |Concat(blocks)|, l)
  {
    hide Slot;
    if blocks != [] {
      var init, b := blocks[..|blocks| - 1], blocks[|blocks| - 1];
      WriteOffsetIsTotal(l, s, init);
      SlotAdd(s + |Concat(init)|, |b|, l);
      assert Slot(s + |Concat(blocks)|, l) < 0x1_0000;
    } else {
      SlotSmall(s, l);
    }
  }

  /** Over every sequence of block writes the buffer holds the end of the stream written. */
  lemma {:induction false} BlocksAreHistory<T>(buf: seq<T>, l: nat, s: nat, blocks: seq<seq<T>>)
    requires 0 < l <= |buf| && l <= 0x1_0000 && s < l
    ensures Holds(WrittenBlocks(buf, l, s, blocks), l, s, Concat(blocks))
  {
    hide Slot, Written;
    if blocks != [] {
      var init := blocks[..|blocks| - 1];
      BlocksAreHistory(buf, l, s, init);
      WriteOffsetIsTotal(l, s, init);
      WriteAppends(WrittenBlocks(buf, l, s, init), l, s, Concat(init), blocks[|blocks| - 1]);
    }
  }

  /** Once `l` samples are written, the buffer from the write offset on is exactly the last `l`. */
  lemma FullBufferIsRotated<T>(buf: seq<T>, l: nat, s: nat, blocks: seq<seq<T>>, i: nat)
    requires 0 < l <= |buf| && l <= 0x1_0000 && s < l && |Concat(blocks)| >= l && i < l
    ensures WrittenBlocks(buf, l, s, blocks)[Slot(WriteOffset(l, s, blocks) + i, l)]
         == Concat(blocks)[|Concat(blocks)| - l + i]
  {
    hide Slot;
    var h := Concat(blocks);
    BlocksAreHistory(buf, l, s, blocks);
    WriteOffsetIsTotal(l, s, blocks);
    SlotAdd(s + |h|, i, l);
    SlotStep(s + (|h| - l + i), l, l);
  }

  /** The read offset for a delay of `d` behind the write offset `w`, `(w - d) mod l`. */
  function DelayOffset(w: nat, d: nat, l: nat): (o: nat)
    requires l > 0 && d <= l
    ensures o < l
  {
    Slot(w + l - d, l)
  }

  lemma DelayedSlot(s: nat, n: nat, d: nat, i: nat, l: nat)
    requires l > 0 && d <= l && d <= n && i < d
    ensures Slot(DelayOffset(Slot(s + n, l), d, l) + i, l) == Slot(s + (n - d + i), l)
  {
    hide Slot;
    SlotAdd(Slot(s + n, l) + l - d, i, l);
    SlotAdd(s + n, l - d + i, l);
    SlotStep(s + (n - d + i), l, l);
  }

  lemma {:induction false} StraightDestination(length: nat, i: nat)
    requires i < length
    ensures DstAt(0, 0, length, 1, i) == i
  {
    if i > 0 {
      StraightDestination(length, i - 1);
    }
  }

  /** Reading with unit increments into a destination that is long enough. */
  lemma {:induction false} ReadStraight<T>(dst: seq<T>, buf: seq<T>, l: nat, r: nat, n: nat)
    requires r < l <= |buf| && n <= |dst|
    requires forall i :: 0 <= i < n ==> DstAt(0, 0, |dst|, 1, i) == i
    ensures InBounds(l, r, 1, n)
    ensures forall i :: 0 <= i < n ==> Delivered(dst, 0, 0, |dst|, 1, buf, l, r, 1, n)[i] == buf[Slot(r + i, l)]
  {
    hide Slot, DstAt, InBounds;
    Forward(l, r, 1, n);
    if n > 0 {
      ReadStraight(dst, buf, l, r, n - 1);
      assert DstAt(0, 0, |dst|, 1, n - 1) == n - 1;
    }
  }

  /**
   The delay line: after any block writes, reading `n` samples from `d` behind the write offset,
   `n <= d <= l`, returns the stream delayed by `d`: sample `i` is the one written `d - i` ago.
   */
  lemma DelayLine<T>(buf: seq<T>, l: nat, s: nat, blocks: seq<seq<T>>, dst: seq<T>, d: nat, n: nat, i: nat)
    requires 0 < l <= |buf| && l <= 0x1_0000 && s < l
    requires i < n <= d <= l && d <= |Concat(blocks)| && n <= |dst|
    ensures forall k :: 0 <= k < n ==> DstAt(0, 0, |dst|, 1, k) == k
    ensures InBounds(l, DelayOffset(WriteOffset(l, s, blocks), d, l), 1, n)
    ensures var r := DelayOffset(WriteOffset(l, s, blocks), d, l);
            var out := Delivered(dst, 0, 0, |dst|, 1, WrittenBlocks(buf, l, s, blocks), l, r, 1, n);
            out[i] == Concat(blocks)[|Concat(blocks)| - d + i]
  {
    hide Slot, DelayOffset;
    var h, b := Concat(blocks), WrittenBlocks(buf, l, s, blocks);
    BlocksAreHistory(buf, l, s, blocks);
    WriteOffsetIsTotal(l, s, blocks);
    forall k | 0 <= k < n
      ensures DstAt(0, 0, |dst|, 1, k) == k
    {
      StraightDestination(|dst|, k);
    }
    ReadStraight(dst, b, l, DelayOffset(WriteOffset(l, s, blocks), d, l), n);
    DelayedSlot(s, |h|, d, i, l);
  }

  // ---------- buffers of more than 2^16 elements ----------

  /**
   Two blocks of the sample `x` that fill a longer buffer: the first one ends at the offset 2^16,
   which 16 bits do not hold.
   */
  function TwoBlocks<T>(l: nat, s: nat, x: T): seq<seq<T>>
    requires s < 0x1_0000 < l
  {
    [seq(0x1_0000 - s, _ => x), seq(l - 0x1_0000 + s, _ => x)]
  }

  lemma {:induction false} WrittenElsewhere<T>(buf: seq<T>, l: nat, w: nat, xs: seq<T>, k: nat)
    requires 0 < l <= |buf| && w + |xs| <= k < l
    ensures InBounds(l, w, 1, |xs|)
    ensures Written(buf, l, w, 1, xs)[k] == buf[k]
  {
    hide InBounds;
    Forward(l, w, 1, |xs|);
    if xs != [] {
      hide Slot;
      WrittenElsewhere(buf, l, w, xs[..|xs| - 1], k);
      SlotSmall(w + (|xs| - 1), l);
    }
  }

  /** The offset comes back as 0, so the second block starts again there and misses the end. */
  lemma TwoBlocksMissTheEnd<T>(buf: seq<T>, l: nat, s: nat, x: T)
    requires s < 0x1_0000 < l <= |buf|
    ensures var blocks := TwoBlocks(l, s, x);
            && |Concat(blocks)| == l && (forall j :: 0 <= j < l ==> Concat(blocks)[j] == x)
            && WriteOffset(l, s, blocks) < l
            && WrittenBlocks(buf, l, s, blocks)[l - 1] == buf[l - 1]
  {
    hide Slot, Written;
    var blocks := TwoBlocks(l, s, x);
    var b0, b1 := blocks[0], blocks[1];
    assert blocks[..1] == [b0] && [b0][..0] == [];
    assert Concat([b0]) == [] + b0;
    SlotSmall(0x1_0000, l);
    assert WriteOffset(l, s, [b0]) == 0;
    Forward(l, s, 1, |b0|);
    Forward(l, 0, 1, |b1|);
    assert WrittenBlocks(buf, l, s, [b0]) == Written(buf, l, s, 1, b0);
    assert WrittenBlocks(buf, l, s, blocks) == Written(Written(buf, l, s, 1, b0), l, 0, 1, b1);
    WrittenElsewhere(buf, l, s, b0, l - 1);
    WrittenElsewhere(Written(buf, l, s, 1, b0), l, 0, b1, l - 1);
  }

  /** The delay line that reads back all `l` samples delivers a stale one at the end of the buffer. */
  lemma DelayLineFails<T>(buf: seq<T>, l: nat, s: nat, x: T, dst: seq<T>)
    requires s < 0x1_0000 < l <= |buf| && x != buf[l - 1] && l <= |dst|
    ensures forall k :: 0 <= k < l ==> DstAt(0, 0, |dst|, 1, k) == k
    ensures var blocks := TwoBlocks(l, s, x);
            var w := WriteOffset(l, s, blocks);
            var i := l - 1 - w;
            && 0 <= i < l && |Concat(blocks)| == l && InBounds(l, DelayOffset(w, l, l), 1, l)
            && WrittenBlocks(buf, l, s, blocks)[Slot(w + i, l)] != Concat(blocks)[i]
            && Delivered(dst, 0, 0, |dst|, 1, WrittenBlocks(buf, l, s, blocks), l, DelayOffset(w, l, l), 1, l)[i]
            != Concat(blocks)[i]
  {
    hide Slot, Written, DelayOffset, DstAt, Concat, WriteOffset, WrittenBlocks, TwoBlocks;
    var blocks := TwoBlocks(l, s, x);
    var w := WriteOffset(l, s, blocks);
    TwoBlocksMissTheEnd(buf, l, s, x);
    SlotSmall(l - 1, l);
    FullDelay(w, l);
    forall k | 0 <= k < l
      ensures DstAt(0, 0, |dst|, 1, k) == k
    {
      StraightDestination(|dst|, k);
    }
    ReadStraight(dst, WrittenBlocks(buf, l, s, blocks), l, w, l);
  }

  lemma FullDelay(w: nat, l: nat)
    requires w < l
    ensures DelayOffset(w, l, l) == w
  {
  }

  /** Every buffer of length `l` written from `s` on in blocks holds the stream. */
  ghost predicate KeepsHistory<T(!new)>(l: nat, s: nat)
    requires s < l && s < 0x1_0000
  {
    forall buf: seq<T>, blocks: seq<seq<T>> ::
      l <= |buf| ==> Holds(WrittenBlocks(buf, l, s, blocks), l, s, Concat(blocks))
  }

  /**
   The limit is exact: the buffer holds the end of every stream of blocks if and only if its
   length is at most 2^16, for every element type with at least two values.
   */
  lemma HistoryExactly<T(!new)>(l: nat, s: nat, x: T, y: T)
    requires 0 < l && s < l && s < 0x1_0000 && x != y
    ensures KeepsHistory<T>(l, s) <==> l <= 0x1_0000
  {
    hide Slot, Written, Concat, WriteOffset, WrittenBlocks, TwoBlocks, Holds;
    if l <= 0x1_0000 {
      forall buf: seq<T>, blocks: seq<seq<T>> | l <= |buf|
        ensures Holds(WrittenBlocks(buf, l, s, blocks), l, s, Concat(blocks))
      {
        BlocksAreHistory(buf, l, s, blocks);
      }
    } else {
      var buf := seq(l, _ => y);
      TwoBlocksLoseHistory(buf, l, s, x);
      assert !Holds(WrittenBlocks(buf, l, s, TwoBlocks(l, s, x)), l, s, Concat(TwoBlocks(l, s, x)));
    }
  }

  lemma TwoBlocksLoseHistory<T>(buf: seq<T>, l: nat, s: nat, x: T)
    requires s < 0x1_0000 < l <= |buf| && x != buf[l - 1]
    ensures !Holds(WrittenBlocks(buf, l, s, TwoBlocks(l, s, x)), l, s, Concat(TwoBlocks(l, s, x)))
  {
    hide Slot, Written, Concat, WriteOffset, WrittenBlocks, TwoBlocks;
    TwoBlocksMissTheEnd(buf, l, s, x);
    SlotSmall(l - 1, l);
    var b, h, j := WrittenBlocks(buf, l, s, TwoBlocks(l, s, x)), Concat(TwoBlocks(l, s, x)), l - 1 - s;
    assert b[Slot(s + j, l)] != h[j];
  }
}
