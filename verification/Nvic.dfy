/**
 Interrupt priorities on the Cortex-M0+, which can only be accessed as words holding four of
 them: `NVIC_SetPriority` and `NVIC_GetPriority` of `core_cm0plus.h`.
 */
module Nvic {
  import opened Arithmetic
  import opened Bits

  /** Core interrupts -8..-1 have priority bytes in `SHP`, device interrupts 0..31 in `IP`. */
  type Irq = n: int | -8 <= n < 32

  datatype Words = Words(ip: seq<uint32>, shp: seq<uint32>)

  predicate Valid(s: Words) { |s.ip| == 8 && |s.shp| == 2 }

  // ---------- the addressing macros ----------

  /** `_BIT_SHIFT / 8`, `_SHP_IDX` and `_IP_IDX` */
  function Lane(irq: Irq): nat { Bitwise(And, ToUint32(irq), 0x03) }

  function ShpIdx(irq: Irq): nat { ToUint32(Bitwise(And, ToUint32(irq), 0x0F) as int - 8) / 4 }

  function IpIdx(irq: Irq): nat { ToUint32(irq) / 4 }

  lemma Addressing(irq: Irq)
    ensures Lane(irq) == irq % 4 < 4
    ensures irq < 0 ==> ShpIdx(irq) == (irq + 8) / 4 < 2
    ensures irq >= 0 ==> IpIdx(irq) == irq / 4 < 8
  {
    hide Bitwise, ToUint32;
    LowBits(ToUint32(irq));
    if irq < 0 {
      NegativeWord(irq);
      SmallUnsigned(irq + 8);
    } else {
      SmallUnsigned(irq);
    }
  }

  lemma NegativeWord(irq: int)
    requires -8 <= irq < 0
    ensures ToUint32(irq) % 4 == irq % 4 && ToUint32(irq) % 16 == irq + 16
  {
    DivisionUnique(irq, WORD, -1, irq + WORD);
    DivisionUnique(irq + WORD, 16, WORD / 16 - 1, irq + 16);
    DivisionUnique(irq + WORD, 4, WORD / 4 + irq / 4, irq % 4);
  }

  lemma LowBits(w: uint32)
    ensures Bitwise(And, w, 0x03) == w % 4
    ensures Bitwise(And, w, 0x0F) == w % 16
  {
    hide Bitwise, Shl;
    assert Pow2(2) == 4 && Pow2(4) == 16;
    ShlIsProduct(w / 4, 2);
    ShlIsProduct(w / 16, 4);
    LowMask(2, w / 4, w % 4);
    LowMask(4, w / 16, w % 16);
  }

  // ---------- one priority in a word ----------

  /** `(w & ~(0xFF << shift)) | (((priority << 6) & 0xFF) << shift)` */
  function SetLane(w: uint32, lane: nat, priority: uint32): uint32
    requires lane < 4
  {
    var mask := ToUint32(Shl(0xFF, 8 * lane));
    var field := Bitwise(And, ToUint32(Shl(priority, 6)), 0xFF);
    Bitwise(Or, Bitwise(And, w, 0xFFFF_FFFF - mask), ToUint32(Shl(field, 8 * lane))) % WORD
  }

  /** `((w >> shift) & 0xFF) >> 6` */
  function GetLane(w: uint32, lane: nat): nat
    requires lane < 4
  {
    Bitwise(And, ShiftedDown(w, lane), 0xFF) / 64
  }

  /** `w >> (8 * lane)` */
  function ShiftedDown(w: uint32, lane: nat): uint32
    requires lane < 4
  {
    if lane == 0 then w else if lane == 1 then w / 0x100 else if lane == 2 then w / 0x1_0000 else w / 0x100_0000
  }

  /** The word with `b` in one lane and zero, or all ones, in the others. */
  function OnlyLane(lane: nat, b: byte, others: byte): uint32
    requires lane < 4
  {
    Word(if lane == 0 then b else others, if lane == 1 then b else others,
         if lane == 2 then b else others, if lane == 3 then b else others)
  }

  lemma ShiftedByte(b: byte, lane: nat)
    requires lane < 4
    ensures ToUint32(Shl(b, 8 * lane)) == OnlyLane(lane, b, 0)
    ensures 0xFFFF_FFFF - ToUint32(Shl(0xFF, 8 * lane)) == OnlyLane(lane, 0, 0xFF)
  {
    hide Shl, Pow2, ToUint32;
    Pow2Values();
    ShlIsProduct(b, 8 * lane);
    ShlIsProduct(0xFF, 8 * lane);
    var p := Pow2(8 * lane);
    assert p == if lane == 0 then 1 else if lane == 1 then 0x100 else if lane == 2 then 0x1_0000 else 0x100_0000;
    SmallUnsigned(b * p);
    SmallUnsigned(0xFF * p);
  }

  /** The two priority bits end up at the top of the byte; all higher bits are dropped. */
  lemma FieldOf(priority: uint32)
    ensures Bitwise(And, ToUint32(Shl(priority, 6)), 0xFF) == priority % 4 * 64
  {
    hide Bitwise, Shl;
    Pow2Values();
    assert Pow2(6) == 64;
    ShlIsProduct(priority, 6);
    var w: int := ToUint32(Shl(priority, 6));
    assert w % 256 == priority % 4 * 64;
    ShlIsProduct(w / 256, 8);
    LowMask(8, w / 256, w % 256);
  }

  lemma SetLaneBytes(w: uint32, lane: nat, priority: uint32, k: nat)
    requires lane < 4 && k < 4
    ensures Byte(SetLane(w, lane, priority), k) == if k == lane then priority % 4 * 64 else Byte(w, k)
  {
    hide Bitwise, Shl, OnBytes, Word, Byte;
    var b: byte := priority % 4 * 64;
    FieldOf(priority);
    ShiftedByte(b, lane);
    WordOfBytes(w);
    MergeLanes(Byte(w, 0), Byte(w, 1), Byte(w, 2), Byte(w, 3), lane, b);
    BytesOfWord(if lane == 0 then b else Byte(w, 0), if lane == 1 then b else Byte(w, 1),
                if lane == 2 then b else Byte(w, 2), if lane == 3 then b else Byte(w, 3));
  }

  lemma MergeLanes(b0: byte, b1: byte, b2: byte, b3: byte, lane: nat, b: byte)
    requires lane < 4
    ensures Bitwise(Or, Bitwise(And, Word(b0, b1, b2, b3), OnlyLane(lane, 0, 0xFF)), OnlyLane(lane, b, 0))
         == Word(if lane == 0 then b else b0, if lane == 1 then b else b1,
                 if lane == 2 then b else b2, if lane == 3 then b else b3)
  {
    hide Bitwise, OnBytes, Word;
    var m0: byte, m1: byte := if lane == 0 then 0 else 0xFF, if lane == 1 then 0 else 0xFF;
    var m2: byte, m3: byte := if lane == 2 then 0 else 0xFF, if lane == 3 then 0 else 0xFF;
    var n0: byte, n1: byte, n2: byte, n3: byte :=
      if lane == 0 then b else 0, if lane == 1 then b else 0, if lane == 2 then b else 0, if lane == 3 then b else 0;
    ByteMasks(b);
    ByteMasks(b0);
    ByteMasks(b1);
    ByteMasks(b2);
    ByteMasks(b3);
    Bytewise(And, b0, b1, b2, b3, m0, m1, m2, m3);
    Bytewise(Or, OnBytes(And, b0, m0), OnBytes(And, b1, m1), OnBytes(And, b2, m2), OnBytes(And, b3, m3),
             n0, n1, n2, n3);
  }

  lemma GetLaneIsByte(w: uint32, lane: nat)
    requires lane < 4
    ensures GetLane(w, lane) == Byte(w, lane) / 64
  {
    hide Bitwise, Shl;
    Pow2Values();
    var v: int := ShiftedDown(w, lane);
    ShlIsProduct(v / 256, 8);
    LowMask(8, v / 256, v % 256);
  }

  // ---------- all priorities ----------

  function Set(s: Words, irq: Irq, priority: uint32): (t: Words)
    requires Valid(s)
    ensures Valid(t)
  {
    Addressing(irq);
    if irq < 0 then s.(shp := s.shp[ShpIdx(irq) := SetLane(s.shp[ShpIdx(irq)], Lane(irq), priority)])
    else s.(ip := s.ip[IpIdx(irq) := SetLane(s.ip[IpIdx(irq)], Lane(irq), priority)])
  }

  function Get(s: Words, irq: Irq): nat
    requires Valid(s)
  {
    Addressing(irq);
    if irq < 0 then GetLane(s.shp[ShpIdx(irq)], Lane(irq)) else GetLane(s.ip[IpIdx(irq)], Lane(irq))
  }

  /** A set is read back modulo the two implemented bits, and no other interrupt notices it. */
  lemma GetSet(s: Words, i: Irq, priority: uint32, j: Irq)
    requires Valid(s)
    ensures Get(Set(s, i, priority), j) == if i == j then priority % 4 else Get(s, j)
  {
    hide Lane, ShpIdx, IpIdx, SetLane, GetLane, Byte;
    Addressing(i);
    Addressing(j);
    if (i < 0) == (j < 0) && (if i < 0 then ShpIdx(i) == ShpIdx(j) else IpIdx(i) == IpIdx(j)) {
      var w := if i < 0 then s.shp[ShpIdx(i)] else s.ip[IpIdx(i)];
      SetLaneBytes(w, Lane(i), priority, Lane(j));
      GetLaneIsByte(SetLane(w, Lane(i), priority), Lane(j));
      GetLaneIsByte(w, Lane(j));
    }
  }

  datatype Call = Call(irq: Irq, priority: uint32)

  function SetAll(s: Words, calls: seq<Call>): (t: Words)
    requires Valid(s)
    ensures Valid(t)
  {
    if calls == [] then s
    else Set(SetAll(s, calls[..|calls| - 1]), calls[|calls| - 1].irq, calls[|calls| - 1].priority)
  }

  /** The plain map the words stand for: the last priority each interrupt was given. */
  function LastSet(m: map<Irq, nat>, calls: seq<Call>): map<Irq, nat> {
    if calls == [] then m
    else LastSet(m, calls[..|calls| - 1])[calls[|calls| - 1].irq := calls[|calls| - 1].priority % 4]
  }

  /** Over every sequence of calls the packed words behave as that map. */
  lemma {:induction false} WordsRefineMap(s: Words, m: map<Irq, nat>, calls: seq<Call>, irq: Irq)
    requires Valid(s) && irq in m && m[irq] == Get(s, irq)
    ensures irq in LastSet(m, calls) && LastSet(m, calls)[irq] == Get(SetAll(s, calls), irq)
  {
    if calls != [] {
      hide Get, Set;
      var init, c := calls[..|calls| - 1], calls[|calls| - 1];
      WordsRefineMap(s, m, init, irq);
      GetSet(SetAll(s, init), c.irq, c.priority, irq);
    }
  }

  class Registers {
    const ip: array<uint32>
    const shp: array<uint32>

    ghost predicate Valid()
      reads this
    {
      ip.Length == 8 && shp.Length == 2 && ip != shp
    }

    function View(): Words
      reads ip, shp
    {
      Words(ip[..], shp[..])
    }

    constructor ()
      ensures Valid() && fresh(ip) && fresh(shp)
    {
      ip := new uint32[8](i => 0);
      shp := new uint32[2](i => 0);
    }

    method SetPriority(irq: Irq, priority: uint32)
      requires Valid()
      modifies ip, shp
      ensures View() == Set(old(View()), irq, priority)
      ensures forall j: Irq :: Get(View(), j) == if j == irq then priority % 4 else Get(old(View()), j)
    {
      hide Lane, ShpIdx, IpIdx, SetLane, Get;
      Addressing(irq);
      forall j: Irq
        ensures Get(Set(View(), irq, priority), j) == if j == irq then priority % 4 else Get(View(), j)
      {
        GetSet(View(), irq, priority, j);
      }
      if irq < 0 {
        shp[ShpIdx(irq)] := SetLane(shp[ShpIdx(irq)], Lane(irq), priority);
      } else {
        ip[IpIdx(irq)] := SetLane(ip[IpIdx(irq)], Lane(irq), priority);
      }
    }

    method GetPriority(irq: Irq) returns (priority: nat)
      requires Valid()
      ensures priority == Get(View(), irq)
    {
      hide Lane, ShpIdx, IpIdx, GetLane;
      Addressing(irq);
      if irq < 0 {
        priority := GetLane(shp[ShpIdx(irq)], Lane(irq));
      } else {
        priority := GetLane(ip[IpIdx(irq)], Lane(irq));
      }
    }
  }
}
