/**
 The NEC infrared receiver: the edge interrupt of `ir_recv.c`, its timer helper, and the two
 calls the main loop makes.

 `Step` is one run of the interrupt handler on the five static variables; `IrReceiver` is the
 same driver as the source has it, a set of variables updated in place, proved against `Step`.
 */
module NecDecoder {
  import opened Bits

  const LEADER_MARK_MIN := 8000
  const LEADER_MARK_MAX := 10000
  const LEADER_SPACE_MIN := 4000
  const LEADER_SPACE_MAX := 5000
  const REPEAT_SPACE_MIN := 1800
  const REPEAT_SPACE_MAX := 2800
  const BIT_MARK_MIN := 350
  const BIT_MARK_MAX := 800
  const ZERO_SPACE_MIN := 350
  const ZERO_SPACE_MAX := 800
  const ONE_SPACE_MIN := 1400
  const ONE_SPACE_MAX := 1900
  const FRAME_TIMEOUT := 15000

  const MRT_MAX_COUNT := 0x7FFF_FFFF
  const MRT_COUNTS_PER_US := 30

  datatype State = Idle | LeaderLow | LeaderHigh | DataLow | DataHigh

  /** What the handler finds: which edge flags are set and the microseconds since the last run. */
  datatype Edge = Edge(rise: bool, fall: bool, elapsed: nat)

  /** The driver's static variables. */
  datatype Decoder = Decoder(state: State, raw: uint32, count: byte, ready: bool, last: uint32)

  const RESET := Decoder(Idle, 0, 0, false, 0)

  datatype Frame = Frame(addr: byte, addrInv: byte, cmd: byte, cmdInv: byte)

  predicate IsLeaderMark(e: Edge) { LEADER_MARK_MIN <= e.elapsed <= LEADER_MARK_MAX }
  predicate IsLeaderSpace(e: Edge) { LEADER_SPACE_MIN <= e.elapsed <= LEADER_SPACE_MAX }
  predicate IsRepeatSpace(e: Edge) { REPEAT_SPACE_MIN <= e.elapsed <= REPEAT_SPACE_MAX }
  predicate IsBitMark(e: Edge) { BIT_MARK_MIN <= e.elapsed <= BIT_MARK_MAX }
  predicate IsZero(e: Edge) { ZERO_SPACE_MIN <= e.elapsed <= ZERO_SPACE_MAX }
  predicate IsOne(e: Edge) { ONE_SPACE_MIN <= e.elapsed <= ONE_SPACE_MAX }

  /** Microseconds since the reload, from the down counter; the subtraction is on 32-bit words. */
  function ElapsedUs(remaining: uint32): nat {
    (MRT_MAX_COUNT - remaining) % WORD / MRT_COUNTS_PER_US
  }

  /** A window test on the elapsed time is a window on the counts gone by, open at its last microsecond. */
  lemma WindowInCounts(remaining: uint32, min: nat, max: nat)
    requires remaining <= 0x7FFF_FFFF
    ensures min <= ElapsedUs(remaining) <= max
       <==> min * 30 <= 0x7FFF_FFFF - remaining < (max + 1) * 30
  {
    var counts := MRT_MAX_COUNT - remaining;
    assert counts == MRT_COUNTS_PER_US * (counts / MRT_COUNTS_PER_US) + counts % MRT_COUNTS_PER_US;
  }

  /** `d` with the bit `b` stored at the current position. */
  function StoreBit(d: Decoder, b: nat): Decoder
    requires b < 2
  {
    var raw := Bitwise(Or, d.raw, Shl(b, d.count)) % WORD;
    var count := (d.count + 1) % 256;
    if count == 32 then Decoder(Idle, raw, count, true, raw)
    else d.(state := DataLow, raw := raw, count := count)
  }

  /** The timeout guard that precedes the state machine. */
  function Guard(d: Decoder, e: Edge): Decoder {
    if e.elapsed > FRAME_TIMEOUT && d.state != Idle then d.(state := Idle) else d
  }

  /** One run of the interrupt handler. */
  function Step(d0: Decoder, e: Edge): Decoder {
    var d := Guard(d0, e);
    match d.state
    case Idle => if e.fall then d.(state := LeaderLow) else d
    case LeaderLow =>
      if !e.rise then d
      else d.(state := if IsLeaderMark(e) then LeaderHigh else Idle)
    case LeaderHigh =>
      if !e.fall then d
      else if IsLeaderSpace(e) then d.(state := DataLow, raw := 0, count := 0)
      else if IsRepeatSpace(e) then d.(state := Idle, ready := true)
      else d.(state := Idle)
    case DataLow =>
      if !e.rise then d
      else d.(state := if IsBitMark(e) then DataHigh else Idle)
    case DataHigh =>
      if !e.fall then d
      else if IsZero(e) then StoreBit(d, 0)
      else if IsOne(e) then StoreBit(d, 1)
      else d.(state := Idle)
  }

  function Run(d: Decoder, es: seq<Edge>): Decoder {
    if es == [] then d else Step(Run(d, es[..|es| - 1]), es[|es| - 1])
  }

  function DecodeFrame(raw: uint32): Frame {
    Frame(raw % 256, raw / 0x100 % 256, raw / 0x1_0000 % 256, raw / 0x100_0000 % 256)
  }

  // ---------- what a step does, seen from outside ----------

  /** The step sets the ready flag, whatever the flag was. */
  predicate Signals(d: Decoder, e: Edge) {
    Step(d.(ready := false), e).ready
  }

  /** The step assigns `s_last_code`: its new value does not depend on the old one. */
  predicate Assigns(d: Decoder, e: Edge) {
    Step(d.(last := 0), e).last == Step(d.(last := 1), e).last
  }

  /** The codes made available to the main loop over a run, in order. */
  function Events(d: Decoder, es: seq<Edge>): seq<uint32> {
    if es == [] then []
    else
      var before := Run(d, es[..|es| - 1]);
      var e := es[|es| - 1];
      Events(d, es[..|es| - 1]) + if Signals(before, e) then [Step(before, e).last] else []
  }

  // ---------- invariant ----------

  /** In the data states fewer than 32 bits are stored and nothing above them is set. */
  ghost predicate Bounded(d: Decoder) {
    d.state in {DataLow, DataHigh} ==> d.count <= 31 && d.raw < Pow2(d.count)
  }

  /** The OR that stores a bit adds it at its weight, and the word never overflows. */
  lemma StoredBit(d: Decoder, b: nat)
    requires b < 2 && d.count <= 31 && d.raw < Pow2(d.count)
    ensures Bitwise(Or, d.raw, Shl(b, d.count)) == d.raw + Shl(b, d.count) < Pow2(d.count + 1) <= WORD
  {
    hide Bitwise, Shl;
    OrAbove(d.count, d.raw, b);
    ShlIsProduct(b, d.count);
    Pow2Monotone(d.count + 1, 32);
    Pow2Values();
    assert Pow2(d.count + 1) == 2 * Pow2(d.count);
  }

  /** The decoder with one more bit, in plain arithmetic. */
  function WithBit(d: Decoder, v: uint32): Decoder {
    if d.count == 31 then Decoder(Idle, v, 32, true, v)
    else d.(state := DataLow, raw := v, count := (d.count + 1) % 256)
  }

  lemma StoreBitAdds(d: Decoder, b: nat)
    requires b < 2 && d.count <= 31 && d.raw < Pow2(d.count)
    ensures var v := d.raw + Shl(b, d.count); v < Pow2(d.count + 1) && v < WORD && StoreBit(d, b) == WithBit(d, v)
  {
    hide Bitwise, Shl, Pow2;
    StoredBit(d, b);
  }

  lemma StoreBitKeepsBound(d: Decoder, b: nat)
    requires b < 2 && d.count <= 31 && d.raw < Pow2(d.count)
    ensures Bounded(StoreBit(d, b))
  {
    hide Bitwise, Shl, Pow2, StoreBit;
    StoreBitAdds(d, b);
  }

  /** Every interrupt, whatever edge flags and delay it finds, keeps the bound. */
  lemma StepKeepsBound(d0: Decoder, e: Edge)
    requires Bounded(d0)
    ensures Bounded(Step(d0, e))
  {
    hide Bitwise, Shl, Pow2, StoreBit;
    var d := Guard(d0, e);
    if d.state == DataHigh && e.fall {
      if IsZero(e) {
        StoreBitKeepsBound(d, 0);
      } else if IsOne(e) {
        StoreBitKeepsBound(d, 1);
      }
    }
  }

  lemma {:induction false} RunKeepsBound(d: Decoder, es: seq<Edge>)
    requires Bounded(d)
    ensures Bounded(Run(d, es))
  {
    if es != [] {
      RunKeepsBound(d, es[..|es| - 1]);
      StepKeepsBound(Run(d, es[..|es| - 1]), es[|es| - 1]);
    }
  }

  /**
   An interrupt touches `s_last_code` only when it completes the 32nd bit, and then stores the
   finished word and signals; a frame that is aborted anywhere before leaves it alone.
   */
  lemma OnlyCompleteFramesAssign(d: Decoder, e: Edge)
    requires Bounded(d)
    ensures Assigns(d, e) <==>
            d.state == DataHigh && d.count == 31 && e.fall && (IsZero(e) || IsOne(e))
    ensures Assigns(d, e) ==> Signals(d, e) && Step(d, e).last == Step(d, e).raw
    ensures !Assigns(d, e) ==> Step(d, e).last == d.last
    ensures Signals(d, e) && !Assigns(d, e) ==> d.state == LeaderHigh && IsRepeatSpace(e)
  {
    hide Bitwise, Shl, Pow2;
  }

  // ---------- the driver ----------

  class IrReceiver {
    var state: State
    var rawCode: uint32
    var bitCnt: byte
    var codeRdy: bool
    var lastCode: uint32

    function View(): Decoder
      reads this
    {
      Decoder(state, rawCode, bitCnt, codeRdy, lastCode)
    }

    constructor ()
      ensures View() == RESET
    {
      state, rawCode, bitCnt, codeRdy, lastCode := Idle, 0, 0, false, 0;
    }

    method PinInterrupt(isRise: bool, isFall: bool, remaining: uint32)
      modifies this
      ensures View() == Step(old(View()), Edge(isRise, isFall, ElapsedUs(remaining)))
    {
      var counts: uint32 := (MRT_MAX_COUNT - remaining) % WORD;
      var elapsed := counts / MRT_COUNTS_PER_US;
      if elapsed > FRAME_TIMEOUT && state != Idle {
        state := Idle;
      }
      match state
      case Idle =>
        if isFall {
          state := LeaderLow;
        }
      case LeaderLow =>
        if isRise {
          if LEADER_MARK_MIN <= elapsed <= LEADER_MARK_MAX {
            state := LeaderHigh;
          } else {
            state := Idle;
          }
        }
      case LeaderHigh =>
        if isFall {
          if LEADER_SPACE_MIN <= elapsed <= LEADER_SPACE_MAX {
            rawCode, bitCnt := 0, 0;
            state := DataLow;
          } else if REPEAT_SPACE_MIN <= elapsed <= REPEAT_SPACE_MAX {
            codeRdy := true;
            state := Idle;
          } else {
            state := Idle;
          }
        }
      case DataLow =>
        if isRise {
          if BIT_MARK_MIN <= elapsed <= BIT_MARK_MAX {
            state := DataHigh;
          } else {
            state := Idle;
          }
        }
      case DataHigh =>
        if isFall {
          var bit := 0;
          if ZERO_SPACE_MIN <= elapsed <= ZERO_SPACE_MAX {
          } else if ONE_SPACE_MIN <= elapsed <= ONE_SPACE_MAX {
            bit := 1;
          } else {
            state := Idle;
            return;
          }
          rawCode := Bitwise(Or, rawCode, Shl(bit, bitCnt)) % WORD;
          bitCnt := (bitCnt + 1) % 256;
          if bitCnt == 32 {
            lastCode := rawCode;
            codeRdy := true;
            state := Idle;
          } else {
            state := DataLow;
          }
        }
    }

    method CodeReady() returns (r: bool)
      ensures r == View().ready
    {
      r := codeRdy;
    }

    /** With no interrupt between its two accesses; `NecHandoff` lets interrupts in. */
    method GetCode() returns (code: uint32)
      modifies this
      ensures code == old(View()).last
      ensures View() == old(View()).(ready := false)
    {
      codeRdy := false;
      code := lastCode;
    }
  }
}
