/**
 From a transmitter's address and command to what `main` prints: encoding to timer counts,
 reception, decoding, and the integrity check.
 */
module NecRoundTrip {
  import opened Bits
  import opened NecDecoder
  import opened NecFrames
  import opened NecTiming
  import opened Wrappers

  // ---------- the transmitter ----------

  /** The code for an address and a command: each byte followed by its complement. */
  function CodeFor(addr: byte, cmd: byte): uint32 {
    Word(addr, 255 - addr, cmd, 255 - cmd)
  }

  /** The down counter shows a time between `min` and `max` microseconds, to the last count of it. */
  predicate Shows(remaining: uint32, min: nat, max: nat) {
    min * 30 <= 0x7FFF_FFFF - remaining < (max + 1) * 30
  }

  /**
   The counts the down counter may show at the edges of a frame that sends `code`; the first edge
   comes at any time.
   */
  predicate Sends(timer: seq<uint32>, code: nat) {
    && |timer| == 67
    && Shows(timer[1], 8000, 10000)
    && Shows(timer[2], 4000, 5000)
    && (forall i :: 3 <= i < 67 && i % 2 == 1 ==> Shows(timer[i], 350, 800))
    && (forall i :: 4 <= i < 67 && i % 2 == 0 ==>
          if Bit(code, i / 2 - 2) == 0 then Shows(timer[i], 350, 800) else Shows(timer[i], 1400, 1900))
  }

  /** The interrupt's view of edge `i`: even edges fall, odd edges rise. */
  function EdgeAt(i: nat, remaining: uint32): Edge {
    Edge(i % 2 == 1, i % 2 == 0, ElapsedUs(remaining))
  }

  function Transmit(timer: seq<uint32>): seq<Edge> {
    seq(|timer|, i requires 0 <= i < |timer| => EdgeAt(i, timer[i]))
  }

  lemma ShowsElapsed(remaining: uint32, min: nat, max: nat)
    requires Shows(remaining, min, max)
    ensures min <= ElapsedUs(remaining) <= max
  {
    hide ElapsedUs;
    WindowInCounts(remaining, min, max);
  }

  /** Whatever counts are chosen, the edges carry the code. */
  lemma TransmitCarries(timer: seq<uint32>, code: nat)
    requires Sends(timer, code)
    ensures Carries(Transmit(timer), code)
  {
    hide ElapsedUs, Shows, Bit;
    var f := Transmit(timer);
    ShowsElapsed(timer[1], 8000, 10000);
    ShowsElapsed(timer[2], 4000, 5000);
    forall i | 3 <= i < 67 && i % 2 == 1
      ensures 350 <= f[i].elapsed <= 800
    {
      ShowsElapsed(timer[i], 350, 800);
    }
    forall i | 4 <= i < 67 && i % 2 == 0
      ensures if Bit(code, i / 2 - 2) == 0 then 350 <= f[i].elapsed <= 800 else 1400 <= f[i].elapsed <= 1900
    {
      if Bit(code, i / 2 - 2) == 0 {
        ShowsElapsed(timer[i], 350, 800);
      } else {
        ShowsElapsed(timer[i], 1400, 1900);
      }
    }
    assert forall i :: 0 <= i < 67 ==> f[i].fall == (i % 2 == 0) && f[i].rise == (i % 2 == 1);
  }

  // ---------- the receiving end ----------

  /** The check in `main`: each byte XOR its complement byte must be 0xFF. */
  predicate Passes(f: Frame) {
    Bitwise(Xor, f.addr, f.addrInv) % 256 == 0xFF && Bitwise(Xor, f.cmd, f.cmdInv) % 256 == 0xFF
  }

  lemma FrameBytes(raw: uint32)
    ensures DecodeFrame(raw) == Frame(Byte(raw, 0), Byte(raw, 1), Byte(raw, 2), Byte(raw, 3))
    ensures raw % 256 == Byte(raw, 0) && raw / 0x1_0000 % 256 == Byte(raw, 2)
  {
  }

  /** The check accepts exactly the codes a transmitter can send. */
  lemma PassesExactlyCodes(raw: uint32)
    ensures Passes(DecodeFrame(raw)) <==> raw == CodeFor(raw % 256, raw / 0x1_0000 % 256)
  {
    hide Bitwise, Word, Byte;
    var f := DecodeFrame(raw);
    Pow2Values();
    XorIsOnes(8, f.addr, f.addrInv);
    XorIsOnes(8, f.cmd, f.cmdInv);
    FrameBytes(raw);
    WordOfBytes(raw);
    BytesOfWord(f.addr, 255 - f.addr, f.cmd, 255 - f.cmd);
  }

  lemma CodeForDecodes(addr: byte, cmd: byte)
    ensures DecodeFrame(CodeFor(addr, cmd)) == Frame(addr, 255 - addr, cmd, 255 - cmd)
    ensures Passes(DecodeFrame(CodeFor(addr, cmd)))
  {
    hide Bitwise, Word, Byte, DecodeFrame;
    FrameBytes(CodeFor(addr, cmd));
    BytesOfWord(addr, 255 - addr, cmd, 255 - cmd);
    PassesExactlyCodes(CodeFor(addr, cmd));
  }

  /**
   End to end: for every address and command, every choice of timer counts inside the windows,
   and every earlier state from which the first fall can open a frame, the main loop is
   signalled once, reads the code sent, and decodes it to the bytes that were encoded.
   */
  lemma RoundTrip(d: Decoder, addr: byte, cmd: byte, timer: seq<uint32>)
    requires Sends(timer, CodeFor(addr, cmd))
    requires d.state == Idle || 0x7FFF_FFFF as int - timer[0] >= 15001 * 30
    ensures var r := Run(d, Transmit(timer));
            && r.ready && r.state == Idle
            && DecodeFrame(r.last) == Frame(addr, 255 - addr, cmd, 255 - cmd)
            && Passes(DecodeFrame(r.last))
    ensures Events(d, Transmit(timer)) == [CodeFor(addr, cmd)]
  {
    hide Pow2, Run, Events, Bitwise, Word, Sends, Carries, ElapsedUs;
    var f := Transmit(timer);
    TransmitCarries(timer, CodeFor(addr, cmd));
    FirstEdge(timer, CodeFor(addr, cmd));
    FrameIsReceived(d, f, CodeFor(addr, cmd));
    CodeForDecodes(addr, cmd);
  }

  lemma FirstEdge(timer: seq<uint32>, code: nat)
    requires Sends(timer, code)
    ensures |timer| == 67
    ensures 0x7FFF_FFFF as int - timer[0] >= 15001 * 30 ==> ElapsedUs(timer[0]) > 15000
  {
    if 0x7FFF_FFFF as int - timer[0] >= 15001 * 30 {
      ShowsElapsed(timer[0], 15001, 0x8000_0000);
    }
  }

  /** What one pass of the endless loop in `main` prints: the code, its bytes and the verdict. */
  datatype Report = Report(raw: uint32, addr: byte, cmd: byte, ok: bool)

  method PollOnce(ir: IrReceiver) returns (report: Option<Report>)
    modifies ir
    ensures ir.View() == old(ir.View()).(ready := false)
    ensures report.Some? <==> old(ir.View()).ready
    ensures report.Some? ==>
              var raw := old(ir.View()).last;
              && report.value == Report(raw, raw % 256, raw / 0x1_0000 % 256, report.value.ok)
              && (report.value.ok <==> raw == CodeFor(report.value.addr, report.value.cmd))
  {
    hide Bitwise;
    report := None;
    var ready := ir.CodeReady();
    if ready {
      var raw := ir.GetCode();
      var frame := DecodeFrame(raw);
      PassesExactlyCodes(raw);
      var ok := Bitwise(Xor, frame.addr, frame.addrInv) % 256 == 0xFF
             && Bitwise(Xor, frame.cmd, frame.cmdInv) % 256 == 0xFF;
      report := Some(Report(raw, frame.addr, frame.cmd, ok));
    }
  }
}
