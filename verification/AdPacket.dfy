/**
 The packets of the Analog Devices flash loader: `AnalogDevicesFormPacket` of `adprog.c`, the
 bytes it puts on the line, and the receiver's view of them.
 */
module AdPacket {
  import opened Arithmetic
  import opened Bits
  import opened Wrappers

  /** A command with its address and data. */
  datatype Command = Command(cmd: byte, address: uint32, data: seq<byte>)

  const MAX_DATA := 250

  // ---------- sums ----------

  function Sum(s: seq<byte>): nat {
    if s == [] then 0 else Sum(s[..|s| - 1]) + s[|s| - 1]
  }

  lemma {:induction false} SumConcat(a: seq<byte>, b: seq<byte>)
    ensures Sum(a + b) == Sum(a) + Sum(b)
  {
    if b == [] {
      assert a + b == a;
    } else {
      assert (a + b)[..|a + b| - 1] == a + b[..|b| - 1];
      SumConcat(a, b[..|b| - 1]);
    }
  }

  lemma SumSnoc(s: seq<byte>, b: byte)
    ensures Sum(s + [b]) == Sum(s) + b
    ensures s == [] ==> s + [b] == [b]
  {
    assert (s + [b])[..|s|] == s;
  }

  /** `checksum += b` on a byte. */
  function Plus(checksum: byte, b: byte): byte {
    (checksum + b) % 256
  }

  lemma PlusMod(total: nat, b: byte)
    ensures Plus(total % 256, b) == (total + b) % 256
  {
    var q, r := total / 256, total % 256 + b;
    var carry := if r < 256 then 0 else 1;
    DivisionUnique(r, 256, carry, r - 256 * carry);
    DivisionUnique(total + b, 256, q + carry, r - 256 * carry);
  }

  /** `(BINARY) -sum` */
  function Negated(sum: nat): byte {
    (256 - sum % 256) % 256
  }

  lemma SumUpdate(s: seq<byte>, i: nat, v: byte)
    requires i < |s|
    ensures Sum(s[i := v]) == Sum(s) - s[i] + v
  {
    assert s == s[..i] + [s[i]] + s[i + 1..];
    assert s[i := v] == s[..i] + [v] + s[i + 1..];
    SumConcat(s[..i], [s[i]]);
    SumConcat(s[..i] + [s[i]], s[i + 1..]);
    SumConcat(s[..i], [v]);
    SumConcat(s[..i] + [v], s[i + 1..]);
  }

  // ---------- the format ----------

  /** The length field, the command and the address, high byte first. */
  function Header(c: Command): (h: seq<byte>)
    requires |c.data| <= MAX_DATA
    ensures |h| == 6
  {
    [|c.data| + 5, c.cmd, Byte(c.address, 3), Byte(c.address, 2), Byte(c.address, 1), Byte(c.address, 0)]
  }

  /** From the length field up to the last data byte. */
  function Body(c: Command): seq<byte>
    requires |c.data| <= MAX_DATA
  {
    Header(c) + c.data
  }

  /** Two start bytes, the body, and the byte that makes everything after the start sum to 0. */
  function Serialise(c: Command): (s: seq<byte>)
    requires |c.data| <= MAX_DATA
    ensures |s| == |c.data| + 9
  {
    [0x07, 0x0E] + Body(c) + [Negated(Sum(Body(c)))]
  }

  /** The receiver: start bytes, a length that matches, and a zero sum. */
  function Parse(s: seq<byte>): Option<Command> {
    if |s| < 9 || s[0] != 0x07 || s[1] != 0x0E || s[2] != |s| - 4 || Sum(s[2..]) % 256 != 0 then None
    else Some(Command(s[3], Word(s[7], s[6], s[5], s[4]), s[8..|s| - 1]))
  }

  /** All bytes from the length field through the checksum add up to 0 mod 256. */
  lemma SumsToZero(c: Command)
    requires |c.data| <= MAX_DATA
    ensures Sum(Serialise(c)[2..]) % 256 == 0
  {
    hide Sum, Body, Negated;
    var b, last := Body(c), Negated(Sum(Body(c)));
    assert Serialise(c)[2..] == b + [last];
    SumSnoc(b, last);
    NegatedCancels(Sum(b));
  }

  lemma NegatedCancels(sum: nat)
    ensures (sum + Negated(sum)) % 256 == 0
    ensures Negated(sum % 256) == Negated(sum)
  {
  }

  lemma NegatedUnique(sum: nat, b: byte)
    requires (sum + b) % 256 == 0
    ensures b == Negated(sum)
  {
  }

  lemma ParseSerialise(c: Command)
    requires |c.data| <= MAX_DATA
    ensures Parse(Serialise(c)) == Some(c)
  {
    hide Byte, Word;
    SumsToZero(c);
    WordOfBytes(c.address);
    assert Serialise(c)[8..|Serialise(c)| - 1] == c.data;
  }

  /** Nothing else parses to a command than its own packet. */
  lemma SerialiseParse(s: seq<byte>)
    requires Parse(s).Some?
    ensures |Parse(s).value.data| <= MAX_DATA && Serialise(Parse(s).value) == s
  {
    hide Byte, Word;
    var c := Parse(s).value;
    BytesOfWord(s[7], s[6], s[5], s[4]);
    var last := s[|s| - 1];
    assert s[2..] == Body(c) + [last];
    SumConcat(Body(c), [last]);
    SumSnoc([], last);
    NegatedUnique(Sum(Body(c)), last);
    assert s == [0x07, 0x0E] + Body(c) + [last];
  }

  /** Changing any one byte of a packet, by whatever amount, makes the receiver reject it. */
  lemma DamageIsDetected(c: Command, pos: nat, v: byte)
    requires |c.data| <= MAX_DATA
    requires pos < |Serialise(c)| && v != Serialise(c)[pos]
    ensures Parse(Serialise(c)[pos := v]) == None
  {
    hide Byte, Word, Sum, Negated, Serialise;
    var s := Serialise(c);
    var t := s[pos := v];
    StartOfPacket(c);
    if pos >= 3 {
      SumsToZero(c);
      assert t[2..] == s[2..][pos - 2 := v];
      SumUpdate(s[2..], pos - 2, v);
      OtherRemainder(Sum(s[2..]), s[pos], v);
    }
  }

  lemma StartOfPacket(c: Command)
    requires |c.data| <= MAX_DATA
    ensures var s := Serialise(c); s[0] == 0x07 && s[1] == 0x0E && s[2] == |c.data| + 5
  {
    hide Sum, Negated, Byte;
  }

  lemma OtherRemainder(sum: int, before: byte, after: byte)
    requires sum % 256 == 0 && before != after
    ensures (sum - before + after) % 256 != 0
  {
  }

  // ---------- the packet structure ----------

  /** The packet as the source stores it; the fields are single bytes in wire order. */
  class Packet {
    var start1: byte
    var start2: byte
    var bytes: byte
    var cmd: byte
    var addressH: byte
    var addressU: byte
    var addressM: byte
    var addressL: byte
    const data: array<byte>

    ghost predicate Valid()
      reads this
    {
      data.Length == 251
    }

    constructor ()
      ensures Valid() && fresh(data)
    {
      start1, start2, bytes, cmd := 0, 0, 0, 0;
      addressH, addressU, addressM, addressL := 0, 0, 0, 0;
      data := new byte[251](i => 0);
    }

    function Image(): (s: seq<byte>)
      reads this, data
    {
      [start1, start2, bytes, cmd, addressH, addressU, addressM, addressL] + data[..]
    }
  }

  /** The bytes of `data` that a call of `FormPacket` is asked to send. */
  function Payload(data: array?<byte>, from: nat, noBytes: nat): seq<byte>
    requires if data == null then noBytes == 0 else from + noBytes <= data.Length
    reads data
  {
    if data == null then [] else data[from..from + noBytes]
  }

  /** The start bytes and the header, which is also where the checksum starts. */
  method FillHeader(packet: Packet, cmd: byte, noBytes: nat, address: uint32, ghost c: Command) returns (checksum: byte)
    requires noBytes <= MAX_DATA && c.cmd == cmd && c.address == address && |c.data| == noBytes
    modifies packet
    ensures packet.start1 == 0x07 && packet.start2 == 0x0E && packet.bytes == noBytes + 5
    ensures packet.Image()[2..8] == Header(c)
    ensures checksum == Sum(Header(c)) % 256
  {
    hide Byte, Sum, Plus;
    checksum := 0;
    packet.start1 := 0x07;
    packet.start2 := 0x0E;
    packet.bytes := noBytes + 5;
    checksum := Plus(checksum, packet.bytes);
    packet.cmd := cmd;
    checksum := Plus(checksum, cmd);
    packet.addressL := Byte(address, 0);
    packet.addressM := Byte(address, 1);
    packet.addressU := Byte(address, 2);
    packet.addressH := Byte(address, 3);
    checksum := Plus(checksum, packet.addressL);
    checksum := Plus(checksum, packet.addressM);
    checksum := Plus(checksum, packet.addressU);
    checksum := Plus(checksum, packet.addressH);
    HeaderSum(c);
  }

  /** The copying loop of `FormPacket`, which also adds the data to the checksum. */
  method CopyData(packet: Packet, noBytes: nat, data: array?<byte>, from: nat, sum: byte, ghost header: seq<byte>)
    returns (checksum: byte)
    requires packet.Valid() && packet.data != data && noBytes <= MAX_DATA
    requires if data == null then noBytes == 0 else from + noBytes <= data.Length
    requires sum == Sum(header) % 256
    modifies packet.data
    ensures packet.data[..noBytes] == Payload(data, from, noBytes)
    ensures checksum == Sum(header + Payload(data, from, noBytes)) % 256
  {
    hide Sum, Plus;
    ghost var payload := Payload(data, from, noBytes);
    checksum := sum;
    var i := 0;
    assert header + payload[..0] == header;
    while i < noBytes
      invariant 0 <= i <= noBytes
      invariant payload == Payload(data, from, noBytes)
      invariant packet.data[..i] == payload[..i]
      invariant checksum == Sum(header + payload[..i]) % 256
    {
      packet.data[i] := data[from + i];
      assert header + payload[..i + 1] == header + payload[..i] + [payload[i]];
      SumSnoc(header + payload[..i], payload[i]);
      PlusMod(Sum(header + payload[..i]), payload[i]);
      checksum := Plus(checksum, data[from + i]);
      i := i + 1;
    }
    assert payload[..noBytes] == payload;
  }

  /**
   Fills `packet` with `noBytes` bytes of `data` from index `from` on (the pointer `data + from`
   of the source), keeping the checksum as it goes. Bad arguments, on which the source exits,
   are reported by `ok`, and the packet is then untouched.
   */
  method FormPacket(cmd: byte, noBytes: int, address: uint32, data: array?<byte>, from: nat, packet: Packet?)
    returns (ok: bool)
    requires packet != null ==> packet.Valid() && packet.data != data
    requires data != null && 0 <= noBytes <= MAX_DATA ==> from + noBytes <= data.Length
    modifies packet, if packet != null then {packet.data} else {}
    ensures ok <==> 0 <= noBytes <= 250 && (data != null || noBytes == 0) && packet != null
    ensures ok ==>
              var s := packet.Image()[..noBytes + 9];
              && s[0] == 0x07 && s[1] == 0x0E && s[2] == noBytes + 5 && s[3] == cmd
              && s[4] == address / 0x100_0000 && s[5] == address / 0x1_0000 % 0x100
              && s[6] == address / 0x100 % 0x100 && s[7] == address % 0x100
              && (data != null ==> s[8..8 + noBytes] == data[from..from + noBytes])
              && Sum(s[2..]) % 0x100 == 0
    ensures ok ==>
              var c := Command(cmd, address, Payload(data, from, noBytes));
              packet.bytes == noBytes + 5 && packet.Image()[..packet.bytes + 4] == Serialise(c)
    ensures !ok && packet != null ==> packet.Image() == old(packet.Image())
  {
    hide Byte, Sum, Plus, Negated, Body, Serialise, Header;
    if noBytes < 0 || noBytes > MAX_DATA {
      return false;
    }
    if data == null && noBytes != 0 {
      return false;
    }
    if packet == null {
      return false;
    }
    ghost var payload := Payload(data, from, noBytes);
    ghost var c := Command(cmd, address, payload);
    ghost var header := Header(c);
    var checksum := FillHeader(packet, cmd, noBytes, address, c);
    checksum := CopyData(packet, noBytes, data, from, checksum, header);
    BodyParts(c);
    NegatedCancels(Sum(Body(c)));
    packet.data[noBytes] := Negated(checksum);
    assert packet.data[..noBytes] == payload;
    ghost var image := packet.Image();
    assert image[2..8] == header;
    assert image[8..8 + noBytes] == packet.data[..noBytes];
    ImageIsPacket(image, c);
    PacketBytes(c);
    ok := true;
  }

  /** The bytes on the line, one by one. */
  lemma PacketBytes(c: Command)
    requires |c.data| <= 250
    ensures var s := Serialise(c);
            && s[0] == 0x07 && s[1] == 0x0E && s[2] == |c.data| + 5 && s[3] == c.cmd
            && s[4] == c.address / 0x100_0000 && s[5] == c.address / 0x1_0000 % 0x100
            && s[6] == c.address / 0x100 % 0x100 && s[7] == c.address % 0x100
            && s[8..8 + |c.data|] == c.data
            && Sum(s[2..]) % 0x100 == 0
  {
    hide Sum, Negated;
    SumsToZero(c);
  }

  lemma ImageIsPacket(image: seq<byte>, c: Command)
    requires |c.data| <= MAX_DATA && |image| >= |c.data| + 9
    requires image[0] == 0x07 && image[1] == 0x0E && image[2..8] == Header(c)
    requires image[8..8 + |c.data|] == c.data && image[8 + |c.data|] == Negated(Sum(Body(c)))
    ensures image[..|c.data| + 9] == Serialise(c)
  {
    hide Byte, Sum, Negated;
    var n := |c.data|;
    assert image[..n + 9] == image[..2] + image[2..8] + image[8..8 + n] + [image[8 + n]];
    assert image[..2] == [0x07, 0x0E];
  }

  /** The sum of the six header bytes, in the order the source adds them up. */
  lemma HeaderSum(c: Command)
    requires |c.data| <= MAX_DATA
    ensures var h := Header(c);
            Sum(h) % 256 == Plus(Plus(Plus(Plus(Plus(Plus(0, h[0]), h[1]), h[5]), h[4]), h[3]), h[2])
  {
    hide Sum, Byte, Plus;
    var h := Header(c);
    var s1 := [] + [h[0]];
    var s2 := s1 + [h[1]];
    var s3 := s2 + [h[2]];
    var s4 := s3 + [h[3]];
    var s5 := s4 + [h[4]];
    assert h == s5 + [h[5]];
    SumEmpty();
    SumSnoc([], h[0]);
    SumSnoc(s1, h[1]);
    SumSnoc(s2, h[2]);
    SumSnoc(s3, h[3]);
    SumSnoc(s4, h[4]);
    SumSnoc(s5, h[5]);
    PlusMod(0, h[0]);
    PlusMod(h[0], h[1]);
    PlusMod(h[0] as int + h[1], h[5]);
    PlusMod(h[0] as int + h[1] + h[5], h[4]);
    PlusMod(h[0] as int + h[1] + h[5] + h[4], h[3]);
    PlusMod(h[0] as int + h[1] + h[5] + h[4] + h[3], h[2]);
  }

  lemma BodyParts(c: Command)
    requires |c.data| <= MAX_DATA
    ensures Header(c) + c.data == Body(c)
  {
  }

  lemma SumEmpty()
    ensures Sum([]) == 0
  {
  }
}
