/**
 The Analog Devices flash download of `adprog.c` over a line that loses and damages packets and
 replies: stop-and-wait sending with three attempts, cutting the image into packets, and the
 whole download, against the memory of the device at the far end.
 */
module AdDownload {
  import opened Bits
  import opened AdPacket
  import opened Wrappers

  const ACK: byte := 0x06
  const NAK: byte := 0x07
  const ERASE: byte := 'E' as int
  const WRITE: byte := 'W' as int
  const PACKET_SIZE := 250
  const REMAP := 0x8_0000
  const ATTEMPTS := 3

  type Memory = map<int, byte>

  // ---------- the environment ----------

  type Change = d: int | 0 < d < 256 witness 1

  type NotAck = b: byte | b != 0x06 witness 0

  /** What happens to a reply. The line may lose or garble it, but does not make up an ACK. */
  datatype Reply = Lost | Garbled(b: NotAck) | Intact

  /** What happens in one attempt: the request is lost, one byte of it changes, or it arrives. */
  datatype Fate = RequestLost | RequestDamaged(pos: nat, change: Change, reply: Reply) | Arrives(reply: Reply)

  /** The byte of `d` for address `i` when `d` starts at address `a`. */
  function At(d: seq<byte>, a: int, i: int): byte
    requires a <= i < a + |d|
  {
    d[i - a]
  }

  /** `d` stored from address `a` on. */
  function Store(m: Memory, a: int, d: seq<byte>): Memory {
    m + map i | a <= i < a + |d| :: At(d, a, i)
  }

  /** A device acts on a packet that parses, and only then acknowledges it. */
  function Device(m: Memory, packet: seq<byte>): (Memory, byte) {
    match Parse(packet)
    case None => (m, NAK)
    case Some(c) =>
      if c.cmd == 'E' as int && c.data == [0] then (map[], 0x06)
      else if c.cmd == 'W' as int then (Store(m, c.address, c.data), 0x06)
      else (m, NAK)
  }

  function Hear(reply: Reply, sent: byte): Option<byte> {
    if reply.Lost? then None else Some(if reply.Garbled? then reply.b else sent)
  }

  function Damaged(packet: seq<byte>, pos: nat, change: Change): seq<byte>
    requires packet != []
  {
    var i := pos % |packet|;
    packet[i := (packet[i] + change) % 256]
  }

  /** One exchange: the device's memory afterwards and the byte that comes back, if any. */
  function Trip(m: Memory, packet: seq<byte>, fate: Fate): (Memory, Option<byte>)
    requires packet != []
  {
    match fate
    case RequestLost => (m, None)
    case RequestDamaged(pos, change, reply) =>
      var r := Device(m, Damaged(packet, pos, change)); (r.0, Hear(reply, r.1))
    case Arrives(reply) =>
      var r := Device(m, packet); (r.0, Hear(reply, r.1))
  }

  /**
   The serial line with the device behind it. `fates` says what will happen to the coming
   attempts; when it runs out nothing arrives any more. `attempts` counts them.
   */
  class Line {
    var memory: Memory
    var fates: seq<Fate>
    var attempts: nat

    constructor (m: Memory, f: seq<Fate>)
      ensures memory == m && fates == f && attempts == 0
    {
      memory, fates, attempts := m, f, 0;
    }

    method Exchange(packet: seq<byte>) returns (response: Option<byte>)
      requires packet != []
      modifies this
      ensures (memory, response) == Trip(old(memory), packet, NextFate(old(fates)))
      ensures fates == Later(old(fates), 1) && attempts == old(attempts) + 1
    {
      var fate := NextFate(fates);
      var r := Trip(memory, packet, fate);
      memory, fates, response := r.0, if fates == [] then [] else fates[1..], r.1;
      attempts := attempts + 1;
    }
  }

  function NextFate(fates: seq<Fate>): Fate {
    if fates == [] then RequestLost else fates[0]
  }

  function Later(fates: seq<Fate>, n: nat): seq<Fate> {
    if n <= |fates| then fates[n..] else []
  }

  // ---------- sending one packet ----------

  /** What a command does to the memory. */
  function Effect(m: Memory, c: Command): Memory {
    if c.cmd == 'E' as int then map[] else Store(m, c.address, c.data)
  }

  /** The two commands a download uses. */
  predicate Supported(c: Command) {
    |c.data| <= 250 && (c.cmd == 'W' as int || (c.cmd == 'E' as int && c.data == [0]))
  }

  /** Doing a command again changes nothing, so repeating a packet is harmless. */
  lemma EffectIdempotent(m: Memory, c: Command)
    ensures Effect(Effect(m, c), c) == Effect(m, c)
  {
  }

  /** The sender hears an ACK only if the packet arrived whole, and the device then acted on it. */
  lemma AckMeansDone(m: Memory, c: Command, fate: Fate)
    requires Supported(c)
    ensures var r := Trip(m, Serialise(c), fate);
            && (r.1 == Some(0x06) <==> fate == Arrives(Intact))
            && (fate == Arrives(Intact) ==> r.0 == Effect(m, c))
            && (r.0 == m || r.0 == Effect(m, c))
  {
    hide Serialise, Parse, Store;
    ParseSerialise(c);
    match fate
    case RequestLost =>
    case RequestDamaged(pos, change, reply) =>
      var i := pos % |Serialise(c)|;
      DamageIsDetected(c, i, (Serialise(c)[i] + change) % 256);
    case Arrives(reply) =>
  }

  /** How many of at most `n` attempts are used: up to and including the first acknowledged one. */
  function Used(fates: seq<Fate>, n: nat): (u: nat)
    ensures u <= n
  {
    if n == 0 then 0
    else if NextFate(fates) == Arrives(Intact) then 1
    else 1 + Used(Later(fates, 1), n - 1)
  }

  /** One of the next `n` attempts is acknowledged. */
  predicate Acked(fates: seq<Fate>, n: nat) {
    exists i :: 0 <= i < n && i < |fates| && fates[i] == Arrives(Intact)
  }

  lemma {:induction false} AckedStep(fates: seq<Fate>, n: nat)
    requires n > 0
    ensures Acked(fates, n) <==> NextFate(fates) == Arrives(Intact) || Acked(Later(fates, 1), n - 1)
    ensures Used(fates, n) == if NextFate(fates) == Arrives(Intact) then 1 else 1 + Used(Later(fates, 1), n - 1)
  {
    var later := Later(fates, 1);
    if Acked(fates, n) && NextFate(fates) != Arrives(Intact) {
      var i :| 0 <= i < n && i < |fates| && fates[i] == Arrives(Intact);
      assert later[i - 1] == Arrives(Intact);
    }
    if Acked(later, n - 1) {
      var i :| 0 <= i < n - 1 && i < |later| && later[i] == Arrives(Intact);
      assert fates[i + 1] == Arrives(Intact);
    }
  }

  lemma AckedInThree(fates: seq<Fate>)
    ensures Acked(fates, ATTEMPTS) <==> exists i :: 0 <= i < 3 && i < |fates| && fates[i] == Arrives(Intact)
  {
  }

  lemma NoAttemptsLeft(fates: seq<Fate>)
    ensures !Acked(fates, 0) && Used(fates, 0) == 0
  {
  }

  lemma LaterAdds(fates: seq<Fate>, a: nat, b: nat)
    ensures Later(Later(fates, a), b) == Later(fates, a + b)
  {
  }

  /**
   Stop and wait: at most three attempts. The call succeeds exactly when one of them is
   acknowledged; the device then has done the command, and otherwise it has done it or not.
   */
  method SendPacket(line: Line, packet: Packet, ghost c: Command) returns (ok: bool)
    requires packet.Valid() && Supported(c)
    requires packet.bytes == |c.data| + 5 && packet.Image()[..packet.bytes + 4] == Serialise(c)
    modifies line
    ensures ok <==> exists i :: 0 <= i < 3 && i < |old(line.fates)| && old(line.fates)[i] == Arrives(Intact)
    ensures ok <==> Acked(old(line.fates), ATTEMPTS)
    ensures ok ==> line.memory == Effect(old(line.memory), c)
    ensures line.memory == old(line.memory) || line.memory == Effect(old(line.memory), c)
    ensures line.fates == Later(old(line.fates), Used(old(line.fates), ATTEMPTS))
    ensures line.attempts == old(line.attempts) + Used(old(line.fates), ATTEMPTS) <= old(line.attempts) + 3
  {
    hide Serialise, Trip, Effect, Store, Acked, Used, Later;
    EffectIdempotent(line.memory, c);
    ghost var before, start, count := line.memory, line.fates, line.attempts;
    NothingLater(start);
    AckedInThree(start);
    var retry := 0;
    while retry < 3
      invariant 0 <= retry <= 3
      invariant line.memory == before || line.memory == Effect(before, c)
      invariant line.fates == Later(start, retry) && line.attempts == count + retry
      invariant Acked(start, ATTEMPTS) <==> Acked(line.fates, ATTEMPTS - retry)
      invariant Used(start, ATTEMPTS) == retry + Used(line.fates, ATTEMPTS - retry)
    {
      AckMeansDone(line.memory, c, NextFate(line.fates));
      AckedStep(line.fates, ATTEMPTS - retry);
      LaterAdds(start, retry, 1);
      retry := retry + 1;
      var response := line.Exchange(packet.Image()[..packet.bytes + 4]);
      if response == Some(ACK) {
        return true;
      }
    }
    NoAttemptsLeft(line.fates);
    return false;
  }

  lemma NothingLater(fates: seq<Fate>)
    ensures Later(fates, 0) == fates
  {
  }

  // ---------- cutting the image into packets ----------

  /** The packets that carry `d` to address `a`. */
  function Chunks(d: seq<byte>, a: int): (cs: seq<Command>)
    ensures forall c :: c in cs ==> Supported(c) && c.cmd == WRITE
  {
    if |d| > PACKET_SIZE then
      [Command(WRITE, a % WORD, d[..PACKET_SIZE])] + Chunks(d[PACKET_SIZE..], a + PACKET_SIZE)
    else if |d| > 0 then [Command(WRITE, a % WORD, d)]
    else []
  }

  function Payloads(cs: seq<Command>): seq<byte> {
    if cs == [] then [] else cs[0].data + Payloads(cs[1..])
  }

  lemma PayloadsCons(c: Command, cs: seq<Command>)
    ensures Payloads([c] + cs) == c.data + Payloads(cs)
  {
    assert ([c] + cs)[1..] == cs;
  }

  /** Together the packets carry the data, and there are no more of them than needed. */
  lemma {:induction false} ChunksCover(d: seq<byte>, a: int)
    ensures Payloads(Chunks(d, a)) == d
    ensures |Chunks(d, a)| == (|d| + 249) / 250
    decreases |d|
  {
    hide Payloads;
    ChunksStep(d, a);
    if |d| > PACKET_SIZE {
      ChunksCover(d[PACKET_SIZE..], a + PACKET_SIZE);
      PayloadsCons(Command(WRITE, a % WORD, d[..PACKET_SIZE]), Chunks(d[PACKET_SIZE..], a + PACKET_SIZE));
    } else if |d| > 0 {
      var c := Command(WRITE, a % WORD, d);
      assert [c] + [] == [c];
      PayloadsCons(c, []);
      NoPayloads();
    } else {
      NoPayloads();
    }
  }

  lemma NoPayloads()
    ensures Payloads([]) == []
  {
  }

  /**
   Packet `i` carries the bytes from `250 * i` to 250 further or the end, to the address that
   many beyond the first: contiguous, without overlap, 1 to 250 bytes each.
   */
  lemma {:induction false} ChunkAt(d: seq<byte>, a: nat, i: nat)
    requires a + |d| <= WORD && i * 250 < |d|
    ensures i < |Chunks(d, a)|
    ensures var end := if (i + 1) * 250 < |d| then (i + 1) * 250 else |d|;
            Chunks(d, a)[i] == Command('W' as int, a + i * 250, d[i * 250..end])
    ensures 1 <= |Chunks(d, a)[i].data| <= 250
    decreases i
  {
    hide Chunks;
    ChunksStep(d, a);
    var end := if (i + 1) * 250 < |d| then (i + 1) * 250 else |d|;
    if i > 0 {
      var rest, lo := d[PACKET_SIZE..], i * 250;
      ChunkAt(rest, a + PACKET_SIZE, i - 1);
      var restEnd := if i * 250 < |rest| then i * 250 else |rest|;
      assert restEnd == end - 250 && (i - 1) * 250 == lo - 250;
      SliceOfRest(d, PACKET_SIZE, lo, end);
      var c := Command(WRITE, a % WORD, d[..PACKET_SIZE]);
      assert Chunks(d, a)[i] == ([c] + Chunks(rest, a + PACKET_SIZE))[i] == Chunks(rest, a + PACKET_SIZE)[i - 1];
    } else {
      assert d[0..end] == if |d| > PACKET_SIZE then d[..PACKET_SIZE] else d;
    }
  }

  lemma SliceOfRest<T>(d: seq<T>, k: nat, lo: nat, hi: nat)
    requires k <= lo <= hi <= |d|
    ensures d[k..][lo - k..hi - k] == d[lo..hi]
  {
  }

  function EffectAll(m: Memory, cs: seq<Command>): Memory
    decreases |cs|
  {
    if cs == [] then m else EffectAll(Effect(m, cs[0]), cs[1..])
  }

  lemma StoreConcat(m: Memory, a: int, x: seq<byte>, y: seq<byte>)
    ensures Store(Store(m, a, x), a + |x|, y) == Store(m, a, x + y)
  {
    var l, r := Store(Store(m, a, x), a + |x|, y), Store(m, a, x + y);
    assert l.Keys == r.Keys;
    forall i | i in l
      ensures l[i] == r[i]
    {
      if a <= i < a + |x| + |y| {
        assert r[i] == At(x + y, a, i);
      }
    }
  }

  lemma StoreNothing(m: Memory, a: int)
    ensures Store(m, a, []) == m
  {
  }

  /** Writing the packets one after the other stores the data. */
  lemma {:induction false} ChunksStore(m: Memory, d: seq<byte>, a: nat)
    requires a + |d| <= WORD
    ensures EffectAll(m, Chunks(d, a)) == Store(m, a, d)
    decreases |d|
  {
    hide Store;
    if |d| > PACKET_SIZE {
      var x, y := d[..PACKET_SIZE], d[PACKET_SIZE..];
      var cs := Chunks(d, a);
      assert cs[1..] == Chunks(y, a + PACKET_SIZE) && cs[0] == Command(WRITE, a, x);
      ChunksStore(Store(m, a, x), y, a + PACKET_SIZE);
      StoreConcat(m, a, x, y);
      assert x + y == d;
    } else if |d| > 0 {
      var cs := Chunks(d, a);
      assert cs[1..] == [] && EffectAll(Effect(m, cs[0]), []) == Effect(m, cs[0]);
    } else {
      StoreNothing(m, a);
    }
  }

  // ---------- sending a sequence of packets ----------

  /** Each of the next `n` packets gets its acknowledgement within three attempts. */
  predicate AllAcked(fates: seq<Fate>, n: nat)
    decreases n
  {
    n == 0 || (Acked(fates, ATTEMPTS) && AllAcked(AfterOne(fates), n - 1))
  }

  function AfterOne(fates: seq<Fate>): seq<Fate> {
    Later(fates, Used(fates, ATTEMPTS))
  }

  /** What is left of the pattern after `n` packets. */
  function AfterAll(fates: seq<Fate>, n: nat): seq<Fate>
    decreases n
  {
    if n == 0 then fates else AfterOne(AfterAll(fates, n - 1))
  }

  /** How many of `n` packets are tried: up to and including the first that is never acknowledged. */
  function Tried(fates: seq<Fate>, n: nat): (k: nat)
    ensures k <= n
    ensures AllAcked(fates, n) ==> k == n
    decreases n
  {
    if n == 0 then 0
    else if Acked(fates, ATTEMPTS) then 1 + Tried(AfterOne(fates), n - 1)
    else 1
  }

  /** How many attempts the first `n` packets take. */
  function Attempts(fates: seq<Fate>, n: nat): (k: nat)
    ensures n <= k <= ATTEMPTS * n
    decreases n
  {
    if n == 0 then 0
    else
      UsedAtLeastOne(AfterAll(fates, n - 1));
      Attempts(fates, n - 1) + Used(AfterAll(fates, n - 1), ATTEMPTS)
  }

  lemma UsedAtLeastOne(fates: seq<Fate>)
    ensures 1 <= Used(fates, ATTEMPTS) <= ATTEMPTS
  {
  }

  lemma {:induction false} AttemptsShift(fates: seq<Fate>, n: nat)
    ensures Attempts(fates, n + 1) == Used(fates, ATTEMPTS) + Attempts(AfterOne(fates), n)
    decreases n
  {
    hide AfterOne, Used;
    if n > 0 {
      AttemptsShift(fates, n - 1);
      AfterAllShift(fates, n - 1);
    }
  }

  /** The first of `1 + n` packets, and the others. */
  lemma OneMore(fates: seq<Fate>, n: nat)
    ensures Acked(fates, ATTEMPTS) ==> Tried(fates, 1 + n) == 1 + Tried(AfterOne(fates), n)
    ensures !Acked(fates, ATTEMPTS) ==> Tried(fates, 1 + n) == 1
    ensures forall k: nat :: Attempts(fates, 1 + k) == Used(fates, ATTEMPTS) + Attempts(AfterOne(fates), k)
    ensures Attempts(fates, 1) == Used(fates, ATTEMPTS)
  {
    hide AfterOne, Used, Acked;
    forall k: nat
      ensures Attempts(fates, 1 + k) == Used(fates, ATTEMPTS) + Attempts(AfterOne(fates), k)
    {
      AttemptsShift(fates, k);
    }
    assert Attempts(fates, 1) == Used(fates, ATTEMPTS) + Attempts(AfterOne(fates), 0);
  }

  /** After `n` acknowledged packets the one that is not, or the end, settles how many are tried. */
  lemma {:induction false} TriedSplit(fates: seq<Fate>, n: nat, k: nat)
    requires AllAcked(fates, n)
    ensures Tried(fates, n + k) == n + Tried(AfterAll(fates, n), k)
    decreases n
  {
    hide Acked, AfterOne;
    if n > 0 {
      TriedSplit(AfterOne(fates), n - 1, k);
      AfterAllShift(fates, n - 1);
    }
  }

  lemma TriedNext(fates: seq<Fate>, n: nat, k: nat)
    requires AllAcked(fates, n)
    ensures !Acked(AfterAll(fates, n), ATTEMPTS) ==> Tried(fates, n + 1 + k) == n + 1
    ensures Attempts(fates, n + 1) == Attempts(fates, n) + Used(AfterAll(fates, n), ATTEMPTS)
    ensures Attempts(fates, 0) == 0
  {
    hide Acked, AfterOne, Used;
    TriedSplit(fates, n, 1 + k);
  }

  /** The packets before `n` were acknowledged, and the rest still has to be. */
  lemma {:induction false} AllAckedSplit(fates: seq<Fate>, n: nat, k: nat)
    ensures AllAcked(fates, n + k) <==> AllAcked(fates, n) && AllAcked(AfterAll(fates, n), k)
    decreases n
  {
    hide Acked, AfterOne;
    if n > 0 {
      AllAckedSplit(AfterOne(fates), n - 1, k);
      AfterAllShift(fates, n - 1);
    }
  }

  lemma {:induction false} AfterAllShift(fates: seq<Fate>, n: nat)
    ensures AfterAll(AfterOne(fates), n) == AfterAll(fates, n + 1)
    decreases n
  {
    hide AfterOne;
    if n > 0 {
      AfterAllShift(fates, n - 1);
    }
  }

  lemma {:induction false} EffectAllConcat(m: Memory, x: seq<Command>, y: seq<Command>)
    ensures EffectAll(m, x + y) == EffectAll(EffectAll(m, x), y)
    decreases |x|
  {
    hide Effect;
    if x == [] {
      assert x + y == y;
    } else {
      assert (x + y)[1..] == x[1..] + y;
      EffectAllConcat(Effect(m, x[0]), x[1..], y);
    }
  }

  /** The memory that the first few of the commands leave. */
  predicate CutOff(m: Memory, m0: Memory, cs: seq<Command>) {
    exists k :: 0 <= k <= |cs| && m == EffectAll(m0, cs[..k])
  }

  /** One packet more: `done` are the commands carried out so far, `c` the one sent now. */
  lemma Progress(m0: Memory, done: seq<Command>, c: Command, rest: seq<Command>)
    ensures EffectAll(m0, done + [c]) == Effect(EffectAll(m0, done), c)
    ensures CutOff(EffectAll(m0, done), m0, done + [c] + rest)
    ensures CutOff(EffectAll(m0, done + [c]), m0, done + [c] + rest)
  {
    hide Effect;
    EffectAllConcat(m0, done, [c]);
    assert [c][1..] == [];
    assert EffectAll(EffectAll(m0, done), [c]) == EffectAll(Effect(EffectAll(m0, done), c), []);
    var cs := done + [c] + rest;
    assert cs[..|done|] == done && cs[..|done| + 1] == done + [c];
  }

  /** Forms and sends one packet, as the two calls in the source that always go together. */
  method FormAndSend(line: Line, cmd: byte, address: uint32, data: array<byte>, from: nat, noBytes: nat)
    returns (ok: bool)
    requires noBytes <= MAX_DATA && from + noBytes <= data.Length
    requires Supported(Command(cmd, address, data[from..from + noBytes]))
    modifies line
    ensures var c := Command(cmd, address, data[from..from + noBytes]);
            && (ok <==> Acked(old(line.fates), ATTEMPTS))
            && (ok ==> line.memory == Effect(old(line.memory), c))
            && (line.memory == old(line.memory) || line.memory == Effect(old(line.memory), c))
            && line.fates == AfterOne(old(line.fates))
            && line.attempts == old(line.attempts) + Used(old(line.fates), ATTEMPTS)
  {
    var packet := new Packet();
    var formed := FormPacket(cmd, noBytes, address, data, from, packet);
    ok := SendPacket(line, packet, Command(cmd, address, data[from..from + noBytes]));
  }

  /**
   Writes `bytes` bytes of `data` from index `start` on to `address`, or stops at the first packet
   that is never acknowledged; what the device holds then is the result of the packets before,
   with or without that one.
   */
  method Write(line: Line, data: array<byte>, start: nat, address: int, bytes: nat) returns (ok: bool)
    requires start + bytes <= data.Length
    modifies line
    ensures var cs := Chunks(data[start..start + bytes], address);
            && (ok <==> AllAcked(old(line.fates), |cs|))
            && (ok ==> line.memory == EffectAll(old(line.memory), cs))
            && CutOff(line.memory, old(line.memory), cs)
    ensures var k := Tried(old(line.fates), |Chunks(data[start..start + bytes], address)|);
            && line.fates == AfterAll(old(line.fates), k)
            && line.attempts == old(line.attempts) + Attempts(old(line.fates), k)
  {
    hide Effect, EffectAll, CutOff, Chunks, Supported, Acked, AllAcked, AfterOne, AfterAll, Tried, Attempts, Used;
    var address', progData, bytes' := address, start, bytes;
    ghost var cs := Chunks(data[start..start + bytes], address);
    ghost var done: seq<Command> := [];
    ghost var m0, f0, count := line.memory, line.fates, line.attempts;
    NothingDone(m0, f0);
    while bytes' > PACKET_SIZE
      invariant 0 <= bytes' <= bytes && progData + bytes' == start + bytes
      invariant cs == done + Chunks(data[progData..start + bytes], address')
      invariant line.memory == EffectAll(m0, done)
      invariant line.fates == AfterAll(f0, |done|)
      invariant line.attempts == count + Attempts(f0, |done|)
      invariant AllAcked(f0, |done|)
    {
      ghost var d := data[progData..start + bytes];
      NextPacket(m0, f0, done, d, address', PACKET_SIZE);
      assert d[..PACKET_SIZE] == data[progData..progData + PACKET_SIZE];
      assert d[PACKET_SIZE..] == data[progData + PACKET_SIZE..start + bytes];
      ok := FormAndSend(line, WRITE, address' % WORD, data, progData, PACKET_SIZE);
      if !ok {
        return;
      }
      done := done + [Command(WRITE, address' % WORD, d[..PACKET_SIZE])];
      address' := address' + PACKET_SIZE;
      progData := progData + PACKET_SIZE;
      bytes' := bytes' - PACKET_SIZE;
    }
    ghost var d := data[progData..start + bytes];
    if bytes' > 0 {
      NextPacket(m0, f0, done, d, address', bytes');
      assert d[..bytes'] == d;
      ok := FormAndSend(line, WRITE, address' % WORD, data, progData, bytes');
      if !ok {
        return;
      }
    } else {
      ChunksStep(d, address');
      assert cs == done;
      AllDone(m0, done);
    }
    ok := true;
  }

  lemma NothingDone(m0: Memory, f0: seq<Fate>)
    ensures EffectAll(m0, []) == m0 && AllAcked(f0, 0) && AfterAll(f0, 0) == f0 && Attempts(f0, 0) == 0
  {
  }

  lemma AllDone(m0: Memory, cs: seq<Command>)
    ensures CutOff(EffectAll(m0, cs), m0, cs)
  {
    assert cs[..|cs|] == cs;
  }

  /** Everything one round of the loop needs: what the next packet is, and what sending it settles. */
  lemma NextPacket(m0: Memory, f0: seq<Fate>, done: seq<Command>, d: seq<byte>, a: int, n: nat)
    requires d != [] && n == (if |d| > PACKET_SIZE then PACKET_SIZE else |d|) && AllAcked(f0, |done|)
    ensures var c, rest, cs := Command(WRITE, a % WORD, d[..n]), Chunks(d[n..], a + n), done + Chunks(d, a);
            && Supported(c) && cs == done + [c] + rest && (n == |d| ==> cs == done + [c])
            && EffectAll(m0, done + [c]) == Effect(EffectAll(m0, done), c)
            && CutOff(EffectAll(m0, done), m0, cs) && CutOff(EffectAll(m0, done + [c]), m0, cs)
            && (AllAcked(f0, |cs|) ==> Acked(AfterAll(f0, |done|), ATTEMPTS))
            && (!Acked(AfterAll(f0, |done|), ATTEMPTS) ==> Tried(f0, |cs|) == |done| + 1)
    ensures Acked(AfterAll(f0, |done|), ATTEMPTS) ==> AllAcked(f0, |done| + 1)
    ensures AfterAll(f0, |done| + 1) == AfterOne(AfterAll(f0, |done|))
    ensures Attempts(f0, |done| + 1) == Attempts(f0, |done|) + Used(AfterAll(f0, |done|), ATTEMPTS)
  {
    hide Effect, Chunks, Acked, AfterOne, AllAcked, Supported, Tried, Attempts, Used, AfterAll, EffectAll, CutOff;
    var c, rest := Command(WRITE, a % WORD, d[..n]), Chunks(d[n..], a + n);
    ChunksStep(d, a);
    if n == |d| {
      assert d[..n] == d;
      ChunksStep(d[n..], a + n);
      assert done + [c] + [] == done + [c];
    }
    assert Chunks(d, a) == [c] + rest;
    assert done + ([c] + rest) == done + [c] + rest;
    Progress(m0, done, c, rest);
    AckedNext(f0, |done|, |rest|);
    TriedNext(f0, |done|, |rest|);
  }

  lemma ChunksStep(d: seq<byte>, a: int)
    ensures |d| > PACKET_SIZE ==>
              var c := Command(WRITE, a % WORD, d[..PACKET_SIZE]);
              Supported(c) && Chunks(d, a) == [c] + Chunks(d[PACKET_SIZE..], a + PACKET_SIZE)
    ensures 0 < |d| <= PACKET_SIZE ==>
              var c := Command(WRITE, a % WORD, d); Supported(c) && Chunks(d, a) == [c]
    ensures d == [] ==> Chunks(d, a) == []
  {
  }

  lemma AckedNext(fates: seq<Fate>, n: nat, k: nat)
    requires AllAcked(fates, n)
    ensures AllAcked(fates, n + 1 + k) ==> Acked(AfterAll(fates, n), ATTEMPTS)
    ensures Acked(AfterAll(fates, n), ATTEMPTS) ==> AllAcked(fates, n + 1)
    ensures AfterAll(fates, n + 1) == AfterOne(AfterAll(fates, n))
  {
    hide Acked, AfterOne;
    AllAckedSplit(fates, n, 1 + k);
    AllAckedSplit(fates, n, 1);
  }

  // ---------- the download ----------

  /** The part of the image that is programmed: all of it, or what lies beyond the remapped flash. */
  function Programmed(image: seq<byte>): seq<byte> {
    if |image| > REMAP then image[REMAP..] else image
  }

  /** The memory holds the first `k` bytes of `d`, at address 0, and nothing else. */
  ghost predicate HoldsFirst(m: Memory, d: seq<byte>, k: nat)
    requires k <= |d|
  {
    && (forall i :: i in m <==> 0 <= i < k)
    && (forall i :: 0 <= i < k ==> m[i] == d[i])
  }

  lemma {:induction false} ChunksPrefix(d: seq<byte>, a: int, j: nat)
    requires j <= |Chunks(d, a)|
    ensures var k := if 250 * j < |d| then 250 * j else |d|;
            Chunks(d, a)[..j] == Chunks(d[..k], a)
    decreases j
  {
    hide Chunks;
    ChunksStep(d, a);
    var k := if 250 * j < |d| then 250 * j else |d|;
    if j == 0 {
      ChunksStep(d[..0], a);
    } else if |d| > PACKET_SIZE {
      ChunksPrefix(d[PACKET_SIZE..], a + PACKET_SIZE, j - 1);
      FirstChunk(d, a, j, k);
    } else {
      assert d[..k] == d;
    }
  }

  lemma FirstChunk(d: seq<byte>, a: int, j: nat, k: nat)
    requires 1 <= j <= |Chunks(d, a)| && |d| > 250 && k == (if 250 * j < |d| then 250 * j else |d|)
    requires Chunks(d[250..], a + 250)[..j - 1] == Chunks(d[250..][..k - 250], a + 250)
    ensures Chunks(d, a)[..j] == Chunks(d[..k], a)
  {
    hide Chunks;
    var c, rest := Command(WRITE, a % WORD, d[..250]), Chunks(d[250..], a + 250);
    ChunksStep(d, a);
    ChunksStep(d[..k], a);
    assert ([c] + rest)[..j] == [c] + rest[..j - 1];
    assert d[..k][250..] == d[250..][..k - 250];
    if k == 250 {
      assert d[..k] == d[..250];
      ChunksStep(d[250..][..0], a + 250);
      assert [c] + [] == [c];
    } else {
      assert d[..k][..250] == d[..250];
    }
  }

  /** What the device holds when a write has been cut off. */
  lemma CutOffHolds(m: Memory, d: seq<byte>)
    requires |d| <= WORD && CutOff(m, map[], Chunks(d, 0))
    ensures exists k :: 0 <= k <= |d| && (k % 250 == 0 || k == |d|) && HoldsFirst(m, d, k)
  {
    hide Chunks, EffectAll, HoldsFirst;
    var j :| 0 <= j <= |Chunks(d, 0)| && m == EffectAll(map[], Chunks(d, 0)[..j]);
    var k := if 250 * j < |d| then 250 * j else |d|;
    ChunksPrefix(d, 0, j);
    ChunksStore(map[], d[..k], 0);
    StoreHolds(d, k);
    assert k % 250 == 0 || k == |d|;
  }

  lemma StoreHolds(d: seq<byte>, k: nat)
    requires k <= |d|
    ensures HoldsFirst(Store(map[], 0, d[..k]), d, k)
  {
    var m := Store(map[], 0, d[..k]);
    forall i | 0 <= i < k
      ensures m[i] == d[i]
    {
      assert m[i] == At(d[..k], 0, i);
    }
  }

  /**
   Erase, then write. Whatever the line does, a successful return means that the device holds
   exactly the image at address 0, or what lies beyond 0x80000 of a longer one, and nothing else;
   it succeeds exactly when every packet is acknowledged within its three attempts; and a failed
   one leaves the old contents or some first packets of the same bytes.
   */
  method Download(line: Line, image: array<byte>) returns (ok: bool)
    requires image.Length <= 0x8_0000 + 0x1_0000_0000
    modifies line
    ensures ok && image.Length > 0x8_0000 ==>
              && (forall i :: i in line.memory <==> 0 <= i < image.Length - 0x8_0000)
              && (forall i :: 0 <= i < image.Length - 0x8_0000 ==> line.memory[i] == image[i + 0x8_0000])
    ensures ok && image.Length <= 0x8_0000 ==>
              && (forall i :: i in line.memory <==> 0 <= i < image.Length)
              && (forall i :: 0 <= i < image.Length ==> line.memory[i] == image[i])
    ensures !ok && line.memory != old(line.memory) ==>
              var d := if image.Length > 0x8_0000 then image[0x8_0000..] else image[..];
              exists k :: 0 <= k <= |d| && (k % 250 == 0 || k == |d|) && HoldsFirst(line.memory, d, k)
    ensures var n := if image.Length > 0x8_0000 then image.Length - 0x8_0000 else image.Length;
            var k := Tried(old(line.fates), 1 + (n + 249) / 250);
            && (ok <==> AllAcked(old(line.fates), 1 + (n + 249) / 250))
            && line.attempts == old(line.attempts) + Attempts(old(line.fates), k)
            && line.attempts <= old(line.attempts) + 3 * k
  {
    hide Chunks, AllAcked, Acked, AfterOne, Store, Tried, Attempts, Used, Effect, EffectAll, CutOff, HoldsFirst;
    ghost var target := Programmed(image[..]);
    ghost var cs := Chunks(target, 0);
    ChunksCover(target, 0);
    EraseFirst(line.memory, line.fates, |cs|);
    ChunksStore(map[], target, 0);
    AllOfIt(target);
    var pages := new byte[1][0];
    ghost var erase := Command(ERASE, 0, pages[0..1]);
    assert erase == Command('E' as int, 0, [0]);
    ok := FormAndSend(line, ERASE, 0, pages, 0, 1);
    if !ok {
      NothingHeld(target);
      return;
    }
    if image.Length > REMAP {
      assert image[REMAP..REMAP + (image.Length - REMAP)] == image[..][REMAP..] == target;
      ok := Write(line, image, REMAP, 0, image.Length - REMAP);
    } else {
      assert image[0..0 + image.Length] == target;
      ok := Write(line, image, 0, 0, image.Length);
    }
    CutOffHolds(line.memory, target);
    if ok {
      HeldBytes(line.memory, image[..], target);
    }
  }

  /** What the erase settles for the packets that follow. */
  lemma EraseFirst(m: Memory, fates: seq<Fate>, n: nat)
    ensures Effect(m, Command('E' as int, 0, [0])) == map[] && Supported(Command('E' as int, 0, [0]))
    ensures AllAcked(fates, 1 + n) <==> Acked(fates, ATTEMPTS) && AllAcked(AfterOne(fates), n)
    ensures Tried(fates, 1 + n) == if Acked(fates, ATTEMPTS) then 1 + Tried(AfterOne(fates), n) else 1
    ensures forall k: nat :: Attempts(fates, 1 + k) == Used(fates, ATTEMPTS) + Attempts(AfterOne(fates), k)
    ensures Attempts(fates, 1) == Used(fates, ATTEMPTS)
  {
    hide Acked, AfterOne, Used, Tried, Attempts;
    OneMore(fates, n);
  }

  lemma AllOfIt(d: seq<byte>)
    ensures HoldsFirst(Store(map[], 0, d), d, |d|)
  {
    assert d[..|d|] == d;
    StoreHolds(d, |d|);
  }

  lemma NothingHeld(d: seq<byte>)
    ensures HoldsFirst(map[], d, 0)
  {
  }

  lemma HeldBytes(m: Memory, image: seq<byte>, d: seq<byte>)
    requires d == Programmed(image) && HoldsFirst(m, d, |d|)
    ensures |image| > 0x8_0000 ==>
              && (forall i :: i in m <==> 0 <= i < |image| - 0x8_0000)
              && (forall i :: 0 <= i < |image| - 0x8_0000 ==> m[i] == image[i + 0x8_0000])
    ensures |image| <= 0x8_0000 ==>
              (forall i :: i in m <==> 0 <= i < |image|) && (forall i :: 0 <= i < |image| ==> m[i] == image[i])
  {
  }

  /** A line on which no three attempts in a row fail delivers everything. */
  lemma {:induction false} NoThreeLost(fates: seq<Fate>, n: nat)
    requires forall i: nat :: i + 3 <= 3 * n ==> Acked(Later(fates, i), 3)
    ensures AllAcked(fates, n)
    decreases n
  {
    hide Acked;
    if n > 0 {
      NothingLater(fates);
      assert Acked(Later(fates, 0), 3);
      UsedAtLeastOne(fates);
      var u := Used(fates, ATTEMPTS);
      forall i: nat | i + 3 <= 3 * (n - 1)
        ensures Acked(Later(AfterOne(fates), i), 3)
      {
        LaterAdds(fates, u, i);
        assert Acked(Later(fates, u + i), 3);
      }
      NoThreeLost(AfterOne(fates), n - 1);
    }
  }
}
