/**
 Reception in microseconds: what the receiver does with an edge, a frame and a signal, in terms
 of the times themselves.
 */
module NecTiming {
  import opened Arithmetic
  import opened Bits
  import opened NecDecoder
  import opened NecFrames

  /** Bit `k` of a code, the lightest first. */
  function Bit(code: nat, k: nat): nat {
    code / Pow2(k) % 2
  }

  /**
   The 67 edges of a frame that carries `code`: falls and rises in turn, a leader mark of 8 to
   10 ms, a leader space of 4 to 5 ms, marks of 350 to 800 us, and after each mark a space of 350
   to 800 us for a 0 and of 1400 to 1900 us for a 1, the lightest bit first.
   */
  predicate Carries(f: seq<Edge>, code: nat) {
    && |f| == 67
    && (forall i :: 0 <= i < 67 ==> f[i].fall == (i % 2 == 0) && f[i].rise == (i % 2 == 1))
    && 8000 <= f[1].elapsed <= 10000
    && 4000 <= f[2].elapsed <= 5000
    && (forall i :: 3 <= i < 67 && i % 2 == 1 ==> 350 <= f[i].elapsed <= 800)
    && (forall i :: 4 <= i < 67 && i % 2 == 0 && Bit(code, i / 2 - 2) == 0 ==> 350 <= f[i].elapsed <= 800)
    && (forall i :: 4 <= i < 67 && i % 2 == 0 && Bit(code, i / 2 - 2) == 1 ==> 1400 <= f[i].elapsed <= 1900)
  }

  /** Edge `i` falls or rises, but not both, in its turn. */
  predicate Alternates(f: seq<Edge>) {
    forall i :: 0 <= i < |f| ==> f[i].fall == (i % 2 == 0) && f[i].rise == (i % 2 == 1)
  }

  // ---------- the bits of a frame ----------

  lemma DivideOut(s: nat, b: nat, j: nat, k: nat)
    requires j <= k && s < Pow2(k)
    ensures j == k ==> (s + b * Pow2(k)) / Pow2(j) == b
    ensures j < k ==> (s + b * Pow2(k)) / Pow2(j) % 2 == s / Pow2(j) % 2
  {
    hide Pow2;
    if j == k {
      DivideTop(s, b, Pow2(k));
    } else {
      Pow2Add(j, k - j);
      Pow2Even(k - j);
      DivideLow(s, b, Pow2(j), Pow2(k - j) / 2);
    }
  }

  lemma DivideTop(s: nat, b: nat, p: nat)
    requires s < p
    ensures (s + b * p) / p == b
  {
    DivisionUnique(s + b * p, p, b, s);
  }

  lemma DivideLow(s: nat, b: nat, p: nat, h: nat)
    requires p > 0
    ensures (s + b * (p * (2 * h))) / p % 2 == s / p % 2
  {
    var q, r, x := s / p, s % p, b * h;
    DivMod(s, p);
    Regroup(b, p, h, q, x);
    DivisionUnique(s + b * (p * (2 * h)), p, q + 2 * x, r);
    DivisionUnique(q + 2 * x, 2, q / 2 + x, q % 2);
  }

  lemma Regroup(b: int, p: int, h: int, q: int, x: int)
    requires x == b * h
    ensures p * q + b * (p * (2 * h)) == p * (q + 2 * x)
  {
    assert b * (p * (2 * h)) == 2 * (p * (b * h));
    assert p * (q + 2 * x) == p * q + p * (2 * x);
  }

  lemma Pow2Even(n: nat)
    requires n > 0
    ensures Pow2(n) == 2 * (Pow2(n) / 2)
  {
  }

  /** Bit `j` of the value a frame spells is the one its space stands for. */
  lemma {:induction false} SpellBit(f: seq<Edge>, k: nat, j: nat)
    requires |f| >= 3 + 2 * k && j < k
    ensures Bit(Spell(f, k), j) == BitOf(f[4 + 2 * j])
  {
    hide Pow2, Shl;
    var s, b := Spell(f, k - 1), BitOf(f[2 + 2 * k]);
    ShlIsProduct(b, k - 1);
    assert Spell(f, k) == s + b * Pow2(k - 1) by { SpellStep(f, k); }
    DivideOut(s, b, j, k - 1);
    if j < k - 1 {
      SpellBit(f, k - 1, j);
    }
  }

  lemma SpellStep(f: seq<Edge>, k: nat)
    requires |f| >= 3 + 2 * k && k > 0
    ensures Spell(f, k) == Spell(f, k - 1) + Shl(BitOf(f[2 + 2 * k]), k - 1)
  {
  }

  /** Two words with the same bits are the same. */
  lemma {:induction false} SameBitsSameCode(x: nat, y: nat, k: nat)
    requires x < Pow2(k) && y < Pow2(k) && forall j :: 0 <= j < k ==> Bit(x, j) == Bit(y, j)
    ensures x == y
  {
    if k > 0 {
      assert Bit(x, 0) == x % 2 && Bit(y, 0) == y % 2;
      forall j | 0 <= j < k - 1
        ensures Bit(x / 2, j) == Bit(y / 2, j)
      {
        HalfBit(x, j);
        HalfBit(y, j);
        assert Bit(x, j + 1) == Bit(y, j + 1);
      }
      SameBitsSameCode(x / 2, y / 2, k - 1);
    }
  }

  lemma HalfBit(x: nat, j: nat)
    ensures Bit(x / 2, j) == Bit(x, j + 1)
  {
    hide Pow2;
    var p := Pow2(j);
    assert Pow2(j + 1) == 2 * p by { Pow2Next(j); }
    var q, r := x / (2 * p), x % (2 * p);
    DivMod(x, 2 * p);
    assert x / 2 == p * q + r / 2;
    DivisionUnique(x / 2, p, q, r / 2);
  }

  lemma Pow2Next(j: nat)
    ensures Pow2(j + 1) == 2 * Pow2(j)
  {
  }

  // ---------- frames ----------

  /** A frame that carries a code is one the receiver recognises, and it spells that code. */
  lemma CarriesIsFrame(f: seq<Edge>, code: uint32)
    requires Carries(f, code)
    ensures FitsUpTo(f, FRAME_EDGES) && CodeOf(f) == code
  {
    hide Fits, Carries, CodeOf;
    Places(f, code);
    forall i | 0 <= i < FRAME_EDGES
      ensures Fits(i, f[i])
    {
      PlaceFits(f, code, i);
    }
    SpellsCode(f, code);
  }

  lemma Places(f: seq<Edge>, code: nat)
    requires Carries(f, code)
    ensures |f| == 67
  {
  }

  lemma SpellsCode(f: seq<Edge>, code: uint32)
    requires |f| == FRAME_EDGES && Carries(f, code)
    ensures CodeOf(f) == code
  {
    hide Pow2, Shl, Spell, Bit, Carries;
    var n := (|f| - 3) / 2;
    forall j | 0 <= j < n
      ensures Bit(Spell(f, n), j) == Bit(code, j)
    {
      SpellBit(f, n, j);
      SpaceBit(f, code, 4 + 2 * j);
      assert (4 + 2 * j) / 2 - 2 == j;
    }
    Pow2Values();
    SameBitsSameCode(Spell(f, n), code, n);
  }

  lemma PlaceFits(f: seq<Edge>, code: nat, i: nat)
    requires Carries(f, code) && i < 67
    ensures Fits(i, f[i])
  {
    hide Pow2;
    if i >= 4 && i % 2 == 0 {
      SpaceBit(f, code, i);
    }
  }

  lemma SpaceBit(f: seq<Edge>, code: nat, i: nat)
    requires Carries(f, code) && 4 <= i < 67 && i % 2 == 0
    ensures BitOf(f[i]) == Bit(code, i / 2 - 2) && (IsZero(f[i]) || IsOne(f[i]))
  {
    hide Pow2;
    assert Bit(code, i / 2 - 2) == 0 || Bit(code, i / 2 - 2) == 1;
  }

  /** And a frame that the receiver recognises carries the code it spells. */
  lemma FrameCarries(f: seq<Edge>)
    requires |f| == FRAME_EDGES && FitsUpTo(f, FRAME_EDGES) && Alternates(f)
    ensures Carries(f, CodeOf(f))
  {
    hide Pow2, Shl, Spell, Bit;
    var code := CodeOf(f);
    forall i | 4 <= i < 67 && i % 2 == 0
      ensures Bit(code, i / 2 - 2) == BitOf(f[i])
    {
      SpellBit(f, (|f| - 3) / 2, i / 2 - 2);
    }
    assert forall i :: 0 <= i < 67 ==> Fits(i, f[i]);
  }

  /**
   For every code and every frame that carries it, met while the receiver waits or after more
   than 15 ms: the code is delivered, once, and the receiver waits again.
   */
  lemma FrameIsReceived(d: Decoder, f: seq<Edge>, code: uint32)
    requires Carries(f, code) && (d.state == Idle || f[0].elapsed > 15000)
    ensures Run(d, f) == Decoder(Idle, code, 32, true, code)
    ensures Events(d, f) == [code]
  {
    hide Run, Events, CodeOf, FitsUpTo, Bit;
    CarriesIsFrame(f, code);
    FrameDelivers(d, f);
  }

  /** The same for a repeat: its leader space takes 1.8 to 2.8 ms, and the last code comes again. */
  lemma RepeatIsReceived(d: Decoder, f: seq<Edge>)
    requires |f| == 3 && Alternates(f) && (d.state == Idle || f[0].elapsed > 15000)
    requires 8000 <= f[1].elapsed <= 10000 && 1800 <= f[2].elapsed <= 2800
    ensures Run(d, f).ready && Run(d, f).state == Idle && Run(d, f).last == d.last
    ensures Events(d, f) == [d.last]
  {
    hide Shl, Pow2, Spell, StoreBit;
    FrameProgress(d, f, 2);
    RunSnoc(d, f, 2);
    assert f[..3] == f;
  }

  // ---------- single edges ----------

  /** After more than 15 ms, or when the receiver waits, a fall starts a frame and nothing else counts. */
  lemma SilenceResets(d: Decoder, e: Edge)
    requires e.elapsed > 15000 || d.state == Idle
    ensures Step(d, e) == d.(state := if e.fall then LeaderLow else Idle)
    ensures !Signals(d, e)
  {
    hide StoreBit;
  }

  /** Up to 15 ms a receiver in the middle of a frame only looks at the edge it waits for. */
  lemma WaitsForItsEdge(d: Decoder, e: Edge)
    requires e.elapsed <= 15000 && d.state != Idle
    requires if d.state in {LeaderLow, DataLow} then !e.rise else !e.fall
    ensures Step(d, e) == d && !Assigns(d, e)
  {
    hide StoreBit;
  }

  /** A leader mark outside 8 to 10 ms ends the frame. */
  lemma LeaderMark(d: Decoder, e: Edge)
    requires e.elapsed <= 15000 && d.state == LeaderLow && e.rise
    ensures Step(d, e) == d.(state := if 8000 <= e.elapsed <= 10000 then LeaderHigh else Idle)
  {
  }

  /** A leader space of 4 to 5 ms opens the data, one of 1.8 to 2.8 ms repeats, any other ends the frame. */
  lemma LeaderSpace(d: Decoder, e: Edge)
    requires e.elapsed <= 15000 && d.state == LeaderHigh && e.fall
    ensures Step(d, e) == if 4000 <= e.elapsed <= 5000 then d.(state := DataLow, raw := 0, count := 0)
                          else if 1800 <= e.elapsed <= 2800 then d.(state := Idle, ready := true)
                          else d.(state := Idle)
  {
  }

  /** A bit mark outside 350 to 800 us ends the frame. */
  lemma BitMark(d: Decoder, e: Edge)
    requires e.elapsed <= 15000 && d.state == DataLow && e.rise
    ensures Step(d, e) == d.(state := if 350 <= e.elapsed <= 800 then DataHigh else Idle)
  {
  }

  /**
   A bit space of 350 to 800 us adds nothing and one of 1400 to 1900 us the bit's weight; the 32nd
   one completes the code; any other space ends the frame and leaves everything else alone.
   */
  lemma BitSpace(d: Decoder, e: Edge)
    requires e.elapsed <= 15000 && d.state == DataHigh && e.fall && Bounded(d)
    ensures 350 <= e.elapsed <= 800 || 1400 <= e.elapsed <= 1900 ==>
              var raw := if e.elapsed <= 800 then d.raw as int else d.raw + Pow2(d.count);
              && Step(d, e).raw == raw && Step(d, e).count == d.count + 1
              && (d.count < 31 ==> Step(d, e) == d.(state := DataLow, raw := raw, count := d.count + 1))
              && (d.count == 31 ==> Step(d, e) == Decoder(Idle, raw, 32, true, raw))
    ensures !(350 <= e.elapsed <= 800 || 1400 <= e.elapsed <= 1900) ==> Step(d, e) == d.(state := Idle)
  {
    hide Bitwise, Shl, Pow2, StoreBit;
    StoreBitAdds(d, 0);
    StoreBitAdds(d, 1);
    ShlIsProduct(0, d.count);
    ShlIsProduct(1, d.count);
  }

  // ---------- whole signals ----------

  /**
   Over every alternating signal from reset: whenever the last code is assigned, the last 67 edges
   carry exactly that code.
   */
  lemma AssignedIsCarried(es: seq<Edge>, e: Edge)
    requires Alternating(es + [e]) && Assigns(Run(RESET, es), e)
    ensures |es| >= 66 && Carries((es + [e])[|es| - 66..], Step(Run(RESET, es), e).last)
  {
    hide Run, Step, Assigns, CodeOf, FitsUpTo, Begins, Carries, Alternating;
    var t := es + [e];
    AssignsExactlyFrames(es, e);
    var f := Suffix(t, FRAME_EDGES);
    SuffixAlternates(t, f);
    FrameCarries(f);
  }

  /** And 67 edges that carry a code and begin a frame always assign it. */
  lemma CarriedIsAssigned(es: seq<Edge>, e: Edge, code: uint32)
    requires Alternating(es + [e]) && |es| >= 66
    requires Carries((es + [e])[|es| - 66..], code) && Begins((es + [e])[..|es| - 66], (es + [e])[|es| - 66])
    ensures Assigns(Run(RESET, es), e) && Step(Run(RESET, es), e).last == code
  {
    hide Run, Step, Assigns, CodeOf, FitsUpTo, Begins, Carries, Alternating;
    var t := es + [e];
    AssignsExactlyFrames(es, e);
    assert t[|es| - 66..] == Suffix(t, FRAME_EDGES);
    CarriesIsFrame(Suffix(t, FRAME_EDGES), code);
  }

  lemma SuffixAlternates(t: seq<Edge>, f: seq<Edge>)
    requires Alternating(t) && |t| >= 67 && f == t[|t| - 67..] && FitsUpTo(f, 67)
    ensures Alternates(f)
  {
    assert Fits(0, f[0]);
    TurnByTurn(f, 67);
  }

  lemma {:induction false} TurnByTurn(f: seq<Edge>, n: nat)
    requires n <= |f| && (|f| > 0 ==> f[0].fall)
    requires (forall i :: 0 <= i < |f| ==> f[i].rise != f[i].fall)
    requires (forall i :: 0 < i < |f| ==> f[i].rise != f[i - 1].rise)
    ensures forall i :: 0 <= i < n ==> f[i].fall == (i % 2 == 0) && f[i].rise == (i % 2 == 1)
  {
    if n > 0 {
      TurnByTurn(f, n - 1);
      assert n > 1 ==> f[n - 1].rise != f[n - 2].rise;
    }
  }
}
