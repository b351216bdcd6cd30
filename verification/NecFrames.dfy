/**
 What the receiver recognises: frames as sequences of edges, and the theorems that relate
 them to runs of the interrupt handler.
 */
module NecFrames {
  import opened Bits
  import opened NecDecoder

  const FRAME_EDGES := 67

  /** Edge number `i` of a frame: opening fall, leader mark, leader space, 32 mark/space pairs. */
  predicate Fits(i: nat, e: Edge) {
    if i == 0 then e.fall
    else if i == 1 then e.rise && IsLeaderMark(e)
    else if i == 2 then e.fall && IsLeaderSpace(e)
    else if i % 2 == 1 then e.rise && IsBitMark(e)
    else e.fall && (IsZero(e) || IsOne(e))
  }

  predicate FitsUpTo(f: seq<Edge>, n: nat)
    requires n <= |f|
  {
    forall i :: 0 <= i < n ==> Fits(i, f[i])
  }

  function BitOf(e: Edge): nat {
    if IsZero(e) then 0 else 1
  }

  /** The value of the first `k` bits of a frame, the first one lightest. */
  function Spell(f: seq<Edge>, k: nat): (v: nat)
    requires |f| >= 3 + 2 * k
    ensures v < Pow2(k)
  {
    if k == 0 then 0
    else
      ShlIsProduct(BitOf(f[2 + 2 * k]), k - 1);
      Spell(f, k - 1) + Shl(BitOf(f[2 + 2 * k]), k - 1)
  }

  /** A fall met in this situation starts a new frame. */
  predicate Opens(d: Decoder, e: Edge) {
    e.fall && (d.state == Idle || e.elapsed > FRAME_TIMEOUT)
  }

  /** How many edges of a frame the decoder believes it has seen. */
  function Position(d: Decoder): nat {
    match d.state
    case Idle => 0
    case LeaderLow => 1
    case LeaderHigh => 2
    case DataLow => 3 + 2 * d.count
    case DataHigh => 4 + 2 * d.count
  }

  predicate InData(d: Decoder) {
    d.state in {DataLow, DataHigh}
  }

  // ---------- runs ----------

  lemma {:induction false} RunConcat(d: Decoder, a: seq<Edge>, b: seq<Edge>)
    ensures Run(d, a + b) == Run(Run(d, a), b)
    ensures Events(d, a + b) == Events(d, a) + Events(Run(d, a), b)
  {
    if b == [] {
      assert a + b == a;
    } else {
      var b' := b[..|b| - 1];
      assert (a + b)[..|a + b| - 1] == a + b';
      RunConcat(d, a, b');
    }
  }

  lemma RunSnoc(d: Decoder, es: seq<Edge>, n: nat)
    requires n < |es|
    ensures Run(d, es[..n + 1]) == Step(Run(d, es[..n]), es[n])
    ensures Events(d, es[..n + 1])
         == Events(d, es[..n]) + if Signals(Run(d, es[..n]), es[n]) then [Step(Run(d, es[..n]), es[n]).last] else []
  {
    assert es[..n + 1][..n] == es[..n];
  }

  // ---------- a frame drives the decoder forward ----------

  /** A fitting edge that is not a bit space moves the decoder one state on and nothing else. */
  lemma AdvanceToMark(d: Decoder, e: Edge)
    requires d.state != Idle && d.state != DataHigh && Bounded(d) && Fits(Position(d), e)
    ensures !Signals(d, e)
    ensures Step(d, e) == match d.state
                          case LeaderLow => d.(state := LeaderHigh)
                          case LeaderHigh => d.(state := DataLow, raw := 0, count := 0)
                          case _ => d.(state := DataHigh)
  {
  }

  /** A fitting bit space adds its bit, and the 32nd one completes the code. */
  lemma AdvanceBit(d: Decoder, e: Edge)
    requires d.state == DataHigh && Bounded(d) && e.fall && (IsZero(e) || IsOne(e))
    ensures var v := d.raw + Shl(BitOf(e), d.count); v < Pow2(d.count + 1) && v < WORD && Step(d, e) == WithBit(d, v)
    ensures Signals(d, e) == (d.count == 31)
  {
    StoreBitAdds(d, BitOf(e));
    StoreBitAdds(d.(ready := false), BitOf(e));
    assert Step(d, e) == StoreBit(d, BitOf(e));
    assert Step(d.(ready := false), e) == StoreBit(d.(ready := false), BitOf(e));
  }

  /** The decoder after `j` edges of a frame that found it ready to start one. */
  ghost predicate Following(d: Decoder, f: seq<Edge>, j: nat, r: Decoder)
    requires |f| >= j
  {
    && Position(r) == j && Bounded(r) && r.last == d.last && r.ready == d.ready
    && (InData(r) ==> r.raw == Spell(f, r.count))
  }

  lemma FollowStep(d: Decoder, f: seq<Edge>, j: nat, r: Decoder)
    requires 1 <= j < 66 && j < |f| && Fits(j, f[j]) && Following(d, f, j, r)
    ensures Following(d, f, j + 1, Step(r, f[j])) && !Signals(r, f[j])
  {
    hide Shl, Pow2, Step;
    if r.state == DataHigh {
      AdvanceBit(r, f[j]);
    } else {
      AdvanceToMark(r, f[j]);
    }
  }

  lemma {:induction false} FrameProgress(d: Decoder, f: seq<Edge>, j: nat)
    requires 1 <= j <= 66 && j <= |f| && FitsUpTo(f, j) && Opens(d, f[0])
    ensures Following(d, f, j, Run(d, f[..j])) && Events(d, f[..j]) == []
  {
    RunSnoc(d, f, j - 1);
    if j == 1 {
      assert f[..0] == [];
    } else {
      FrameProgress(d, f, j - 1);
      FollowStep(d, f, j - 1, Run(d, f[..j - 1]));
    }
  }

  /** The 32-bit code a frame spells. */
  function CodeOf(f: seq<Edge>): uint32
    requires |f| == FRAME_EDGES
  {
    Pow2Values();
    Spell(f, (|f| - 3) / 2)
  }

  lemma LastBit(d: Decoder, f: seq<Edge>, r: Decoder)
    requires |f| == FRAME_EDGES && Fits(66, f[66]) && Following(d, f, 66, r)
    ensures Step(r, f[66]) == Decoder(Idle, CodeOf(f), 32, true, CodeOf(f))
    ensures Signals(r, f[66])
  {
    hide Shl, Pow2, Step;
    AdvanceBit(r, f[66]);
    var n := r.count + 1;
    assert Spell(f, n) == Spell(f, r.count) + Shl(BitOf(f[2 + 2 * n]), r.count);
  }

  /** A whole frame delivers its value and leaves the decoder idle, whatever came before. */
  lemma FrameDelivers(d: Decoder, f: seq<Edge>)
    requires |f| == FRAME_EDGES && FitsUpTo(f, FRAME_EDGES) && Opens(d, f[0])
    ensures Run(d, f) == Decoder(Idle, CodeOf(f), 32, true, CodeOf(f))
    ensures Events(d, f) == [CodeOf(f)]
  {
    hide Shl, Pow2, Step, Spell;
    FrameProgress(d, f, 66);
    LastBit(d, f, Run(d, f[..66]));
    RunSnoc(d, f, 66);
    assert f[..67] == f;
  }

  // ---------- soundness: every completed code was on the wire ----------

  /** A real signal: each edge is a rise or a fall, never both, and they alternate. */
  predicate Alternating(es: seq<Edge>) {
    && (forall i :: 0 <= i < |es| ==> es[i].rise != es[i].fall)
    && (forall i :: 0 < i < |es| ==> es[i].rise != es[i - 1].rise)
  }

  function Suffix(es: seq<Edge>, n: nat): seq<Edge>
    requires n <= |es|
  {
    es[|es| - n..]
  }

  /** The last `n` edges fit a frame, and the decoder was ready to start one at the first. */
  ghost predicate OpenFrame(es: seq<Edge>, n: nat) {
    && 0 < n <= |es|
    && FitsUpTo(Suffix(es, n), n)
    && Opens(Run(RESET, es[..|es| - n]), es[|es| - n])
  }

  /** The decoder's state after `es` from reset says no more than the last edges justify. */
  ghost predicate Explained(es: seq<Edge>, d: Decoder) {
    && Bounded(d)
    && (d.state != Idle ==> OpenFrame(es, Position(d)))
    && (InData(d) ==> d.raw == Spell(Suffix(es, Position(d)), d.count))
  }

  lemma {:induction false} SpellPrefix(f: seq<Edge>, e: Edge, k: nat)
    requires |f| >= 3 + 2 * k
    ensures Spell(f + [e], k) == Spell(f, k)
  {
    if k != 0 {
      SpellPrefix(f, e, k - 1);
    }
  }

  /** An open frame grows with the next fitting edge. */
  lemma FrameGrows(es: seq<Edge>, n: nat, e: Edge)
    requires OpenFrame(es, n) && Fits(n, e)
    ensures OpenFrame(es + [e], n + 1) && Suffix(es + [e], n + 1) == Suffix(es, n) + [e]
  {
    var t := es + [e];
    assert t[..|t| - (n + 1)] == es[..|es| - n];
    assert Suffix(t, n + 1) == Suffix(es, n) + [e];
  }

  lemma FrameOpens(es: seq<Edge>, e: Edge)
    requires Opens(Run(RESET, es), e)
    ensures OpenFrame(es + [e], 1)
  {
    assert (es + [e])[..|es|] == es;
  }

  /** The last edge of an explained state is the one the state was entered on. */
  lemma WaitsForOtherEdge(es: seq<Edge>, d: Decoder, e: Edge)
    requires Explained(es, d) && d.state != Idle && Alternating(es + [e])
    ensures e.rise == (d.state in {LeaderLow, DataLow}) && e.fall == !e.rise
  {
    var t, p := es + [e], Position(d);
    assert t[|es| - 1] == es[|es| - 1] == Suffix(es, p)[p - 1] && t[|es|] == e;
    assert Fits(p - 1, es[|es| - 1]);
  }

  lemma ExplainedAdvance(f: seq<Edge>, d: Decoder, e: Edge)
    requires Bounded(d) && d.state != Idle && |f| == Position(d) && Fits(|f|, e)
    requires InData(d) ==> d.raw == Spell(f, d.count)
    ensures var r := Step(d, e);
            r.state != Idle ==> Position(r) == |f| + 1 && (InData(r) ==> r.raw == Spell(f + [e], r.count))
  {
    hide Shl, Pow2, Step;
    if InData(d) {
      SpellPrefix(f, e, d.count);
    }
    if d.state == DataHigh {
      AdvanceBit(d, e);
    } else {
      AdvanceToMark(d, e);
    }
  }

  /** An opening fall starts a frame; any other edge that does not fit sends the decoder to idle. */
  lemma OpensOrResets(d: Decoder, e: Edge)
    requires e.rise == !e.fall
    requires d.state != Idle && e.elapsed <= FRAME_TIMEOUT ==> e.rise == (d.state in {LeaderLow, DataLow})
    ensures Opens(d, e) ==> Step(d, e).state == LeaderLow
    ensures !Opens(d, e) && (d.state == Idle || e.elapsed > FRAME_TIMEOUT || !Fits(Position(d), e)) ==>
              Step(d, e).state == Idle
  {
    hide Shl, Pow2, StoreBit;
  }

  lemma ExplainedStep(es: seq<Edge>, d: Decoder, e: Edge)
    requires d == Run(RESET, es) && Explained(es, d) && Alternating(es + [e])
    ensures Explained(es + [e], Step(d, e))
  {
    hide Shl, Pow2, Run, Spell, Step, Fits, FitsUpTo;
    StepKeepsBound(d, e);
    assert e == (es + [e])[|es|];
    if d.state != Idle {
      WaitsForOtherEdge(es, d, e);
    }
    OpensOrResets(d, e);
    if Opens(d, e) {
      FrameOpens(es, e);
    } else if d.state != Idle && e.elapsed <= FRAME_TIMEOUT && Fits(Position(d), e) {
      FrameGrows(es, Position(d), e);
      ExplainedAdvance(Suffix(es, Position(d)), d, e);
    }
  }

  lemma {:induction false} RunExplained(es: seq<Edge>)
    requires Alternating(es)
    ensures Explained(es, Run(RESET, es))
  {
    if es != [] {
      var es' := es[..|es| - 1];
      assert es == es' + [es[|es| - 1]];
      RunExplained(es');
      ExplainedStep(es', Run(RESET, es'), es[|es| - 1]);
    }
  }

  lemma AssignsExactlyOpenFrames(es: seq<Edge>, e: Edge)
    requires Alternating(es + [e])
    ensures Assigns(Run(RESET, es), e) <==> OpenFrame(es + [e], FRAME_EDGES)
    ensures Assigns(Run(RESET, es), e) ==> Step(Run(RESET, es), e).last == CodeOf(Suffix(es + [e], FRAME_EDGES))
  {
    hide Shl, Pow2, Run, Step, Spell;
    var d, t := Run(RESET, es), es + [e];
    assert Alternating(es) by { assert forall i :: 0 <= i < |es| ==> es[i] == t[i]; }
    RunExplained(es);
    OnlyCompleteFramesAssign(d, e);
    if Assigns(d, e) {
      FrameGrows(es, 66, e);
    }
    if OpenFrame(t, FRAME_EDGES) {
      FrameAtEnd(es, e);
    }
  }

  lemma FrameAtEnd(es: seq<Edge>, e: Edge)
    requires OpenFrame(es + [e], FRAME_EDGES)
    ensures Assigns(Run(RESET, es), e) && Step(Run(RESET, es), e).last == CodeOf(Suffix(es + [e], FRAME_EDGES))
  {
    hide Shl, Pow2, Run, Step, Spell;
    var t := es + [e];
    var head, f := t[..|t| - FRAME_EDGES], Suffix(t, FRAME_EDGES);
    var d0 := Run(RESET, head);
    assert es == head + f[..66] && f[66] == e;
    RunConcat(RESET, head, f[..66]);
    FrameProgress(d0, f, 66);
    var r := Run(d0, f[..66]);
    LastBit(d0, f, r);
    OnlyCompleteFramesAssign(r, e);
  }

  /** The last three edges are a repeat frame the decoder was ready for. */
  ghost predicate OpenRepeat(es: seq<Edge>) {
    && |es| >= 3
    && Opens(Run(RESET, es[..|es| - 3]), es[|es| - 3])
    && Fits(1, es[|es| - 2])
    && es[|es| - 1].fall && IsRepeatSpace(es[|es| - 1])
  }

  lemma SignalsExactlyOpenOnes(es: seq<Edge>, e: Edge)
    requires Alternating(es + [e])
    ensures Signals(Run(RESET, es), e) <==> OpenFrame(es + [e], FRAME_EDGES) || OpenRepeat(es + [e])
    ensures OpenRepeat(es + [e]) ==> Step(Run(RESET, es), e).last == Run(RESET, es).last
  {
    hide Shl, Pow2, Run, Spell;
    var d, t := Run(RESET, es), es + [e];
    AssignsExactlyOpenFrames(es, e);
    assert Alternating(es) by { assert forall i :: 0 <= i < |es| ==> es[i] == t[i]; }
    RunExplained(es);
    OnlyCompleteFramesAssign(d, e);
    if Signals(d, e) && !Assigns(d, e) {
      assert t[..|t| - 3] == es[..|es| - 2];
      assert Suffix(es, 2)[1] == t[|t| - 2] && Suffix(es, 2)[0] == t[|t| - 3];
      WaitsForOtherEdge(es, d, e);
    }
    if OpenRepeat(t) {
      RepeatAtEnd(es, e);
    }
  }

  lemma RepeatSpaceSignals(d: Decoder, e: Edge)
    requires d.state == LeaderHigh && e.fall && IsRepeatSpace(e)
    ensures Signals(d, e) && Step(d, e).last == d.last
  {
  }

  lemma RepeatAtEnd(es: seq<Edge>, e: Edge)
    requires OpenRepeat(es + [e])
    ensures Signals(Run(RESET, es), e) && Step(Run(RESET, es), e).last == Run(RESET, es).last
  {
    hide Shl, Pow2, Spell, Run, Step, Signals;
    var t := es + [e];
    var head, f := t[..|t| - 3], t[|t| - 3..|t| - 1];
    assert es == head + f && f[..2] == f;
    RunConcat(RESET, head, f);
    assert f[0] == t[|t| - 3] && f[1] == t[|t| - 2];
    FrameProgress(Run(RESET, head), f, 2);
    RepeatSpaceSignals(Run(RESET, es), e);
  }

  // ---------- the same in terms of the signal alone ----------

  /**
   After the edges `h` an attempt at a frame is under way: some earlier edge began one, and every
   edge since fits the place it would have in the frame.
   */
  ghost predicate UnderWay(h: seq<Edge>)
    decreases |h|, 0
  {
    exists q :: 0 <= q < |h| && |h| - q < FRAME_EDGES && Begins(h[..q], h[q]) && FitsUpTo(h[q..], |h| - q)
  }

  /** After the edges `h` the edge `e` begins a frame: it falls, after a silence or with none under way. */
  ghost predicate Begins(h: seq<Edge>, e: Edge)
    decreases |h|, 1
  {
    e.fall && (e.elapsed > FRAME_TIMEOUT || !UnderWay(h))
  }

  /** The last `n` edges fit a frame that the first of them begins. */
  ghost predicate Ends(es: seq<Edge>, n: nat) {
    0 < n <= |es| && FitsUpTo(Suffix(es, n), n) && Begins(es[..|es| - n], es[|es| - n])
  }

  /** The last edge ends a whole frame. */
  ghost predicate EndsFrame(es: seq<Edge>) {
    Ends(es, FRAME_EDGES)
  }

  /** The last edge ends a repeat frame. */
  ghost predicate EndsRepeat(es: seq<Edge>) {
    && |es| >= 3 && Ends(es[..|es| - 1], 2)
    && es[|es| - 1].fall && IsRepeatSpace(es[|es| - 1])
  }

  lemma AlternatingPrefix(es: seq<Edge>, n: nat)
    requires Alternating(es) && n <= |es|
    ensures Alternating(es[..n])
  {
    assert forall i :: 0 <= i < n ==> es[..n][i] == es[i];
  }

  lemma AttemptIsBusy(h: seq<Edge>, q: nat)
    requires q < |h| && |h| - q < FRAME_EDGES && Opens(Run(RESET, h[..q]), h[q]) && FitsUpTo(h[q..], |h| - q)
    ensures Run(RESET, h).state != Idle
  {
    hide Run, FitsUpTo, Opens, Following;
    var f, d := h[q..], Run(RESET, h[..q]);
    assert f[0] == h[q] && f[..|f|] == f && h == h[..q] + f;
    FrameProgress(d, f, |f|);
    FollowingIsBusy(d, f, Run(d, f));
    RunConcat(RESET, h[..q], f);
  }

  lemma FollowingIsBusy(d: Decoder, f: seq<Edge>, r: Decoder)
    requires f != [] && Following(d, f, |f|, r)
    ensures r.state != Idle
  {
    hide Spell, Bounded;
  }

  lemma BusyHasAttempt(h: seq<Edge>) returns (q: nat)
    requires Alternating(h) && Run(RESET, h).state != Idle
    ensures q < |h| && |h| - q < FRAME_EDGES && Opens(Run(RESET, h[..q]), h[q]) && FitsUpTo(h[q..], |h| - q)
  {
    hide Shl, Pow2, Run, Spell, Fits;
    RunExplained(h);
    q := |h| - Position(Run(RESET, h));
    assert Suffix(h, |h| - q) == h[q..];
  }

  /** The decoder is in the middle of a frame exactly when one is under way in the signal. */
  lemma {:induction false} BusyIsUnderWay(h: seq<Edge>)
    requires Alternating(h)
    ensures UnderWay(h) <==> Run(RESET, h).state != Idle
    decreases |h|
  {
    hide Run, Opens, FitsUpTo;
    forall q | 0 <= q < |h|
      ensures Begins(h[..q], h[q]) <==> Opens(Run(RESET, h[..q]), h[q])
    {
      AlternatingPrefix(h, q);
      BusyIsUnderWay(h[..q]);
      OpensWhen(Run(RESET, h[..q]), h[q]);
    }
    if UnderWay(h) {
      var q :| 0 <= q < |h| && |h| - q < FRAME_EDGES && Begins(h[..q], h[q]) && FitsUpTo(h[q..], |h| - q);
      AttemptIsBusy(h, q);
    }
    if Run(RESET, h).state != Idle {
      var q := BusyHasAttempt(h);
      assert Begins(h[..q], h[q]);
    }
  }

  lemma OpensWhen(d: Decoder, e: Edge)
    ensures Opens(d, e) <==> e.fall && (d.state == Idle || e.elapsed > FRAME_TIMEOUT)
  {
  }

  lemma BeginsIsOpens(h: seq<Edge>, e: Edge)
    requires Alternating(h)
    ensures Begins(h, e) <==> Opens(Run(RESET, h), e)
  {
    BusyIsUnderWay(h);
  }

  lemma EndsIsOpen(es: seq<Edge>, n: nat)
    requires Alternating(es)
    ensures Ends(es, n) <==> OpenFrame(es, n)
  {
    hide FitsUpTo, Run, Opens, Begins;
    if 0 < n <= |es| {
      AlternatingPrefix(es, |es| - n);
      BeginsIsOpens(es[..|es| - n], es[|es| - n]);
    }
  }

  /**
   Soundness and completeness of reception, over every alternating signal from reset: the
   driver assigns `s_last_code` at an edge exactly when that edge ends a whole frame in the
   signal, and the value assigned is the one those 67 edges spell.
   */
  lemma AssignsExactlyFrames(es: seq<Edge>, e: Edge)
    requires Alternating(es + [e])
    ensures Assigns(Run(RESET, es), e) <==> EndsFrame(es + [e])
    ensures Assigns(Run(RESET, es), e) ==> Step(Run(RESET, es), e).last == CodeOf(Suffix(es + [e], FRAME_EDGES))
  {
    hide OpenFrame, Ends, Run, Step, Spell, Alternating;
    EndsIsOpen(es + [e], FRAME_EDGES);
    AssignsExactlyOpenFrames(es, e);
  }

  /** The only other way to signal is a repeat frame, and it is always taken. */
  lemma SignalsExactlyFramesAndRepeats(es: seq<Edge>, e: Edge)
    requires Alternating(es + [e])
    ensures Signals(Run(RESET, es), e) <==> EndsFrame(es + [e]) || EndsRepeat(es + [e])
    ensures EndsRepeat(es + [e]) ==> Step(Run(RESET, es), e).last == Run(RESET, es).last
  {
    hide OpenFrame, Ends, Run, Step, Spell, Signals, Alternating;
    var t := es + [e];
    EndsIsOpen(t, FRAME_EDGES);
    SignalsExactlyOpenOnes(es, e);
    AlternatingPrefix(t, |es|);
    assert t[..|es|] == es;
    EndsIsOpen(es, 2);
    RepeatIsOpen(es, e);
  }

  lemma RepeatIsOpen(es: seq<Edge>, e: Edge)
    requires Alternating(es + [e])
    ensures OpenRepeat(es + [e]) <==> OpenFrame(es, 2) && e.fall && IsRepeatSpace(e)
  {
    hide Run;
    var t := es + [e];
    if |es| >= 2 {
      assert t[..|t| - 3] == es[..|es| - 2];
      assert Suffix(es, 2)[0] == t[|t| - 3] && Suffix(es, 2)[1] == t[|t| - 2];
    }
  }
}
