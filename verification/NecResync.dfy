/**
 Streams of bursts: after more than 15 ms of silence the receiver has forgotten everything but
 the last code, so each burst is received as if it were the first.
 */
module NecResync {
  import opened Bits
  import opened NecDecoder
  import opened NecFrames

  /** A burst starts with a fall after a silence longer than the frame timeout. */
  predicate AfterSilence(b: seq<Edge>) {
    b != [] && b[0].fall && b[0].elapsed > FRAME_TIMEOUT
  }

  /** Two decoders that only differ in what the next leader space overwrites, and in the flag. */
  predicate Alike(d1: Decoder, d2: Decoder) {
    && d1.state == d2.state && d1.last == d2.last
    && (InData(d1) ==> d1.raw == d2.raw && d1.count == d2.count)
  }

  lemma AlikeStep(d1: Decoder, d2: Decoder, e: Edge)
    requires Alike(d1, d2)
    ensures Alike(Step(d1, e), Step(d2, e)) && Signals(d1, e) == Signals(d2, e)
  {
    hide Bitwise, Shl, Pow2;
  }

  /** Whatever a burst after silence is, what it makes the receiver do depends on the last code only. */
  lemma {:induction false} SilenceForgets(d1: Decoder, d2: Decoder, b: seq<Edge>)
    requires AfterSilence(b) && d1.last == d2.last
    ensures Alike(Run(d1, b), Run(d2, b)) && Events(d1, b) == Events(d2, b)
  {
    hide Bitwise, Shl, Pow2;
    var b' := b[..|b| - 1];
    if b' != [] {
      SilenceForgets(d1, d2, b');
      AlikeStep(Run(d1, b'), Run(d2, b'), b[|b| - 1]);
    }
  }

  datatype Burst =
    | Full(edges: seq<Edge>)
    | Repeat(edges: seq<Edge>)
    | Partial(edges: seq<Edge>)
  {
    /**
     A full frame and its stop edge, a repeat frame and its stop edge, or a proper prefix of
     either; each ends on a rising edge, as a burst must for the next one to start with a fall.
     */
    predicate Valid() {
      && AfterSilence(edges)
      && edges[|edges| - 1].rise && !edges[|edges| - 1].fall
      && match this
         case Full(_) => |edges| == FRAME_EDGES + 1 && FitsUpTo(edges, FRAME_EDGES)
         case Repeat(_) =>
           |edges| == 4 && FitsUpTo(edges, 2) && edges[2].fall && IsRepeatSpace(edges[2])
         case Partial(_) => |edges| <= FRAME_EDGES && FitsUpTo(edges, |edges|)
    }

    /** The code a burst leaves as the last one received. */
    function LastAfter(last: uint32): uint32
      requires Valid()
    {
      if Full? then CodeOf(edges[..FRAME_EDGES]) else last
    }

    /** What the main loop should be told. */
    function Reports(last: uint32): seq<uint32>
      requires Valid()
    {
      if Partial? then [] else [LastAfter(last)]
    }
  }

  function Flatten(bs: seq<Burst>): seq<Edge> {
    if bs == [] then [] else Flatten(bs[..|bs| - 1]) + bs[|bs| - 1].edges
  }

  function LastOf(last: uint32, bs: seq<Burst>): uint32
    requires forall b :: b in bs ==> b.Valid()
  {
    if bs == [] then last else bs[|bs| - 1].LastAfter(LastOf(last, bs[..|bs| - 1]))
  }

  function Report(last: uint32, bs: seq<Burst>): seq<uint32>
    requires forall b :: b in bs ==> b.Valid()
  {
    if bs == [] then []
    else Report(last, bs[..|bs| - 1]) + bs[|bs| - 1].Reports(LastOf(last, bs[..|bs| - 1]))
  }

  lemma FullReceived(d: Decoder, es: seq<Edge>)
    requires Full(es).Valid()
    ensures Events(d, es) == [CodeOf(es[..FRAME_EDGES])] && Run(d, es).last == CodeOf(es[..FRAME_EDGES])
  {
    hide Bitwise, Shl, Pow2, Spell, CodeOf, StoreBit;
    FrameDelivers(d, es[..FRAME_EDGES]);
    RunSnoc(d, es, FRAME_EDGES);
    assert es[..FRAME_EDGES + 1] == es;
  }

  lemma RepeatReceived(d: Decoder, es: seq<Edge>)
    requires Repeat(es).Valid()
    ensures Events(d, es) == [d.last] && Run(d, es).last == d.last
  {
    hide Bitwise, Shl, Pow2, Spell, StoreBit;
    FrameProgress(d, es, 2);
    RunSnoc(d, es, 2);
    RunSnoc(d, es, 3);
    assert es[..4] == es;
  }

  lemma PartialReceived(d: Decoder, es: seq<Edge>)
    requires Partial(es).Valid()
    ensures Events(d, es) == [] && Run(d, es).last == d.last
  {
    hide Bitwise, Shl, Pow2, Spell, Step;
    assert Fits(|es| - 1, es[|es| - 1]);
    FrameProgress(d, es, |es|);
    assert es[..|es|] == es;
  }

  /** One burst, from any decoder state at all. */
  lemma BurstReceived(d: Decoder, b: Burst)
    requires b.Valid()
    ensures Events(d, b.edges) == b.Reports(d.last) && Run(d, b.edges).last == b.LastAfter(d.last)
  {
    hide Run, Events, CodeOf, FitsUpTo;
    match b
    case Full(es) => FullReceived(d, es);
    case Repeat(es) => RepeatReceived(d, es);
    case Partial(es) => PartialReceived(d, es);
  }

  /**
   Resynchronisation: for every stream of full, repeat and broken-off bursts, and whatever the
   decoder was doing before it, the ready events are exactly the full and repeat bursts, in
   order, each with its code; a repeat carries the last completed code (0 before the first).
   */
  lemma {:induction false} StreamReceived(d: Decoder, bs: seq<Burst>)
    requires forall b :: b in bs ==> b.Valid()
    ensures Events(d, Flatten(bs)) == Report(d.last, bs) && Run(d, Flatten(bs)).last == LastOf(d.last, bs)
  {
    if bs != [] {
      hide Bitwise, Shl, Pow2, Spell, Step;
      var init, b := bs[..|bs| - 1], bs[|bs| - 1];
      StreamReceived(d, init);
      BurstReceived(Run(d, Flatten(init)), b);
      RunConcat(d, Flatten(init), b.edges);
    }
  }
}
