/**
 From the wire to the main loop: what the program reports, over every interleaving of edges
 with the steps of the main loop, in terms of the frames in the signal alone.
 */
module NecDelivery {
  import opened Bits
  import opened NecDecoder
  import opened NecFrames
  import opened NecHandoff

  /** The edges that occurred during a run, without the main loop's steps. */
  function EdgesOf(acts: seq<Action>): seq<Edge> {
    if acts == [] then []
    else
      EdgesOf(acts[..|acts| - 1])
      + match acts[|acts| - 1] case Interrupt(e) => [e] case _ => []
  }

  /** The codes of all frames in a signal, in the order in which they end. */
  ghost function Frames(es: seq<Edge>): seq<uint32> {
    if es == [] then []
    else Frames(es[..|es| - 1]) + if EndsFrame(es) then [CodeOf(Suffix(es, FRAME_EDGES))] else []
  }

  /** The main loop only ever touches the flag, and the flag never steers the decoder. */
  predicate SameButFlag(d1: Decoder, d2: Decoder) {
    d1.(ready := false) == d2.(ready := false)
  }

  lemma FlagDoesNotSteer(d1: Decoder, d2: Decoder, e: Edge)
    requires SameButFlag(d1, d2) && Bounded(d1)
    ensures SameButFlag(Step(d1, e), Step(d2, e)) && Assigns(d1, e) == Assigns(d2, e)
  {
    hide Pow2, StoreBit, Assigns;
    OnlyCompleteFramesAssign(d1, e);
    OnlyCompleteFramesAssign(d2, e);
    StoresAlike(Guard(d1, e), Guard(d2, e), 0);
    StoresAlike(Guard(d1, e), Guard(d2, e), 1);
  }

  lemma StoresAlike(d1: Decoder, d2: Decoder, b: nat)
    requires SameButFlag(d1, d2) && b < 2
    ensures SameButFlag(StoreBit(d1, b), StoreBit(d2, b))
  {
    hide Bitwise, Shl;
  }

  /**
   Over every interleaving, polling does not disturb reception: the decoder is where the edges
   alone would have taken it, and the codes completed are exactly the frames in the signal.
   */
  lemma {:induction false} CompletedAreFrames(acts: seq<Action>)
    requires Alternating(EdgesOf(acts))
    ensures SameButFlag(Execute(START, acts).d, Run(RESET, EdgesOf(acts)))
    ensures Execute(START, acts).completed == Frames(EdgesOf(acts))
  {
    hide Step, Assigns, Spell, EndsFrame;
    if acts != [] {
      var init, a := acts[..|acts| - 1], acts[|acts| - 1];
      match a
      case Tick =>
        assert EdgesOf(acts) == EdgesOf(init);
        CompletedAreFrames(init);
      case Main =>
        assert EdgesOf(acts) == EdgesOf(init);
        CompletedAreFrames(init);
      case Interrupt(e) =>
        var es, s := EdgesOf(init), Execute(START, init);
        assert (es + [e])[..|es| + 1 - 1] == es;
        AlternatingPrefix(es + [e], |es|);
        CompletedAreFrames(init);
        AlwaysInvariant(init);
        FlagDoesNotSteer(s.d, Run(RESET, es), e);
        AssignsExactlyFrames(es, e);
    }
  }

  /**
   End to end: over every interleaving with an alternating signal, whatever the main loop has
   returned is 0 or the code of a frame that was in the signal; and once it has caught up with
   the flag it is the code of the latest one, the count of frames it has seen being all of them.
   */
  lemma ReturnsOnlyFrames(acts: seq<Action>)
    requires Alternating(EdgesOf(acts))
    ensures var s, sent := Execute(START, acts), Frames(EdgesOf(acts));
            && Seen(s) <= |sent| && s.returned == Latest(sent, Seen(s))
            && (!s.d.ready && s.pc != Read ==> Seen(s) == |sent|)
  {
    AlwaysInvariant(acts);
    CompletedAreFrames(acts);
  }
}
