/**
 When the main loop receives a code twice.

 A signal raises the flag, be it a frame or a repeat. A code is returned twice exactly when, with
 no later code completed, a signal came while the main loop was between clearing the flag and
 reading the code, and that read has been made, or when a repeat came after everything was read.
 */
module NecDuplicates {
  import opened Bits
  import opened NecDecoder
  import opened NecFrames
  import opened NecHandoff
  import opened NecDelivery

  function At(acts: seq<Action>, n: nat): System
    requires n <= |acts|
  {
    Execute(START, acts[..n])
  }

  /** How many reads a run has made. */
  function Reads(acts: seq<Action>): nat {
    |Execute(START, acts).readAt|
  }

  /** Action `i` completes a code. */
  predicate Completes(acts: seq<Action>, i: nat)
    requires i < |acts|
  {
    acts[i].Interrupt? && Assigns(At(acts, i).d, acts[i].e)
  }

  /** Action `i` signals: it ends a frame or a repeat frame. */
  predicate Signalled(acts: seq<Action>, i: nat)
    requires i < |acts|
  {
    acts[i].Interrupt? && Signals(At(acts, i).d, acts[i].e)
  }

  /** Every completed code has been seen. */
  predicate UpToDate(s: System) {
    Seen(s) == |s.completed|
  }

  /** Action `i` signals, and no code is completed after it. */
  ghost predicate Newest(acts: seq<Action>, i: nat) {
    && i < |acts| && Signalled(acts, i)
    && forall j :: i < j < |acts| ==> !Completes(acts, j)
  }

  /** The signal came just before a read that has been made since. */
  ghost predicate LateAndRead(acts: seq<Action>, i: nat) {
    Newest(acts, i) && At(acts, i).pc == Read && Reads(acts[..i]) < Reads(acts)
  }

  /** The signal is a repeat that came when there was nothing left to read. */
  ghost predicate IdleRepeat(acts: seq<Action>, i: nat) {
    Newest(acts, i) && !Completes(acts, i) && UpToDate(At(acts, i))
  }

  /** Some signal has no code left for it. */
  ghost predicate Surplus(acts: seq<Action>) {
    exists i :: 0 <= i < |acts| && (LateAndRead(acts, i) || IdleRepeat(acts, i))
  }

  /** A signal came just before a read that is still to be made. */
  ghost predicate LateUnread(acts: seq<Action>) {
    exists i :: 0 <= i < |acts| && Newest(acts, i) && At(acts, i).pc == Read && Reads(acts[..i]) == Reads(acts)
  }

  /** A newest signal stays one as long as no code is completed. */
  lemma NewestStays(init: seq<Action>, a: Action, i: nat)
    requires i < |init|
    ensures Newest(init + [a], i) <==> Newest(init, i) && !Completes(init + [a], |init|)
    ensures Completes(init + [a], i) <==> Completes(init, i)
    ensures (init + [a])[..i] == init[..i]
  {
    hide Signals, Assigns;
    var acts := init + [a];
    assert forall j :: 0 <= j <= |init| ==> acts[..j] == init[..j];
    assert forall j :: 0 <= j < |init| ==> acts[j] == init[j];
    assert forall j :: 0 <= j < |init| ==> (Completes(acts, j) <==> Completes(init, j));
  }

  lemma LastAction(init: seq<Action>, a: Action)
    ensures Execute(START, init + [a]) == Act(Execute(START, init), a)
    ensures Completes(init + [a], |init|) <==> a.Interrupt? && Assigns(Execute(START, init).d, a.e)
    ensures Reads(init) <= Reads(init + [a])
  {
    hide Act, Execute, Assigns;
    assert (init + [a])[..|init|] == init;
    ExecuteConcat(START, init, [a]);
    FirstAction(Execute(START, init), a, []);
    ReadsOnlyGrow(Execute(START, init), a);
  }

  lemma ReadsOnlyGrow(s: System, a: Action)
    ensures |s.readAt| <= |Act(s, a).readAt|
    ensures !(a.Main? && s.pc == Read) ==> Act(s, a).readAt == s.readAt
  {
    hide Step, Signals, Assigns;
  }

  lemma {:induction false} ReadsGrow(acts: seq<Action>, n: nat)
    requires n <= |acts|
    ensures Reads(acts[..n]) <= Reads(acts)
  {
    if n < |acts| {
      var init, a := acts[..|acts| - 1], acts[|acts| - 1];
      assert acts == init + [a] && init[..n] == acts[..n];
      LastAction(init, a);
      ReadsGrow(init, n);
    } else {
      assert acts[..n] == acts;
    }
  }

  /** A surplus signal means that everything has been seen, whatever else happens. */
  lemma {:induction false} SurplusIsUpToDate(acts: seq<Action>, i: nat)
    requires i < |acts| && (LateAndRead(acts, i) || IdleRepeat(acts, i))
    ensures UpToDate(Execute(START, acts))
  {
    hide Step, Signals, Assigns;
    var init, a := acts[..|acts| - 1], acts[|acts| - 1];
    assert acts == init + [a] && acts[..|init|] == init;
    LastAction(init, a);
    if i < |init| {
      NewestStays(init, a, i);
      if IdleRepeat(acts, i) || Reads(acts[..i]) < Reads(init) {
        SurplusIsUpToDate(init, i);
      } else {
        ReadsGrow(init, i);
      }
    }
  }

  /** What the program owes the main loop at each point of a run. */
  ghost predicate Accounted(acts: seq<Action>) {
    var s := Execute(START, acts);
    && (s.pc == Read && s.d.ready ==> LateUnread(acts))
    && (UpToDate(s) && (s.d.ready || s.pc in {Clear, Read}) ==> Surplus(acts))
  }

  lemma AccountedInterrupt(init: seq<Action>, e: Edge)
    requires Accounted(init)
    ensures Accounted(init + [Interrupt(e)])
  {
    hide Step, Signals, Assigns, LateUnread, Surplus;
    var a, n := Interrupt(e), |init|;
    var acts, s := init + [a], Execute(START, init);
    assert acts[..n] == init && acts[n] == a;
    LastAction(init, a);
    SeenIsCounted(init);
    FlagIsKept(s.d, e);
    CompletionSignals(init, e);
    if Signals(s.d, e) {
      NewSignal(init, e);
    } else {
      Carry(init, a);
    }
  }

  /** A completion signals. */
  lemma CompletionSignals(init: seq<Action>, e: Edge)
    ensures Assigns(Execute(START, init).d, e) ==> Signals(Execute(START, init).d, e)
  {
    AlwaysInvariant(init);
    OnlyCompleteFramesAssign(Execute(START, init).d, e);
  }

  /** A signal that arrives is the newest one. */
  lemma NewSignal(init: seq<Action>, e: Edge)
    requires Signals(Execute(START, init).d, e)
    ensures var acts := init + [Interrupt(e)];
            && (Execute(START, init).pc == Read ==> LateUnread(acts))
            && (!Assigns(Execute(START, init).d, e) && UpToDate(Execute(START, init)) ==> Surplus(acts))
  {
    hide Step, Signals, Assigns;
    var a, n := Interrupt(e), |init|;
    var acts := init + [a];
    assert acts[..n] == init && acts[n] == a;
    LastAction(init, a);
    assert Newest(acts, n);
    if Execute(START, init).pc == Read {
      assert Reads(acts[..n]) == Reads(acts);
    }
    if !Assigns(Execute(START, init).d, e) && UpToDate(Execute(START, init)) {
      assert IdleRepeat(acts, n);
    }
  }

  /** An action that neither completes nor reads leaves the newest signal as it is. */
  lemma Carry(init: seq<Action>, a: Action)
    requires !Completes(init + [a], |init|) && Reads(init + [a]) == Reads(init)
    ensures LateUnread(init) ==> LateUnread(init + [a])
    ensures Surplus(init) ==> Surplus(init + [a])
  {
    hide Newest, Completes, Reads;
    var acts := init + [a];
    if LateUnread(init) {
      var i :| 0 <= i < |init| && Newest(init, i) && At(init, i).pc == Read && Reads(init[..i]) == Reads(init);
      NewestStays(init, a, i);
      assert Newest(acts, i);
    }
    if Surplus(init) {
      var i :| 0 <= i < |init| && (LateAndRead(init, i) || IdleRepeat(init, i));
      NewestStays(init, a, i);
      assert LateAndRead(acts, i) || IdleRepeat(acts, i);
    }
  }

  lemma CarryRead(init: seq<Action>)
    requires Execute(START, init).pc == Read && LateUnread(init)
    ensures Surplus(init + [Main])
  {
    hide Newest, Completes;
    LastAction(init, Main);
    var i :| 0 <= i < |init| && Newest(init, i) && At(init, i).pc == Read && Reads(init[..i]) == Reads(init);
    NewestStays(init, Main, i);
    assert LateAndRead(init + [Main], i);
  }

  lemma AccountedOther(init: seq<Action>, a: Action)
    requires !a.Interrupt? && Accounted(init)
    ensures Accounted(init + [a])
  {
    hide LateUnread, Surplus;
    var s := Execute(START, init);
    LastAction(init, a);
    AlwaysInvariant(init);
    if a.Main? && s.pc == Read {
      if s.d.ready {
        CarryRead(init);
      }
    } else {
      Carry(init, a);
    }
  }

  lemma {:induction false} AlwaysAccounted(acts: seq<Action>)
    ensures Accounted(acts)
  {
    if acts != [] {
      hide Accounted;
      var init, a := acts[..|acts| - 1], acts[|acts| - 1];
      assert acts == init + [a];
      AlwaysAccounted(init);
      if a.Interrupt? {
        AccountedInterrupt(init, a.e);
      } else {
        AccountedOther(init, a);
      }
    }
  }

  /**
   In every run, a read is about to return a code that was read before if and only if there is a
   signal, with no code completed after it, that either came between a clear and its read and has
   been read since, or is a repeat that came when there was nothing left to read.
   */
  lemma DuplicateExactly(acts: seq<Action>)
    requires Execute(START, acts).pc == Read
    ensures UpToDate(Execute(START, acts)) <==> Surplus(acts)
  {
    AlwaysAccounted(acts);
    if Surplus(acts) {
      var i :| 0 <= i < |acts| && (LateAndRead(acts, i) || IdleRepeat(acts, i));
      SurplusIsUpToDate(acts, i);
    }
  }

  function SeenBefore(readAt: seq<nat>, k: nat): nat
    requires k <= |readAt|
  {
    if k == 0 then 0 else readAt[k - 1]
  }

  /** Each read returned a code that was completed after the reads before it. */
  predicate AllNew(readAt: seq<nat>) {
    forall k {:trigger SeenBefore(readAt, k)} :: 0 <= k < |readAt| ==> SeenBefore(readAt, k) < readAt[k]
  }

  /** Somewhere in the run a surplus signal is read. */
  ghost predicate ReadsSurplus(acts: seq<Action>) {
    exists n :: 0 <= n < |acts| && acts[n].Main? && At(acts, n).pc == Read && Surplus(acts[..n])
  }

  lemma ReadsSurplusStep(init: seq<Action>, a: Action)
    ensures ReadsSurplus(init + [a])
       <==> ReadsSurplus(init) || (a.Main? && Execute(START, init).pc == Read && Surplus(init))
  {
    hide Surplus, Execute;
    var acts := init + [a];
    assert acts[..|init|] == init && acts[|init|] == a;
    assert forall n :: 0 <= n < |init| ==> acts[..n] == init[..n] && acts[n] == init[n];
    if ReadsSurplus(init) {
      var n :| 0 <= n < |init| && init[n].Main? && At(init, n).pc == Read && Surplus(init[..n]);
      assert acts[n].Main? && At(acts, n).pc == Read && Surplus(acts[..n]);
    }
  }

  /** Over every run, all reads return new codes if and only if none is made for a surplus signal. */
  lemma {:induction false} ReadsNewExactly(acts: seq<Action>)
    ensures AllNew(Execute(START, acts).readAt) <==> !ReadsSurplus(acts)
  {
    if acts != [] {
      hide ReadsSurplus, Execute, AllNew;
      var init := acts[..|acts| - 1];
      assert acts == init + [acts[|acts| - 1]];
      ReadsNewExactly(init);
      ReadsNewStep(init, acts[|acts| - 1]);
    }
  }

  lemma ReadsNewStep(init: seq<Action>, a: Action)
    requires AllNew(Execute(START, init).readAt) <==> !ReadsSurplus(init)
    ensures AllNew(Execute(START, init + [a]).readAt) <==> !ReadsSurplus(init + [a])
  {
    hide Surplus, ReadsSurplus, Execute, Act, AllNew, Completes;
    ReadsSurplusStep(init, a);
    LastAction(init, a);
    var s := Execute(START, init);
    if a.Main? && s.pc == Read {
      DuplicateExactly(init);
      SeenIsCounted(init);
      ReadAppends(s);
    } else {
      ReadsOnlyGrow(s, a);
    }
  }

  lemma ReadAppends(s: System)
    requires s.pc == Read && Seen(s) <= |s.completed|
    ensures AllNew(Act(s, Main).readAt) <==> AllNew(s.readAt) && !UpToDate(s)
  {
    hide Step, Signals, Assigns, AllNew;
    assert Act(s, Main).readAt == s.readAt + [|s.completed|];
    AllNewSnoc(s.readAt, |s.completed|);
  }

  lemma AllNewSnoc(r: seq<nat>, v: nat)
    ensures AllNew(r + [v]) <==> AllNew(r) && SeenBefore(r, |r|) < v
  {
    var t := r + [v];
    if AllNew(t) {
      forall k | 0 <= k < |r|
        ensures SeenBefore(r, k) < r[k]
      {
        assert SeenBefore(t, k) < t[k];
      }
      assert SeenBefore(t, |r|) < t[|r|];
    }
    if AllNew(r) && SeenBefore(r, |r|) < v {
      forall k | 0 <= k < |t|
        ensures SeenBefore(t, k) < t[k]
      {
        assert k < |r| ==> SeenBefore(r, k) < r[k];
      }
    }
  }

  lemma SeenIsCounted(acts: seq<Action>)
    ensures Seen(Execute(START, acts)) <= |Execute(START, acts).completed|
  {
    AlwaysInvariant(acts);
  }

  lemma PrefixCompletes(acts: seq<Action>, n: nat, i: nat)
    requires i < n <= |acts|
    ensures Completes(acts[..n], i) <==> Completes(acts, i)
    ensures Signalled(acts[..n], i) <==> Signalled(acts, i)
    ensures At(acts[..n], i) == At(acts, i)
  {
    assert acts[..n][..i] == acts[..i];
  }

  /**
   A run in which nothing signals between a clear and its read, and no repeat comes when all is
   read, returns every code at most once.
   */
  lemma OnceEach(acts: seq<Action>)
    requires forall i :: 0 <= i < |acts| && Signalled(acts, i) ==>
               At(acts, i).pc != Read && (Completes(acts, i) || !UpToDate(At(acts, i)))
    ensures AllNew(Execute(START, acts).readAt)
  {
    hide Execute, AllNew, Completes, Signalled, UpToDate;
    if ReadsSurplus(acts) {
      var n :| 0 <= n < |acts| && acts[n].Main? && At(acts, n).pc == Read && Surplus(acts[..n]);
      var i :| 0 <= i < |acts[..n]| && (LateAndRead(acts[..n], i) || IdleRepeat(acts[..n], i));
      PrefixCompletes(acts, n, i);
    }
    ReadsNewExactly(acts);
  }

  /**
   From any reachable point between a clear and its read, an edge that signals, be it a frame or
   a repeat, makes the main loop return the same code twice.
   */
  lemma DeliveredTwice(acts: seq<Action>, e: Edge)
    requires Execute(START, acts).pc == Read && Signals(Execute(START, acts).d, e)
    ensures var s := Execute(START, acts);
            var t := Execute(START, acts + [Interrupt(e), Main, Main, Tick, Main, Main, Main]);
            && t.returned == Step(s.d, e).last
            && t.readAt == s.readAt + [|t.completed|, |t.completed|]
            && |t.completed| == |s.completed| + if Assigns(s.d, e) then 1 else 0
  {
    hide Step, Signals, Assigns, Execute;
    var s := Execute(START, acts);
    FlagIsKept(s.d, e);
    ExecuteConcat(START, acts, [Interrupt(e), Main, Main, Tick, Main, Main, Main]);
    SevenActions(s, Interrupt(e), Main, Main, Tick, Main, Main, Main);
  }

  // ---------- a run that shows it ----------

  function Interrupts(es: seq<Edge>): (acts: seq<Action>)
    ensures |acts| == |es|
  {
    seq(|es|, i requires 0 <= i < |es| => Interrupt(es[i]))
  }

  lemma InterruptsSnoc(es: seq<Edge>, n: nat)
    requires n < |es|
    ensures Interrupts(es[..n + 1]) == Interrupts(es[..n]) + [Interrupt(es[n])]
  {
  }

  /** The edges of a frame but the last, while the main loop makes no step. */
  lemma {:induction false} PartOfFrame(s: System, f: seq<Edge>, j: nat)
    requires 1 <= j <= 66 && j <= |f| && FitsUpTo(f, j) && Opens(s.d, f[0]) && Bounded(s.d)
    ensures var t := Execute(s, Interrupts(f[..j]));
            && t.d == Run(s.d, f[..j]) && Following(s.d, f, j, t.d)
            && t == s.(d := t.d, pc := Wake(s.pc), events := t.events)
  {
    hide Step, Spell, Signals, Assigns, Following, FitsUpTo;
    FrameProgress(s.d, f, j);
    InterruptsSnoc(f, j - 1);
    RunSnoc(s.d, f, j - 1);
    var before := Execute(s, Interrupts(f[..j - 1]));
    FirstAction(s, Interrupt(f[j - 1]), []);
    ExecuteConcat(s, Interrupts(f[..j - 1]), [Interrupt(f[j - 1])]);
    FirstAction(before, Interrupt(f[j - 1]), []);
    if j == 1 {
      assert f[..0] == [] && Interrupts(f[..0]) == [];
      OpeningDoesNotAssign(s.d, f[0]);
    } else {
      assert FitsUpTo(f, j - 1) by { FitsLess(f, j); }
      PartOfFrame(s, f, j - 1);
      EarlyDoesNotAssign(s.d, f, j - 1, before.d);
    }
  }

  lemma FitsLess(f: seq<Edge>, j: nat)
    requires 1 <= j <= |f| && FitsUpTo(f, j)
    ensures FitsUpTo(f, j - 1)
  {
  }

  lemma OpeningDoesNotAssign(d: Decoder, e: Edge)
    requires Opens(d, e) && Bounded(d)
    ensures !Assigns(d, e)
  {
    OnlyCompleteFramesAssign(d, e);
  }

  lemma EarlyDoesNotAssign(d: Decoder, f: seq<Edge>, j: nat, r: Decoder)
    requires j < 66 && j < |f| && Following(d, f, j, r)
    ensures !Assigns(r, f[j])
  {
    OnlyCompleteFramesAssign(r, f[j]);
  }

  /** A whole frame, while the main loop makes no step. */
  lemma WholeFrame(s: System, f: seq<Edge>)
    requires |f| == FRAME_EDGES && FitsUpTo(f, FRAME_EDGES) && Opens(s.d, f[0]) && Bounded(s.d)
    ensures var t := Execute(s, Interrupts(f));
            t == s.(d := Decoder(Idle, CodeOf(f), 32, true, CodeOf(f)), pc := Wake(s.pc),
                    completed := s.completed + [CodeOf(f)], events := t.events)
  {
    hide Step, Spell, Signals, Assigns, Following, CodeOf;
    assert FitsUpTo(f, 66);
    PartOfFrame(s, f, 66);
    var t := Execute(s, Interrupts(f[..66]));
    InterruptsSnoc(f, 66);
    assert f[..67] == f;
    ExecuteConcat(s, Interrupts(f[..66]), [Interrupt(f[66])]);
    FirstAction(t, Interrupt(f[66]), []);
    LastBit(s.d, f, t.d);
    LastAssigns(s.d, f, t.d);
  }

  lemma LastAssigns(d: Decoder, f: seq<Edge>, r: Decoder)
    requires |f| == FRAME_EDGES && Fits(66, f[66]) && Following(d, f, 66, r)
    ensures Assigns(r, f[66])
  {
    OnlyCompleteFramesAssign(r, f[66]);
  }

  /**
   The run: asleep when the first frame arrives, the main loop polls and clears the flag; the
   second frame arrives before it reads; it reads, sleeps, and after a tick reads again.
   */
  function BackToBack(f: seq<Edge>, stop: Edge, g: seq<Edge>): seq<Action> {
    [Main] + Interrupts(f) + [Main, Main, Interrupt(stop)] + Interrupts(g) + [Main, Main, Tick, Main, Main, Main]
  }

  /**
   For every two frames one after the other, with the first one's stop edge between them: the
   run returns the second code twice and the first one never.
   */
  lemma BackToBackReadsTwice(f: seq<Edge>, stop: Edge, g: seq<Edge>)
    requires |f| == |g| == FRAME_EDGES && FitsUpTo(f, FRAME_EDGES) && FitsUpTo(g, FRAME_EDGES)
    requires stop.rise && !stop.fall
    ensures var t := Execute(START, BackToBack(f, stop, g));
            t.completed == [CodeOf(f), CodeOf(g)] && t.readAt == [2, 2] && t.returned == CodeOf(g)
  {
    hide Execute, CodeOf, FitsUpTo;
    var a, b := [Main] + Interrupts(f), [Main, Main, Interrupt(stop)];
    var c, z := Interrupts(g), [Main, Main, Tick, Main, Main, Main];
    assert Fits(0, f[0]) && Fits(0, g[0]) by { FirstFits(f); FirstFits(g); }
    ExecuteConcat(START, a + b + c, z);
    ExecuteConcat(START, a + b, c);
    ExecuteConcat(START, a, b);
    FirstAction(START, Main, Interrupts(f));
    WholeFrame(Act(START, Main), f);
    var s := Execute(START, a);
    ThreeActions(s, Main, Main, Interrupt(stop));
    IdleIgnoresRise(Act(Act(s, Main), Main).d, stop);
    var u := Execute(s, b);
    WholeFrame(u, g);
    var v := Execute(u, c);
    SixActions(v, Main, Main, Tick, Main, Main, Main);
  }

  lemma FirstFits(f: seq<Edge>)
    requires f != [] && FitsUpTo(f, |f|)
    ensures Fits(0, f[0])
  {
  }

  lemma IdleIgnoresRise(d: Decoder, e: Edge)
    requires d.state == Idle && !e.fall
    ensures Step(d, e) == d && !Assigns(d, e)
  {
  }

  /** A frame with nominal timing whose 32 bits are all `b`. */
  function Uniform(b: nat): seq<Edge> {
    seq(FRAME_EDGES, i => Edge(i % 2 == 1, i % 2 == 0,
      if i == 0 then 40000 else if i == 1 then 9000 else if i == 2 then 4500
      else if i % 2 == 1 || b == 0 then 560 else 1690))
  }

  /** One such run, on an alternating signal with nominal timing: not every code is delivered once. */
  lemma DuplicateExists()
    ensures var stop := Edge(true, false, 560);
            var acts := BackToBack(Uniform(0), stop, Uniform(1));
            !AllNew(Execute(START, acts).readAt) && Alternating(Uniform(0) + [stop] + Uniform(1))
  {
    hide BackToBack, Execute, CodeOf;
    var stop := Edge(true, false, 560);
    BackToBackReadsTwice(Uniform(0), stop, Uniform(1));
    var r := Execute(START, BackToBack(Uniform(0), stop, Uniform(1))).readAt;
    assert SeenBefore(r, 1) == r[1];
  }
}
