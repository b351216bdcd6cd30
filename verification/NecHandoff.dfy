/**
 The hand-off between the interrupt and the main loop, which share `s_code_rdy` and
 `s_last_code` without a lock. The main loop's poll, the clearing of the flag and the read of
 the code are three separate steps, and interrupts may run between any two of them.
 */
module NecHandoff {
  import opened Bits
  import opened NecDecoder

  /**
   Where the main loop is: about to execute `__WFI`, asleep in it, about to poll, about to clear
   the flag, or about to read the code.
   */
  datatype Pc = Doze | Asleep | Poll | Clear | Read

  /** An edge interrupt, another interrupt such as SysTick, or a step of the main loop. */
  datatype Action = Interrupt(e: Edge) | Tick | Main

  /**
   The shared variables, the main loop's position and the code it read last, with the history
   of completed codes, the number of ready events, and for each read how many codes had been
   completed when it happened.
   */
  datatype System = System(
    d: Decoder, pc: Pc, returned: uint32,
    completed: seq<uint32>, events: nat, readAt: seq<nat>)

  const START := System(RESET, Doze, 0, [], 0, [])

  /** An interrupt ends the sleep; one that comes just before `__WFI` does not prevent it. */
  function Wake(pc: Pc): Pc {
    if pc.Asleep? then Poll else pc
  }

  function Act(s: System, a: Action): System {
    match a
    case Interrupt(e) =>
      var d := Step(s.d, e);
      s.(d := d,
         pc := Wake(s.pc),
         completed := if Assigns(s.d, e) then s.completed + [d.last] else s.completed,
         events := if Signals(s.d, e) then s.events + 1 else s.events)
    case Tick => s.(pc := Wake(s.pc))
    case Main =>
      match s.pc
      case Doze => s.(pc := Asleep)
      case Asleep => s
      case Poll => s.(pc := if s.d.ready then Clear else Doze)
      case Clear => s.(d := s.d.(ready := false), pc := Read)
      case Read => s.(pc := Doze, returned := s.d.last, readAt := s.readAt + [|s.completed|])
  }

  function Execute(s: System, acts: seq<Action>): System {
    if acts == [] then s else Act(Execute(s, acts[..|acts| - 1]), acts[|acts| - 1])
  }

  /** The last code completed, 0 before the first. */
  function Latest(completed: seq<uint32>, n: nat): uint32
    requires n <= |completed|
  {
    if n == 0 then 0 else completed[n - 1]
  }

  /** How many completed codes the main loop has seen up to its last read. */
  function Seen(s: System): nat {
    if s.readAt == [] then 0 else s.readAt[|s.readAt| - 1]
  }

  ghost predicate Invariant(s: System) {
    && Bounded(s.d)
    && s.d.last == Latest(s.completed, |s.completed|)
    // reads happen in order, and each returned the newest code of its moment
    && (forall i :: 0 <= i < |s.readAt| ==> s.readAt[i] <= |s.completed|)
    && (forall i, j :: 0 <= i < j < |s.readAt| ==> s.readAt[i] <= s.readAt[j])
    && s.returned == Latest(s.completed, Seen(s))
    // nothing is outstanding unless the flag or the program counter says so
    && (s.pc == Clear ==> s.d.ready)
    && (!s.d.ready && s.pc != Read ==> Seen(s) == |s.completed|)
    // every successful poll consumed a ready event of its own
    && |s.readAt| + (if s.pc in {Clear, Read} then 1 else 0) + (if s.d.ready && s.pc != Clear then 1 else 0) <= s.events
  }

  lemma InterruptKeepsInvariant(s: System, e: Edge)
    requires Invariant(s)
    ensures Invariant(Act(s, Interrupt(e)))
  {
    hide Bitwise, Shl, Pow2, Step, Bounded;
    var t := Act(s, Interrupt(e));
    StepKeepsBound(s.d, e);
    OnlyCompleteFramesAssign(s.d, e);
    FlagIsKept(s.d, e);
    assert t.completed == s.completed || t.completed == s.completed + [t.d.last];
    assert forall n :: 0 <= n <= |s.completed| ==> Latest(t.completed, n) == Latest(s.completed, n);
  }

  /** An interrupt raises the flag or leaves it. */
  lemma FlagIsKept(d: Decoder, e: Edge)
    ensures Step(d, e).ready == (d.ready || Signals(d, e))
  {
    hide Bitwise, Shl, Pow2;
  }

  lemma MainKeepsInvariant(s: System)
    requires Invariant(s)
    ensures Invariant(Act(s, Main))
  {
    hide Pow2;
  }

  lemma {:induction false} AlwaysInvariant(acts: seq<Action>)
    ensures Invariant(Execute(START, acts))
  {
    if acts != [] {
      var s, a := Execute(START, acts[..|acts| - 1]), acts[|acts| - 1];
      AlwaysInvariant(acts[..|acts| - 1]);
      match a
      case Interrupt(e) => InterruptKeepsInvariant(s, e);
      case Tick =>
      case Main => MainKeepsInvariant(s);
    }
  }

  /**
   No code is lost for want of a signal: over every interleaving, when the flag is down and the
   main loop is not between the clear and the read, the code it returned last is the newest one,
   and every completed code was either read or overwritten by a newer one that was.
   */
  lemma NothingIsLost(acts: seq<Action>)
    ensures var s := Execute(START, acts);
            !s.d.ready && s.pc != Read ==> s.returned == s.d.last && Seen(s) == |s.completed|
  {
    AlwaysInvariant(acts);
  }

  /** Reads never outnumber the ready events. */
  lemma ReadsAreSignalled(acts: seq<Action>)
    ensures var s := Execute(START, acts); |s.readAt| <= s.events
  {
    AlwaysInvariant(acts);
  }

  /**
   From any point of any run, seven steps without an edge catch up: three that may take the main
   loop to sleep, one interrupt to wake it, and three that poll, clear and read.
   */
  lemma CatchesUp(acts: seq<Action>)
    ensures var s := Execute(START, acts + [Main, Main, Main, Tick, Main, Main, Main]);
            && s.returned == s.d.last == Execute(START, acts).d.last
            && Seen(s) == |s.completed| == |Execute(START, acts).completed|
  {
    hide Execute, Act, Bounded;
    AlwaysInvariant(acts);
    ExecuteConcat(START, acts, [Main, Main, Main, Tick, Main, Main, Main]);
    SevenActions(Execute(START, acts), Main, Main, Main, Tick, Main, Main, Main);
    SevenCatchUp(Execute(START, acts));
  }

  /**
   But after a poll that finds the flag down, the main loop alone goes to sleep and gets nowhere: a
   code that arrives between the poll and `__WFI` is not returned until another interrupt comes.
   */
  lemma {:induction false} WaitsForInterrupt(acts: seq<Action>, n: nat)
    requires var s := Execute(START, acts); s.pc in {Doze, Asleep} || (s.pc == Poll && !s.d.ready)
    ensures var s, t := Execute(START, acts), Execute(START, acts + seq(n, _ => Main));
            && t == s.(pc := t.pc)
            && (n == 0 ==> t.pc == s.pc) && (n == 1 ==> t.pc in {Doze, Asleep}) && (n >= 2 ==> t.pc == Asleep)
  {
    hide Execute;
    if n == 0 {
      assert acts + seq(n, _ => Main) == acts;
    } else {
      var before := acts + seq(n - 1, _ => Main);
      WaitsForInterrupt(acts, n - 1);
      assert acts + seq(n, _ => Main) == before + [Main];
      ExecuteConcat(START, before, [Main]);
      FirstAction(Execute(START, before), Main, []);
    }
  }

  lemma SevenCatchUp(s: System)
    requires !s.d.ready && s.pc != Read ==> s.returned == s.d.last && Seen(s) == |s.completed|
    requires s.pc == Clear ==> s.d.ready
    ensures var t := Act(Act(Act(Act(Act(Act(Act(s, Main), Main), Main), Tick), Main), Main), Main);
            t.returned == t.d.last == s.d.last && t.completed == s.completed && Seen(t) == |s.completed|
  {
    hide Step, Signals, Assigns;
    match s.pc
    case Doze =>
    case Asleep =>
    case Poll =>
    case Clear =>
    case Read =>
  }

  lemma {:induction false} ExecuteConcat(s: System, a: seq<Action>, b: seq<Action>)
    ensures Execute(s, a + b) == Execute(Execute(s, a), b)
  {
    if b == [] {
      assert a + b == a;
    } else {
      assert (a + b)[..|a + b| - 1] == a + b[..|b| - 1];
      ExecuteConcat(s, a, b[..|b| - 1]);
    }
  }

  lemma SevenActions(s: System, a: Action, b: Action, c: Action, d: Action, e: Action, f: Action, g: Action)
    ensures Execute(s, [a, b, c, d, e, f, g]) == Act(Act(Act(Act(Act(Act(Act(s, a), b), c), d), e), f), g)
  {
    hide Act, Execute;
    FirstAction(s, a, [b, c, d, e, f, g]);
    assert [a] + [b, c, d, e, f, g] == [a, b, c, d, e, f, g];
    SixActions(Act(s, a), b, c, d, e, f, g);
  }

  lemma SixActions(s: System, b: Action, c: Action, d: Action, e: Action, f: Action, g: Action)
    ensures Execute(s, [b, c, d, e, f, g]) == Act(Act(Act(Act(Act(Act(s, b), c), d), e), f), g)
  {
    hide Act, Execute;
    ExecuteConcat(s, [b, c, d], [e, f, g]);
    assert [b, c, d] + [e, f, g] == [b, c, d, e, f, g];
    ThreeActions(s, b, c, d);
    ThreeActions(Execute(s, [b, c, d]), e, f, g);
  }

  lemma ThreeActions(s: System, a: Action, b: Action, c: Action)
    ensures Execute(s, [a, b, c]) == Act(Act(Act(s, a), b), c)
  {
    hide Act, Execute;
    FirstAction(s, a, [b, c]);
    assert [a] + [b, c] == [a, b, c];
    FirstAction(Act(s, a), b, [c]);
    assert [b] + [c] == [b, c];
    FirstAction(Act(Act(s, a), b), c, []);
  }

  lemma FirstAction(s: System, a: Action, rest: seq<Action>)
    ensures Execute(s, [a] + rest) == Execute(Act(s, a), rest)
    ensures Execute(s, []) == s
    ensures Execute(s, [a]) == Act(s, a)
  {
    ExecuteConcat(s, [a], rest);
    assert [a][..0] == [];
  }
}
