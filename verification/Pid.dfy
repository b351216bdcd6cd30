/**
 The Q15 PID controller `arm_pid_q15`, in the form the Cortex-M0+ build selects.

 `PidQ15` updates its state array in place and is proved against `Output`; the runs of the
 controller are then related to the positional PID law.
 */
module Pid {
  import opened Arithmetic
  import opened Bits
  import opened Saturation

  const ONE: int := 0x8000

  datatype Gains = Gains(a0: int16, a1: int16, a2: int16)

  /** The weighted inputs `A0*x[n] + A1*x[n-1] + A2*x[n-2]`. */
  function Weighted(g: Gains, x: int16, x1: int16, x2: int16): int {
    g.a0 as int * x + g.a1 as int * x1 + g.a2 as int * x2
  }

  /** The next output before saturation. */
  function Raw(g: Gains, x: int16, x1: int16, x2: int16, y1: int16): int {
    y1 + Weighted(g, x, x1, x2) / ONE
  }

  function Output(g: Gains, x: int16, x1: int16, x2: int16, y1: int16): int16 {
    Clamp(-0x8000, 0x7FFF, Raw(g, x, x1, x2, y1))
  }

  lemma ProductBound(a: int16, b: int16)
    ensures -0x4000_0000 <= a as int * b <= 0x4000_0000
  {
    MagnitudeBound(a, b, 0x8000, 0x8000);
  }

  /** The accumulator's high part, and its passage to the 32-bit saturation. */
  lemma HighPart(w: int, y1: int16)
    requires -0xC000_0000 <= w <= 0xC000_0000
    ensures (w + y1 as int * ONE) / ONE == y1 + w / ONE
    ensures ToInt32(y1 + w / ONE) == y1 + w / ONE
  {
  }

  lemma Saturated16(x: int32)
    ensures Saturate(x, 16) == Clamp(-0x8000, 0x7FFF, x) == ToInt16(Saturate(x, 16))
  {
    Pow2Values();
  }

  /** The state array: the last two inputs and the last output. */
  datatype State = State(x1: int16, x2: int16, y1: int16)

  /** One sample, on the state. */
  function Next(g: Gains, s: State, x: int16): State {
    State(x, s.x1, Output(g, x, s.x1, s.x2, s.y1))
  }

  class PidQ15 {
    var gains: Gains
    const state: array<int16>

    ghost predicate Valid()
      reads this
    {
      state.Length == 3
    }

    function View(): State
      reads this, state
      requires Valid()
    {
      State(state[0], state[1], state[2])
    }

    constructor (g: Gains)
      ensures Valid() && fresh(state) && gains == g && View() == State(0, 0, 0)
    {
      gains := g;
      state := new int16[3](i => 0);
    }

    /**
     One sample: the output is the 16-bit value nearest to the difference equation's. The products
     fit 32 bits, the accumulator stays far inside 64 bits, and nothing is lost in passing its high
     part to the 32-bit saturation.
     */
    method Process(x: int16) returns (out: int16)
      requires Valid()
      modifies state
      ensures var r := old(state[2]) + (gains.a0 as int * x + gains.a1 as int * old(state[0])
                                        + gains.a2 as int * old(state[1])) / 0x8000;
              && (r > 0x7FFF ==> out == 0x7FFF)
              && (r < -0x8000 ==> out == -0x8000)
              && (-0x8000 <= r <= 0x7FFF ==> out == r)
      ensures state[..] == [x, old(state[0]), out]
      ensures View() == Next(gains, old(View()), x)
    {
      hide Pow2, Saturate, ToInt32, ToInt16;
      var x1, x2, y1 := state[0], state[1], state[2];
      ProductBound(gains.a0, x);
      ProductBound(gains.a1, x1);
      ProductBound(gains.a2, x2);
      var p0: int32 := gains.a0 as int * x;
      var p1: int32 := gains.a1 as int * x1;
      var p2: int32 := gains.a2 as int * x2;
      var acc: int64 := p0;
      acc := acc + p1;
      acc := acc + p2;
      acc := acc + y1 as int * ONE;
      HighPart(Weighted(gains, x, x1, x2), y1);
      var high := ToInt32(acc / ONE);
      var sat := Ssat(high, 16);
      Saturated16(high);
      out := ToInt16(sat);
      state[1] := state[0];
      state[0] := x;
      state[2] := out;
    }
  }

  // ---------- runs ----------

  /** The `k`-th latest input of a run, 0 before the start. */
  function Past(xs: seq<int16>, k: nat): int16
    requires k > 0
  {
    if k <= |xs| then xs[|xs| - k] else 0
  }

  /** The output after the inputs `xs`, by the difference equation with saturation. */
  function Y(g: Gains, xs: seq<int16>): int16 {
    if xs == [] then 0
    else Output(g, Past(xs, 1), Past(xs, 2), Past(xs, 3), Y(g, xs[..|xs| - 1]))
  }

  function Run(g: Gains, xs: seq<int16>): State {
    if xs == [] then State(0, 0, 0) else Next(g, Run(g, xs[..|xs| - 1]), xs[|xs| - 1])
  }

  /** Over every run from reset, the state is the last two inputs and the last output. */
  lemma {:induction false} RunIsHistory(g: Gains, xs: seq<int16>)
    ensures Run(g, xs) == State(Past(xs, 1), Past(xs, 2), Y(g, xs))
  {
    if xs != [] {
      RunIsHistory(g, xs[..|xs| - 1]);
      hide Output;
    }
  }

  /**
   Over every run from reset, saturating or not: each output is the 16-bit value nearest to the
   last output plus the weighted last three inputs.
   */
  lemma OutputIsNearest(g: Gains, xs: seq<int16>)
    requires xs != []
    ensures var n := |xs|;
            var x, x1, x2 := xs[n - 1], if n >= 2 then xs[n - 2] else 0, if n >= 3 then xs[n - 3] else 0;
            var r := Y(g, xs[..n - 1]) + (g.a0 as int * x + g.a1 as int * x1 + g.a2 as int * x2) / 0x8000;
            && (r > 0x7FFF ==> Y(g, xs) == 0x7FFF)
            && (r < -0x8000 ==> Y(g, xs) == -0x8000)
            && (-0x8000 <= r <= 0x7FFF ==> Y(g, xs) == r)
    ensures Y(g, []) == 0
  {
  }

  /** The controller fed with a sequence of samples: its outputs are those of the difference equation. */
  method ProcessAll(pid: PidQ15, xs: seq<int16>) returns (ys: seq<int16>)
    requires pid.Valid() && pid.View() == State(0, 0, 0)
    modifies pid.state
    ensures |ys| == |xs| && forall i :: 0 <= i < |xs| ==> ys[i] == Y(pid.gains, xs[..i + 1])
    ensures pid.View() == Run(pid.gains, xs)
  {
    hide Output;
    ys := [];
    for i := 0 to |xs|
      invariant |ys| == i && forall k :: 0 <= k < i ==> ys[k] == Y(pid.gains, xs[..k + 1])
      invariant pid.View() == Run(pid.gains, xs[..i])
    {
      assert xs[..i + 1][..i] == xs[..i];
      RunIsHistory(pid.gains, xs[..i + 1]);
      var y := pid.Process(xs[i]);
      ys := ys + [y];
    }
    assert xs[..|xs|] == xs;
  }

  // ---------- the positional law ----------

  function Sum(xs: seq<int16>): int {
    if xs == [] then 0 else Sum(xs[..|xs| - 1]) + xs[|xs| - 1]
  }

  /** `Kp*x[n] + Ki*sum(x) + Kd*(x[n] - x[n-1])`, in units of 2^-15. */
  function Positional(kp: int, ki: int, kd: int, xs: seq<int16>): int {
    kp * Past(xs, 1) + ki * Sum(xs) + kd * (Past(xs, 1) - Past(xs, 2))
  }

  /** No step of the run saturates. */
  predicate Unsaturated(g: Gains, xs: seq<int16>) {
    xs == [] ||
    (&& Unsaturated(g, xs[..|xs| - 1])
     && -0x8000 <= Raw(g, Past(xs, 1), Past(xs, 2), Past(xs, 3), Y(g, xs[..|xs| - 1])) <= 0x7FFF)
  }

  predicate Derived(g: Gains, kp: int, ki: int, kd: int) {
    g.a0 == kp + ki + kd && g.a1 == -kp - 2 * kd && g.a2 == kd
  }

  /** What one more sample adds to the positional law is what the derived gains weigh. */
  lemma PositionalGrows(g: Gains, kp: int, ki: int, kd: int, xs: seq<int16>)
    requires Derived(g, kp, ki, kd) && xs != []
    ensures Positional(kp, ki, kd, xs)
         == Positional(kp, ki, kd, xs[..|xs| - 1]) + Weighted(g, Past(xs, 1), Past(xs, 2), Past(xs, 3))
  {
    var x, x1, x2, s: int := Past(xs, 1), Past(xs, 2), Past(xs, 3), Sum(xs[..|xs| - 1]);
    assert Past(xs[..|xs| - 1], 1) == x1 && Past(xs[..|xs| - 1], 2) == x2;
    Telescope(kp, ki, kd, x, x1, x2, s);
  }

  lemma Telescope(kp: int, ki: int, kd: int, x: int, x1: int, x2: int, s: int)
    ensures kp * x + ki * (s + x) + kd * (x - x1)
         == kp * x1 + ki * s + kd * (x1 - x2) + ((kp + ki + kd) * x + (-kp - 2 * kd) * x1 + kd * x2)
  {
  }

  /**
   The incremental controller obeys the positional PID law: on every run without saturation the
   output is the law's value, rounded down by less than one unit per sample.
   */
  lemma {:induction false} ObeysPositionalLaw(g: Gains, kp: int, ki: int, kd: int, xs: seq<int16>)
    requires Derived(g, kp, ki, kd) && Unsaturated(g, xs)
    ensures 0 <= Positional(kp, ki, kd, xs) - ONE * Y(g, xs) <= (ONE - 1) * |xs|
  {
    if xs != [] {
      hide Positional, Weighted;
      ObeysPositionalLaw(g, kp, ki, kd, xs[..|xs| - 1]);
      PositionalGrows(g, kp, ki, kd, xs);
    } else {
      assert Positional(kp, ki, kd, xs) == 0;
    }
  }
}
