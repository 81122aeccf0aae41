/**
 The Q15 PID controller, arm_pid_q15 (CMSIS/arm_math.h:5023-5060), as a machine over a stream of samples: the portable
 form, the packed DSP form, and the positional controller both stand for.
 */
module Pid {
  import opened Arith
  import opened FixedPoint

  datatype Gains = Gains(a0: Q15, a1: Q15, a2: Q15)

  /** `state[0]`, `state[1]`, `state[2]`: the last two inputs and the last output. */
  datatype History = History(x1: Q15, x2: Q15, y: Q15)

  const RESET := History(0, 0, 0)

  /** y[n-1] scaled, plus A0*x[n] + A1*x[n-1] + A2*x[n-2], at full precision. */
  function Accumulate(g: Gains, h: History, x: Q15): int {
    (g.a0 as int) * (x as int) + (g.a1 as int) * (h.x1 as int) + (g.a2 as int) * (h.x2 as int) + (h.y as int) * 0x8000
  }

  /** Truncate to 34.15, saturate to 1.15. */
  function Saturate(acc: int): Q15 { ToQ15(SSat(ToQ31(acc / 0x8000), 16)) }

  function Step(g: Gains, h: History, x: Q15): History {
    History(x, h.x1, Saturate(Accumulate(g, h, x)))
  }

  /** Products of 1.15 values; the largest needs both operands at -1.0. */
  lemma ProductRange(a: int, b: int)
    requires -0x8000 <= a <= 0x7FFF && -0x8000 <= b <= 0x7FFF
    ensures -0x4000_0000 < a * b <= 0x4000_0000
    ensures a != -0x8000 ==> a * b <= 0x3FFF_8000
  {
    if a >= 0 {
      MulMono(b, 0x7FFF, a);
      MulMono(-0x8000, b, a);
    } else {
      MulMono(-b, 0x8000, -a);
      MulMono(-0x7FFF, -b, -a);
      Flip(a, b);
    }
  }

  lemma Flip(a: int, b: int)
    ensures (-b) * (-a) == a * b
  {
  }

  /** No cast on the way to the output loses anything: the output is the clamped, floored accumulator. */
  lemma SaturateIsClamp(acc: int)
    requires -0x2_0000_0000 <= acc <= 0x2_0000_0000
    ensures Saturate(acc) == Clamp(acc / 0x8000, -0x8000, 0x7FFF)
  {
    var q := acc / 0x8000;
    NarrowExact(q);
    SSat16IsClamp(q);
    NarrowExact(Clamp(q, -0x8000, 0x7FFF));
  }

  lemma AccumulateRange(g: Gains, h: History, x: Q15)
    ensures -0x1_0000_0000 <= Accumulate(g, h, x) <= 0x1_0000_0000
  {
    ProductRange(g.a0, x);
    ProductRange(g.a1, h.x1);
    ProductRange(g.a2, h.x2);
  }

  /** One sample from any state, saturated or not: the last output plus the floored increment, clamped to 16 bits. */
  lemma StepIsClampedIncrement(g: Gains, h: History, x: Q15)
    ensures var d := (g.a0 as int) * x + (g.a1 as int) * h.x1 + (g.a2 as int) * h.x2;
      Step(g, h, x) == History(x, h.x1, Clamp(h.y + d / 0x8000, -0x8000, 0x7FFF))
  {
    var d := (g.a0 as int) * x + (g.a1 as int) * h.x1 + (g.a2 as int) * h.x2;
    AccumulateRange(g, h, x);
    SaturateIsClamp(Accumulate(g, h, x));
    FloorShift(d, h.y, 0x8000);
    assert Accumulate(g, h, x) == d + h.y * 0x8000;
  }

  function Run(g: Gains, h: History, xs: seq<Q15>): History {
    if |xs| == 0 then h else Step(g, Run(g, h, xs[..|xs| - 1]), xs[|xs| - 1])
  }

  // ---------- Against the positional controller ----------

  function Sum(xs: seq<Q15>): int { if |xs| == 0 then 0 else Sum(xs[..|xs| - 1]) + xs[|xs| - 1] }

  /** The sample `k` steps before the end, zero before the start. */
  function Back(xs: seq<Q15>, k: nat): Q15 { if k < |xs| then xs[|xs| - 1 - k] else 0 }

  /** Kp*x[n] + Ki*(x[1]+...+x[n]) + Kd*(x[n]-x[n-1]): what the gains mean. */
  function Positional(kp: int, ki: int, kd: int, xs: seq<Q15>): int {
    kp * Back(xs, 0) + ki * Sum(xs) + kd * (Back(xs, 0) as int - Back(xs, 1) as int)
  }

  /** The derived gains as documented at CMSIS/arm_math.h:4890-4893. */
  ghost predicate Derived(g: Gains, kp: int, ki: int, kd: int) {
    g.a0 == kp + ki + kd && g.a1 == -kp - 2 * kd && g.a2 == kd
  }

  /** No output of the run is clipped. */
  ghost predicate Unsaturated(g: Gains, xs: seq<Q15>) {
    |xs| > 0 ==> Unsaturated(g, xs[..|xs| - 1]) && Unclipped(g, Run(g, RESET, xs[..|xs| - 1]), xs[|xs| - 1])
  }

  ghost predicate Unclipped(g: Gains, h: History, x: Q15) {
    -0x8000 <= Accumulate(g, h, x) / 0x8000 <= 0x7FFF
  }

  lemma {:induction false} RemembersInputs(g: Gains, xs: seq<Q15>)
    ensures Run(g, RESET, xs).x1 == Back(xs, 0) && Run(g, RESET, xs).x2 == Back(xs, 1)
  {
  }

  /** One more sample moves the positional value by exactly the increment the controller adds. */
  lemma PositionalIncrement(g: Gains, kp: int, ki: int, kd: int, xs: seq<Q15>, x: Q15)
    requires Derived(g, kp, ki, kd)
    ensures Positional(kp, ki, kd, xs + [x]) - Positional(kp, ki, kd, xs) ==
            (g.a0 as int) * x + (g.a1 as int) * Back(xs, 0) + (g.a2 as int) * Back(xs, 1)
  {
  }

  /** How far the output lags behind the positional value, in units of 2^-15 of the last place. */
  function Lag(g: Gains, kp: int, ki: int, kd: int, xs: seq<Q15>): int {
    Positional(kp, ki, kd, xs) - 0x8000 * (Run(g, RESET, xs).y as int)
  }

  /** One unclipped step adds its truncation to the lag. */
  lemma LagGrows(g: Gains, kp: int, ki: int, kd: int, xs: seq<Q15>, x: Q15)
    requires Derived(g, kp, ki, kd)
    requires Unclipped(g, Run(g, RESET, xs), x)
    ensures 0 <= Lag(g, kp, ki, kd, xs + [x]) - Lag(g, kp, ki, kd, xs) <= 0x7FFF
  {
    var h := Run(g, RESET, xs);
    RemembersInputs(g, xs);
    PositionalIncrement(g, kp, ki, kd, xs, x);
    UnclippedStep(g, h, x);
    assert (xs + [x])[..|xs|] == xs;
    assert Run(g, RESET, xs + [x]) == Step(g, h, x);
    var d := (g.a0 as int) * x + (g.a1 as int) * h.x1 + (g.a2 as int) * h.x2;
    assert Accumulate(g, h, x) == d + (h.y as int) * 0x8000;
    Drift(d, h.y);
  }

  /**
   The incremental form computes the positional controller. From reset, over every unsaturated run of `n` samples, the
   output is at most the positional value and less than `n` units in the last place below it.
   */
  lemma {:induction false} IncrementalIsPositional(g: Gains, kp: int, ki: int, kd: int, xs: seq<Q15>)
    requires Derived(g, kp, ki, kd) && Unsaturated(g, xs)
    ensures 0 <= Positional(kp, ki, kd, xs) - 0x8000 * (Run(g, RESET, xs).y as int) <= |xs| * 0x7FFF
  {
    if |xs| > 0 {
      var init, x := xs[..|xs| - 1], xs[|xs| - 1];
      assert xs == init + [x];
      IncrementalIsPositional(g, kp, ki, kd, init);
      LagGrows(g, kp, ki, kd, init, x);
      assert Lag(g, kp, ki, kd, xs) == Lag(g, kp, ki, kd, init + [x]);
    }
  }

  lemma UnclippedStep(g: Gains, h: History, x: Q15)
    requires Unclipped(g, h, x)
    ensures Step(g, h, x).y == Accumulate(g, h, x) / 0x8000
  {
    AccumulateRange(g, h, x);
    SaturateIsClamp(Accumulate(g, h, x));
  }

  /** Flooring at each step costs less than one unit per step. */
  lemma Drift(d: int, y: int)
    ensures 0 <= d + 0x8000 * y - 0x8000 * ((d + y * 0x8000) / 0x8000) <= 0x7FFF
  {
  }

  // ---------- The packed DSP form ----------

  /** Signed halves of a 32-bit word. */
  function LowHalf(w: nat): Q15 { ToQ15(w) }
  function HighHalf(w: nat): Q15
    requires w < 0x1_0000_0000
  {
    ToQ31(w) / 0x1_0000
  }

  function Pack(lo: Q15, hi: Q15): (w: nat)
    ensures w < 0x1_0000_0000
  {
    hi % 0x1_0000 * 0x1_0000 + lo % 0x1_0000
  }

  /** A 32-bit word as the two signed halves the SIMD instructions work on. */
  datatype Halves = Halves(lo: Q15, hi: Q15)

  function HalvesOf(w: nat): Halves
    requires w < 0x1_0000_0000
  {
    Halves(LowHalf(w), HighHalf(w))
  }

  /** Low half times low half plus high half times high half. */
  function HalfProducts(x: Halves, y: Halves): int { (x.lo as int) * y.lo + (x.hi as int) * y.hi }

  /** The SMUAD instruction: the sum in 32 bits. */
  function Smuad(x: Halves, y: Halves): nat { ToU32(HalfProducts(x, y)) }

  /** The SMLALD instruction, which the packed path is always compiled with: both products join a 64-bit sum. */
  function Smlald(x: Halves, y: Halves, sum: Q63): Q63 { ToQ63(HalfProducts(x, y) + sum) }

  /** The C stand-in for builds without the instruction, CMSIS/arm_math.h:1119-1128: it adds the products at 32 bits. */
  function SmlaldStandIn(x: Halves, y: Halves, sum: Q63): Q63 { ToQ63(ToQ31(HalfProducts(x, y)) + sum) }

  /** A sign-extended operand has the sample in its low half and 0 or -1 in its high half. */
  lemma SignExtension(v: Q15)
    ensures HalvesOf(ToU32(v)) == Halves(v, if v < 0 then -1 else 0)
  {
    NarrowExact(v);
    assert ToU32(v) == if v < 0 then v + 0x1_0000_0000 else v;
  }

  lemma PackHalves(lo: Q15, hi: Q15)
    ensures HalvesOf(Pack(lo, hi)) == Halves(lo, hi)
  {
    var l, h := lo % 0x1_0000, hi % 0x1_0000;
    assert Pack(lo, hi) % 0x1_0000 == l;
    var s := ToQ31(Pack(lo, hi));
    if h >= 0x8000 {
      assert hi == h - 0x1_0000;
      assert s == hi * 0x1_0000 + l;
    } else {
      assert hi == h;
      assert s == hi * 0x1_0000 + l;
    }
    DivUnique(s, hi, l, 0x1_0000);
  }

  /** The accumulator of the DSP form. */
  function AccumulateDsp(g: Gains, h: History, x: Q15): int {
    var acc: Q63 := ToQ31(Smuad(HalvesOf(ToU32(g.a0)), HalvesOf(ToU32(x))));
    Smlald(HalvesOf(Pack(g.a1, g.a2)), HalvesOf(Pack(h.x1, h.x2)), acc) + (h.y as int) * 0x8000
  }

  function StepDsp(g: Gains, h: History, x: Q15): History {
    History(x, h.x1, Saturate(AccumulateDsp(g, h, x)))
  }

  function RunDsp(g: Gains, h: History, xs: seq<Q15>): History {
    if |xs| == 0 then h else StepDsp(g, RunDsp(g, h, xs[..|xs| - 1]), xs[|xs| - 1])
  }

  /** One where both operands of the first multiply are negative: the product of the two sign halves. */
  function Bump(g: Gains, x: Q15): nat { if g.a0 < 0 && x < 0 then 1 else 0 }

  function Bumps(g: Gains, xs: seq<Q15>): nat {
    if |xs| == 0 then 0 else Bumps(g, xs[..|xs| - 1]) + Bump(g, xs[|xs| - 1])
  }

  /** The first multiply adds one where both sign halves are -1. */
  lemma FirstMultiply(a: Q15, x: Q15)
    ensures ToQ31(Smuad(HalvesOf(ToU32(a)), HalvesOf(ToU32(x)))) == (a as int) * x + if a < 0 && x < 0 then 1 else 0
  {
    SignExtension(a);
    SignExtension(x);
    SignHalves(a, x);
  }

  lemma SignHalves(a: Q15, x: Q15)
    ensures ToQ31(Smuad(Halves(a, if a < 0 then -1 else 0), Halves(x, if x < 0 then -1 else 0))) ==
            (a as int) * x + if a < 0 && x < 0 then 1 else 0
  {
    ProductRange(a, x);
    NarrowExact((a as int) * x + if a < 0 && x < 0 then 1 else 0);
  }

  lemma ProductIsOneIff(a: int, b: int)
    requires -0x8000 <= a <= 0x7FFF && -0x8000 <= b <= 0x7FFF
    ensures a * b == 0x4000_0000 <==> a == -0x8000 && b == -0x8000
  {
    ProductRange(a, b);
    ProductRange(b, a);
  }

  const MINUS_ONES := Halves(-0x8000, -0x8000)

  /** Two products add up to 2^31 in one case only, and never to more. */
  lemma HalfProductsRange(x: Halves, y: Halves)
    ensures -0x8000_0000 < HalfProducts(x, y) <= 0x8000_0000
    ensures HalfProducts(x, y) == 0x8000_0000 <==> x == MINUS_ONES && y == MINUS_ONES
  {
    ProductRange(x.lo, y.lo);
    ProductRange(x.hi, y.hi);
    ProductIsOneIff(x.lo, y.lo);
    ProductIsOneIff(x.hi, y.hi);
  }

  /** Adding such a sum of products at 64 bits is exact; adding it at 32 bits first is, unless it is 2^31. */
  lemma AddingProducts(v: int, sum: Q63)
    requires -0x8000_0000 < v <= 0x8000_0000 && -0x1_0000_0000 <= sum <= 0x1_0000_0000
    ensures ToQ63(v + sum) == v + sum
    ensures ToQ63(ToQ31(v) + sum) == v + sum <==> v != 0x8000_0000
  {
    NarrowExactQ63(v + sum);
    NarrowExact(v);
    NarrowExactQ63(ToQ31(v) + sum);
  }

  /** The second multiply adds both products exactly, for every gain and sample. */
  lemma SecondMultiply(x: Halves, y: Halves, sum: Q63)
    requires -0x1_0000_0000 <= sum <= 0x1_0000_0000
    ensures Smlald(x, y, sum) == (x.lo as int) * y.lo + (x.hi as int) * y.hi + sum
  {
    HalfProductsRange(x, y);
    AddingProducts(HalfProducts(x, y), sum);
  }

  /** The C stand-in agrees with the instruction exactly when not all four halves are -1.0. */
  lemma StandInIsInstructionIff(x: Halves, y: Halves, sum: Q63)
    requires -0x1_0000_0000 <= sum <= 0x1_0000_0000
    ensures SmlaldStandIn(x, y, sum) == Smlald(x, y, sum) <==> !(x == MINUS_ONES && y == MINUS_ONES)
  {
    HalfProductsRange(x, y);
    AddingProducts(HalfProducts(x, y), sum);
  }

  /** The DSP accumulator is the portable one plus the product of the sign halves. */
  lemma DspAccumulator(g: Gains, h: History, x: Q15)
    ensures AccumulateDsp(g, h, x) == Accumulate(g, h, x) + Bump(g, x)
  {
    var acc: Q63 := ToQ31(Smuad(HalvesOf(ToU32(g.a0)), HalvesOf(ToU32(x))));
    FirstMultiply(g.a0, x);
    ProductRange(g.a0, x);
    PackHalves(g.a1, g.a2);
    PackHalves(h.x1, h.x2);
    SecondMultiply(Halves(g.a1, g.a2), Halves(h.x1, h.x2), acc);
  }

  /** How far the packed form may be ahead after a stream. */
  ghost predicate Tracks(g: Gains, h: History, xs: seq<Q15>) {
    0 <= RunDsp(g, h, xs).y as int - Run(g, h, xs).y as int <= Bumps(g, xs)
  }

  lemma {:induction false} SameInputs(g: Gains, h: History, xs: seq<Q15>)
    ensures RunDsp(g, h, xs).x1 == Run(g, h, xs).x1 && RunDsp(g, h, xs).x2 == Run(g, h, xs).x2
  {
  }

  /** One step widens the lead by at most its bump, through truncation and saturation. */
  lemma TrackOneStep(g: Gains, h: History, hd: History, x: Q15)
    requires hd.x1 == h.x1 && hd.x2 == h.x2 && h.y <= hd.y
    ensures 0 <= StepDsp(g, hd, x).y as int - Step(g, h, x).y as int <= hd.y as int - h.y as int + Bump(g, x)
  {
    DspAccumulator(g, hd, x);
    AccumulateRange(g, h, x);
    AccumulateRange(g, hd, x);
    var acc, lead := Accumulate(g, h, x), hd.y as int - h.y as int;
    var accD := AccumulateDsp(g, hd, x);
    assert accD == acc + Bump(g, x) + lead * 0x8000;
    FloorShift(acc + Bump(g, x), lead, 0x8000);
    FloorMono(acc, acc + Bump(g, x), 0x8000);
    FloorUpper(acc + Bump(g, x), acc / 0x8000 + Bump(g, x), 0x8000);
    SaturateIsClamp(acc);
    SaturateIsClamp(accD);
    ClampLipschitz(acc / 0x8000, accD / 0x8000, -0x8000, 0x7FFF);
  }

  /** For all gains, over every stream from every common state, the packed form leads by at most the number of bumps. */
  lemma {:induction false} DspTracksPortable(g: Gains, h: History, xs: seq<Q15>)
    ensures Tracks(g, h, xs)
  {
    if |xs| > 0 {
      var init, x := xs[..|xs| - 1], xs[|xs| - 1];
      DspTracksPortable(g, h, init);
      SameInputs(g, h, init);
      TrackOneStep(g, Run(g, h, init), RunDsp(g, h, init), x);
    }
  }

  /** No output of the packed run is clipped. */
  ghost predicate UnsaturatedDsp(g: Gains, xs: seq<Q15>) {
    |xs| > 0 ==>
      && UnsaturatedDsp(g, xs[..|xs| - 1])
      && -0x8000 <= AccumulateDsp(g, RunDsp(g, RESET, xs[..|xs| - 1]), xs[|xs| - 1]) / 0x8000 <= 0x7FFF
  }

  /** The lag of the packed form behind the positional value raised by the bumps so far. */
  function LagDsp(g: Gains, kp: int, ki: int, kd: int, xs: seq<Q15>): int {
    Positional(kp, ki, kd, xs) + Bumps(g, xs) - 0x8000 * (RunDsp(g, RESET, xs).y as int)
  }

  lemma LagDspGrows(g: Gains, kp: int, ki: int, kd: int, xs: seq<Q15>, x: Q15)
    requires Derived(g, kp, ki, kd)
    requires -0x8000 <= AccumulateDsp(g, RunDsp(g, RESET, xs), x) / 0x8000 <= 0x7FFF
    ensures 0 <= LagDsp(g, kp, ki, kd, xs + [x]) - LagDsp(g, kp, ki, kd, xs) <= 0x7FFF
  {
    var h := RunDsp(g, RESET, xs);
    SameInputs(g, RESET, xs);
    RemembersInputs(g, xs);
    PositionalIncrement(g, kp, ki, kd, xs, x);
    DspAccumulator(g, h, x);
    AccumulateRange(g, h, x);
    SaturateIsClamp(AccumulateDsp(g, h, x));
    assert (xs + [x])[..|xs|] == xs;
    assert RunDsp(g, RESET, xs + [x]) == StepDsp(g, h, x);
    var d := (g.a0 as int) * x + (g.a1 as int) * h.x1 + (g.a2 as int) * h.x2 + Bump(g, x);
    assert AccumulateDsp(g, h, x) == d + (h.y as int) * 0x8000;
    Drift(d, h.y);
  }

  /**
   The packed form computes the positional controller too: its bumps are worth 2^-15 of a unit each, so over every
   unsaturated run of `n` samples the output is at most the positional value plus the bumps, and less than `n` units
   below that.
   */
  lemma {:induction false} PackedIsPositional(g: Gains, kp: int, ki: int, kd: int, xs: seq<Q15>)
    requires Derived(g, kp, ki, kd) && UnsaturatedDsp(g, xs)
    ensures 0 <= Positional(kp, ki, kd, xs) + Bumps(g, xs) - 0x8000 * (RunDsp(g, RESET, xs).y as int) <= |xs| * 0x7FFF
  {
    if |xs| > 0 {
      var init, x := xs[..|xs| - 1], xs[|xs| - 1];
      assert xs == init + [x];
      PackedIsPositional(g, kp, ki, kd, init);
      LagDspGrows(g, kp, ki, kd, init, x);
      assert LagDsp(g, kp, ki, kd, xs) == LagDsp(g, kp, ki, kd, init + [x]);
    }
  }

  // ---------- The instance structures ----------

  /** arm_pid_instance_q15 without ARM_MATH_DSP. */
  class Portable {
    var a0: Q15
    var a1: Q15
    var a2: Q15
    const state: array<Q15>

    /** Gains set, state cleared. */
    constructor (g: Gains)
      ensures Valid() && fresh(state) && Gains(a0, a1, a2) == g && View() == RESET
    {
      a0, a1, a2 := g.a0, g.a1, g.a2;
      state := new Q15[3](_ => 0);
    }

    ghost predicate Valid() reads this { state.Length == 3 }

    ghost function View(): History
      requires Valid()
      reads this, state
    {
      History(state[0], state[1], state[2])
    }

    method Process(x: Q15) returns (y: Q15)
      requires Valid()
      modifies state
      ensures View() == Step(Gains(a0, a1, a2), old(View()), x) && y == View().y
    {
      var acc: int := (a0 as int) * (x as int);
      acc := acc + (a1 as int) * (state[0] as int);
      acc := acc + (a2 as int) * (state[1] as int);
      acc := acc + (state[2] as int) * 0x8000;
      y := Saturate(acc);
      state[1] := state[0];
      state[0] := x;
      state[2] := y;
    }
  }

  /** arm_pid_instance_q15 with ARM_MATH_DSP: A1 and A2 share one word. */
  class Packed {
    var a0: Q15
    var a1: nat
    const state: array<Q15>

    constructor (g: Gains)
      ensures Valid() && fresh(state) && a0 == g.a0 && a1 == Pack(g.a1, g.a2) && View() == RESET
    {
      a0, a1 := g.a0, Pack(g.a1, g.a2);
      state := new Q15[3](_ => 0);
    }

    ghost predicate Valid() reads this { state.Length == 3 && a1 < 0x1_0000_0000 }

    ghost function View(): History
      requires Valid()
      reads this, state
    {
      History(state[0], state[1], state[2])
    }

    method Process(x: Q15, ghost g: Gains) returns (y: Q15)
      requires Valid() && g.a0 == a0 && a1 == Pack(g.a1, g.a2)
      modifies state
      ensures View() == StepDsp(g, old(View()), x) && y == View().y
    {
      var acc: int := ToQ31(Smuad(HalvesOf(ToU32(a0)), HalvesOf(ToU32(x))));
      acc := Smlald(HalvesOf(a1), HalvesOf(Pack(state[0], state[1])), acc);
      acc := acc + (state[2] as int) * 0x8000;
      assert acc == AccumulateDsp(g, View(), x);
      y := Saturate(acc);
      state[1] := state[0];
      state[0] := x;
      state[2] := y;
    }
  }
}
