/** `arm_pid_q31`: the incremental PID controller in 32-bit fixed point, with a 64-bit accumulator,
    against the exact positional form of the controller and against the saturating controller that
    its comment documents. */
module Pid {
  import opened Words

  const TWO64 := 0x1_0000_0000_0000_0000

  /** Two's complement truncation to 64 bits. */
  function Q63(x: int): int {
    (x + TWO64 / 2) % TWO64 - TWO64 / 2
  }

  /** The saturation that the comment above the function promises. */
  function Sat(x: int): (r: int)
    ensures Int32(r) && (Int32(x) <==> r == x)
  {
    if x < -TWO31 then -TWO31 else if x >= TWO31 then TWO31 - 1 else x
  }

  datatype Gains = Gains(a0: int, a1: int, a2: int)

  predicate GainsFit(g: Gains) {
    Int32(g.a0) && Int32(g.a1) && Int32(g.a2)
  }

  /** What a step adds up, before any word size: the last output and the shifted accumulator. */
  function Next(g: Gains, sample: int, s0: int, s1: int, s2: int): int {
    s2 + (g.a0 * sample + g.a1 * s0 + g.a2 * s1) / TWO31
  }

  // ----- The controller without word sizes -----

  /** The input `k` samples before the last one; before the first sample the state is zero. */
  function Past(xs: seq<int>, k: nat): int {
    if k < |xs| then xs[|xs| - 1 - k] else 0
  }

  function Accumulator(g: Gains, xs: seq<int>): int {
    g.a0 * Past(xs, 0) + g.a1 * Past(xs, 1) + g.a2 * Past(xs, 2)
  }

  /** The sum of the truncated increments. */
  function Ideal(g: Gains, xs: seq<int>): int {
    if xs == [] then 0 else Ideal(g, xs[..|xs| - 1]) + Accumulator(g, xs) / TWO31
  }

  /** The controller that saturates every output, as documented. */
  function Saturating(g: Gains, xs: seq<int>): int {
    if xs == [] then 0 else Sat(Saturating(g, xs[..|xs| - 1]) + Accumulator(g, xs) / TWO31)
  }

  function Sum(xs: seq<int>): int {
    if xs == [] then 0 else Sum(xs[..|xs| - 1]) + xs[|xs| - 1]
  }

  /** The positional form, scaled by `2^31`. */
  function Positional(kp: int, ki: int, kd: int, xs: seq<int>): int {
    kp * Past(xs, 0) + ki * Sum(xs) + kd * (Past(xs, 0) - Past(xs, 1))
  }

  function GainsOf(kp: int, ki: int, kd: int): Gains {
    Gains(kp + ki + kd, -kp - 2 * kd, kd)
  }

  // ----- The code -----

  class PidQ31 {
    const gains: Gains
    const state: array<int>
    ghost var inputs: seq<int>  // all samples since the state was zero

    ghost predicate Valid()
      reads this, state
    {
      && state.Length == 3
      && state[0] == Past(inputs, 0) && state[1] == Past(inputs, 1)
      && state[2] == WrapInt32(Ideal(gains, inputs))
    }

    constructor (gains: Gains)
      ensures Valid() && fresh(state) && this.gains == gains && inputs == []
    {
      this.gains := gains;
      state := new int[3](_ => 0);
      inputs := [];
    }

    /** The output is the sum of the step truncated to 32 bits, and, whatever overflowed on the way,
        now or in earlier steps, the ideal value truncated to 32 bits. */
    method Process(sample: int) returns (out: int)
      requires Valid()
      modifies this, state
      ensures Valid() && inputs == old(inputs) + [sample]
      ensures out == WrapInt32(Next(gains, sample, old(state[0]), old(state[1]), old(state[2])))
      ensures out == WrapInt32(Ideal(gains, inputs))
    {
      hide WrapInt32, Q63;
      var acc := Q63(gains.a0 * sample);
      acc := Q63(acc + gains.a1 * state[0]);
      acc := Q63(acc + gains.a2 * state[1]);
      out := WrapInt32(acc / TWO31);
      out := WrapInt32(out + state[2]);
      state[1] := state[0];
      state[0] := sample;
      state[2] := out;

      ghost var xs := inputs + [sample];
      assert xs[..|xs| - 1] == inputs;
      assert Past(xs, 1) == Past(inputs, 0) && Past(xs, 2) == Past(inputs, 1);
      AccumulatorWraps(gains.a0 * Past(xs, 0), gains.a1 * Past(xs, 1), gains.a2 * Past(xs, 2));
      WrapInt32Adds(Accumulator(gains, xs) / TWO31, Ideal(gains, inputs));
      WrapInt32Adds(Accumulator(gains, xs) / TWO31, old(state[2]));
      inputs := xs;
    }
  }

  // ----- Wrap-around does no lasting damage -----

  lemma WrapInt32Unique(x: int, k: int)
    ensures WrapInt32(x + k * U32) == WrapInt32(x)
  {
    var y := x + TWO31;
    assert (y + k * U32) % U32 == y % U32;
  }

  lemma WrapInt32IsShift(x: int) returns (k: int)
    ensures WrapInt32(x) == x + k * U32
  {
    k := -((x + TWO31) / U32);
  }

  lemma Q63IsShift(x: int) returns (k: int)
    ensures Q63(x) == x + k * TWO64
  {
    k := -((x + TWO64 / 2) / TWO64);
  }

  lemma WrapInt32Adds(a: int, b: int)
    ensures WrapInt32(WrapInt32(a) + WrapInt32(b)) == WrapInt32(a + b)
  {
    var j := WrapInt32IsShift(a);
    var k := WrapInt32IsShift(b);
    assert WrapInt32(a) + WrapInt32(b) == (a + b) + (j + k) * U32;
    WrapInt32Unique(a + b, j + k);
  }

  /** Dropping multiples of `2^64` from the accumulator changes the shifted value by multiples of
      `2^33`, which the truncation to 32 bits does not see. */
  lemma AccumulatorWraps(a: int, b: int, c: int)
    ensures WrapInt32(Q63(Q63(Q63(a) + b) + c) / TWO31) == WrapInt32((a + b + c) / TWO31)
  {
    var i := Q63IsShift(a);
    var j := Q63IsShift(Q63(a) + b);
    var k := Q63IsShift(Q63(Q63(a) + b) + c);
    var n := i + j + k;
    assert Q63(Q63(Q63(a) + b) + c) == (a + b + c) + n * TWO64;
    assert ((a + b + c) + n * TWO64) / TWO31 == (a + b + c) / TWO31 + (2 * n) * U32;
    WrapInt32Unique((a + b + c) / TWO31, 2 * n);
  }

  // ----- Wrapping where saturation is documented -----

  /** On 32-bit operands a step returns the saturated sum exactly when the sum fits 32 bits or wraps
      by chance to the limit it should have been clamped to. */
  lemma StepSaturatesIff(g: Gains, sample: int, s0: int, s1: int, s2: int)
    requires GainsFit(g) && Int32(sample) && Int32(s0) && Int32(s1) && Int32(s2)
    ensures var z := Next(g, sample, s0, s1, s2);
            WrapInt32(z) == Sat(z) <==> Int32(z) || z == 3 * TWO31 - 1 || z == -3 * TWO31
  {
    ProductBound(g.a0, sample, TWO31);
    ProductBound(g.a1, s0, TWO31);
    ProductBound(g.a2, s1, TWO31);
    var z := Next(g, sample, s0, s1, s2);
    assert -4 * TWO31 <= z < 4 * TWO31;
  }

  lemma ProductBound(a: int, x: int, limit: int)
    requires Int32(a) && -limit <= x <= limit
    ensures -TWO31 * limit <= a * x <= TWO31 * limit
  {
    TimesBound(if a < 0 then -a else a, if x < 0 then -x else x, TWO31, limit);
    assert (-a) * x == -(a * x) == a * (-x) && (-a) * (-x) == a * x;
  }

  lemma TimesBound(b: nat, y: nat, c: nat, d: nat)
    requires b <= c && y <= d
    ensures 0 <= b * y <= c * d
  {
    assert b * (d - y) >= 0 && (c - b) * d >= 0;
  }

  /** That chance occurs: the last of these outputs is the upper limit, after a sum of
      `2^32 + 2^31 - 1`. */
  lemma ChanceIsReachable()
    ensures var g := Gains(-TWO31, -TWO31, 1);
            var s2 := WrapInt32(Ideal(g, [-1, 1, -TWO31]));
            var z := Next(g, -TWO31, -TWO31, 1, s2);
            z == 3 * TWO31 - 1 && WrapInt32(z) == Sat(z)
  {
    var g := Gains(-TWO31, -TWO31, 1);
    var xs := [-1, 1, -TWO31];
    assert xs[..2] == [-1, 1] && [-1, 1][..1] == [-1] && [-1][..0] == [];
    assert Ideal(g, [-1]) == 1;
    assert Ideal(g, [-1, 1]) == 1;
    assert Accumulator(g, xs) == TWO31 * TWO31 - TWO31 - 1;
    assert Ideal(g, xs) == TWO31 - 1;
  }

  const SCALED := TWO31 / 4

  predicate Scaled(x: int) {
    -SCALED <= x <= SCALED
  }

  /** Inputs scaled down by two bits, as the comment advises, keep the accumulator inside 64 bits at
      every point... */
  lemma ScaledAccumulatorFits(g: Gains, sample: int, s0: int, s1: int)
    requires GainsFit(g) && Scaled(sample) && Scaled(s0) && Scaled(s1)
    ensures Q63(g.a0 * sample) == g.a0 * sample
    ensures Q63(g.a0 * sample + g.a1 * s0) == g.a0 * sample + g.a1 * s0
    ensures Q63(g.a0 * sample + g.a1 * s0 + g.a2 * s1) == g.a0 * sample + g.a1 * s0 + g.a2 * s1
  {
    ProductBound(g.a0, sample, SCALED);
    ProductBound(g.a1, s0, SCALED);
    ProductBound(g.a2, s1, SCALED);
  }

  /** ... and rule out the chance: a step returns the saturated sum exactly when the sum fits. */
  lemma ScaledStepSaturatesIff(g: Gains, sample: int, s0: int, s1: int, s2: int)
    requires GainsFit(g) && Scaled(sample) && Scaled(s0) && Scaled(s1) && Int32(s2)
    ensures var z := Next(g, sample, s0, s1, s2); WrapInt32(z) == Sat(z) <==> Int32(z)
  {
    ProductBound(g.a0, sample, SCALED);
    ProductBound(g.a1, s0, SCALED);
    ProductBound(g.a2, s1, SCALED);
    StepSaturatesIff(g, sample, s0, s1, s2);
    var z := Next(g, sample, s0, s1, s2);
    assert -3 * TWO31 < z < 3 * TWO31 - 1;
  }

  /** Every output up to the last sample is the documented one. */
  ghost predicate AsDocumented(g: Gains, xs: seq<int>) {
    forall n :: 0 <= n <= |xs| ==> WrapInt32(Ideal(g, xs[..n])) == Saturating(g, xs[..n])
  }

  ghost predicate AlwaysFits(g: Gains, xs: seq<int>) {
    forall n :: 0 <= n <= |xs| ==> Int32(Ideal(g, xs[..n]))
  }

  /** On scaled inputs the controller is the documented, saturating one exactly on the runs on which
      saturation never has anything to do. */
  lemma {:induction false} AsDocumentedIffAlwaysFits(g: Gains, xs: seq<int>)
    requires GainsFit(g) && forall i :: 0 <= i < |xs| ==> Scaled(xs[i])
    ensures AsDocumented(g, xs) <==> AlwaysFits(g, xs)
  {
    hide Next, Accumulator;
    if xs == [] {
      assert xs[..0] == [];
    } else {
      hide Ideal, Saturating;
      var ys := xs[..|xs| - 1];
      AsDocumentedIffAlwaysFits(g, ys);
      LastOutput(g, xs);
      if AsDocumented(g, ys) {
        assert ys[..|ys|] == ys;
        assert Int32(Ideal(g, ys)) && Saturating(g, ys) == Ideal(g, ys);
        ScaledStepSaturatesIff(g, Past(xs, 0), Past(xs, 1), Past(xs, 2), Ideal(g, ys));
        StepOfRun(g, xs);
      }
    }
  }

  lemma StepOfRun(g: Gains, xs: seq<int>)
    requires xs != []
    ensures var ys := xs[..|xs| - 1];
            && Ideal(g, xs) == Next(g, Past(xs, 0), Past(xs, 1), Past(xs, 2), Ideal(g, ys))
            && Saturating(g, xs) == Sat(Next(g, Past(xs, 0), Past(xs, 1), Past(xs, 2), Saturating(g, ys)))
  {
  }

  lemma LastOutput(g: Gains, xs: seq<int>)
    requires xs != []
    ensures var ys := xs[..|xs| - 1];
            && (AsDocumented(g, xs) <==> AsDocumented(g, ys) && WrapInt32(Ideal(g, xs)) == Saturating(g, xs))
            && (AlwaysFits(g, xs) <==> AlwaysFits(g, ys) && Int32(Ideal(g, xs)))
  {
    hide Ideal, Saturating;
    var ys := xs[..|xs| - 1];
    assert xs[..|xs|] == xs;
    assert forall n :: 0 <= n <= |ys| ==> xs[..n] == ys[..n];
  }

  function Constant(x: int, n: nat): (xs: seq<int>)
    ensures |xs| == n && forall i :: 0 <= i < n ==> xs[i] == x
  {
    seq(n, _ => x)
  }

  /** The increments of the first step, the second step and every later step of a constant input. */
  function FirstStep(g: Gains, x: int): int {
    g.a0 * x / TWO31
  }

  function SecondStep(g: Gains, x: int): int {
    (g.a0 * x + g.a1 * x) / TWO31
  }

  function LaterStep(g: Gains, x: int): int {
    (g.a0 * x + g.a1 * x + g.a2 * x) / TWO31
  }

  lemma {:induction false} IdealOfConstant(g: Gains, x: int, n: nat)
    ensures Ideal(g, Constant(x, n)) ==
            if n == 0 then 0
            else if n == 1 then FirstStep(g, x)
            else FirstStep(g, x) + SecondStep(g, x) + (n - 2) * LaterStep(g, x)
  {
    var xs := Constant(x, n);
    if n == 0 {
    } else {
      assert xs[..n - 1] == Constant(x, n - 1);
      IdealOfConstant(g, x, n - 1);
      if n > 2 {
        assert (n - 2) * LaterStep(g, x) == (n - 3) * LaterStep(g, x) + LaterStep(g, x);
      }
    }
  }

  /** A constant input, scaled as advised, is handled as documented for ever exactly when the integral
      gain adds nothing and the first two outputs fit; otherwise the output wraps sooner or later. */
  lemma ConstantInputAsDocumentedIff(g: Gains, x: int)
    requires GainsFit(g) && Scaled(x)
    ensures (forall n :: AsDocumented(g, Constant(x, n))) <==>
              && LaterStep(g, x) == 0
              && Int32(FirstStep(g, x)) && Int32(FirstStep(g, x) + SecondStep(g, x))
  {
    hide AsDocumented, FirstStep, SecondStep, LaterStep, Ideal;
    var c1, c2, c3 := FirstStep(g, x), SecondStep(g, x), LaterStep(g, x);
    if forall n :: AsDocumented(g, Constant(x, n)) {
      ConstantFits(g, x, 1, 1);
      ConstantFits(g, x, 2, 2);
      ConstantFits(g, x, 2 + U32, 2 + U32);
      assert (2 + U32 - 2) * c3 == U32 * c3;
    }
    if c3 == 0 && Int32(c1) && Int32(c1 + c2) {
      forall n: nat ensures AsDocumented(g, Constant(x, n)) {
        AsDocumentedIffAlwaysFits(g, Constant(x, n));
        forall k | 0 <= k <= n ensures Int32(Ideal(g, Constant(x, n)[..k])) {
          assert Constant(x, n)[..k] == Constant(x, k);
          IdealOfConstant(g, x, k);
          assert (k - 2) * c3 == 0;
        }
      }
    }
  }

  lemma ConstantFits(g: Gains, x: int, n: nat, k: nat)
    requires GainsFit(g) && Scaled(x) && k <= n && AsDocumented(g, Constant(x, n))
    ensures Int32(Ideal(g, Constant(x, k)))
    ensures Ideal(g, Constant(x, k)) ==
            if k == 0 then 0
            else if k == 1 then FirstStep(g, x)
            else FirstStep(g, x) + SecondStep(g, x) + (k - 2) * LaterStep(g, x)
  {
    hide AsDocumented, FirstStep, SecondStep, LaterStep, Ideal;
    AsDocumentedIffAlwaysFits(g, Constant(x, n));
    assert Constant(x, n)[..k] == Constant(x, k);
    IdealOfConstant(g, x, k);
  }

  /** In the positional form that is a condition on the integral gain alone. */
  lemma LaterStepIsIntegral(kp: int, ki: int, kd: int, x: int)
    ensures LaterStep(GainsOf(kp, ki, kd), x) == 0 <==> 0 <= ki * x < TWO31
  {
    assert (kp + ki + kd) * x + (-kp - 2 * kd) * x + kd * x == ki * x;
  }

  lemma IncrementsOfScaledRun()
    ensures var g := GainsOf(0, TWO31 - 1, 0);
            FirstStep(g, SCALED) == SecondStep(g, SCALED) == LaterStep(g, SCALED) == 536870911
  {
  }

  lemma PrefixFits(g: Gains, xs: seq<int>, k: nat)
    requires k <= |xs| && forall n :: 0 <= n <= k ==> Int32(Ideal(g, xs[..n]))
    ensures AlwaysFits(g, xs[..k])
  {
    hide Ideal;
    assert forall n :: 0 <= n <= k ==> xs[..k][..n] == xs[..n];
  }

  /** An integral gain just below one and the largest scaled input: the fifth output has wrapped. */
  lemma ScaledRunWraps()
    ensures var g, xs := GainsOf(0, TWO31 - 1, 0), Constant(SCALED, 5);
            && Ideal(g, xs) == 2684354555
            && WrapInt32(Ideal(g, xs)) == -1610612741
            && Saturating(g, xs) == TWO31 - 1
  {
    var g, xs := GainsOf(0, TWO31 - 1, 0), Constant(SCALED, 5);
    hide Ideal, Saturating, AlwaysFits, FirstStep, SecondStep, LaterStep;
    var ys := xs[..4];
    IncrementsOfScaledRun();
    forall n | 0 <= n <= 5 ensures xs[..n] == Constant(SCALED, n) && Ideal(g, xs[..n]) == n * 536870911 {
      assert xs[..n] == Constant(SCALED, n);
      IdealOfConstant(g, SCALED, n);
    }
    assert xs[..5] == xs;
    assert AlwaysFits(g, ys) by {
      PrefixFits(g, xs, 4);
    }
    AsDocumentedIffAlwaysFits(g, ys);
    StepOfRun(g, xs);
  }

  // ----- Truncation drift -----

  /** With the gains of the positional form, the increments telescope. */
  lemma IncrementsTelescope(kp: int, ki: int, kd: int, xs: seq<int>)
    requires xs != []
    ensures Positional(kp, ki, kd, xs) == Positional(kp, ki, kd, xs[..|xs| - 1]) + Accumulator(GainsOf(kp, ki, kd), xs)
  {
    var ys := xs[..|xs| - 1];
    var x, x1, x2 := Past(xs, 0), Past(xs, 1), Past(xs, 2);
    assert Past(ys, 0) == x1 && Past(ys, 1) == x2;
    assert ki * Sum(xs) == ki * Sum(ys) + ki * x;
    assert (kp + ki + kd) * x == kp * x + ki * x + kd * x;
    assert (-kp - 2 * kd) * x1 == -(kp * x1) - 2 * (kd * x1);
    assert kd * (x - x1) == kd * x - kd * x1;
    assert kd * (x1 - x2) == kd * x1 - kd * x2;
  }

  /** After `n` steps the accumulated truncation leaves the ideal output at or below the positional
      form by less than one unit a step. */
  lemma {:induction false} DriftIsBounded(kp: int, ki: int, kd: int, xs: seq<int>)
    ensures 0 <= Positional(kp, ki, kd, xs) - TWO31 * Ideal(GainsOf(kp, ki, kd), xs) <= |xs| * (TWO31 - 1)
  {
    if xs == [] {
      assert kp * 0 == 0 && ki * 0 == 0 && kd * 0 == 0;
    } else {
      DriftIsBounded(kp, ki, kd, xs[..|xs| - 1]);
      IncrementsTelescope(kp, ki, kd, xs);
      var acc := Accumulator(GainsOf(kp, ki, kd), xs);
      assert 0 <= acc - TWO31 * (acc / TWO31) <= TWO31 - 1;
    }
  }

  /** For up to `2^32` samples the output keeps to that drift bound exactly when the ideal output
      fits 32 bits. */
  lemma OutputKeepsDriftBoundIffItFits(kp: int, ki: int, kd: int, xs: seq<int>)
    requires |xs| <= U32
    ensures var y := Ideal(GainsOf(kp, ki, kd), xs);
            0 <= Positional(kp, ki, kd, xs) - TWO31 * WrapInt32(y) <= |xs| * (TWO31 - 1) <==> Int32(y)
  {
    var y := Ideal(GainsOf(kp, ki, kd), xs);
    DriftIsBounded(kp, ki, kd, xs);
    var k := WrapInt32IsShift(y);
    assert |xs| * (TWO31 - 1) < TWO31 * U32;
    assert TWO31 * WrapInt32(y) == TWO31 * y + k * (TWO31 * U32);
    if !Int32(y) {
      assert k != 0;
    }
  }
}
