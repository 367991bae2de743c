/** The incremental Q31 PID controller, and how far truncation lets it drift from the positional one. */
module PidQ31 {
  import Arithmetic
  import opened FixedPoint

  datatype Gains = Gains(a0: Q31, a1: Q31, a2: Q31)

  /** Sample i of a signal that was silent before it began. */
  function At(xs: seq<Q31>, i: int): Q31 {
    if 0 <= i < |xs| then xs[i] else 0
  }

  /** The three products for the last sample, at full width. */
  function Acc(g: Gains, xs: seq<Q31>): int {
    var n := |xs|;
    g.a0 * At(xs, n - 1) + g.a1 * At(xs, n - 2) + g.a2 * At(xs, n - 3)
  }

  /** The new output from the accumulator and the previous output, every cast written out. */
  function Updated(acc: int, out: Q31): Q31 {
    Wrap32(Wrap32(Wrap64(acc) / TWO31) + out)
  }

  /** The output after the samples xs from the reset state. */
  function Output(g: Gains, xs: seq<Q31>): Q31 {
    if xs == [] then 0
    else Updated(Acc(g, xs), Output(g, xs[..|xs| - 1]))
  }

  lemma WrapSum64(a: int, b: int, c: int)
    ensures Wrap64(Wrap64(a + b) + c) == Wrap64(a + b + c)
  {
  }

  lemma AccGrows(g: Gains, xs: seq<Q31>, x: Q31)
    ensures Acc(g, xs + [x]) == g.a0 * x + g.a1 * At(xs, |xs| - 1) + g.a2 * At(xs, |xs| - 2)
    ensures forall i :: 0 <= i <= |xs| ==> At(xs + [x], i) == if i < |xs| then At(xs, i) else x
  {
  }

  lemma OutputOf(g: Gains, xs: seq<Q31>, ys: seq<Q31>)
    requires xs != [] && ys == xs[..|xs| - 1]
    ensures Output(g, xs) == Updated(Acc(g, xs), Output(g, ys))
  {
  }

  /** One more sample. */
  lemma OutputGrows(g: Gains, xs: seq<Q31>, x: Q31)
    ensures var n := |xs|;
            Output(g, xs + [x]) == Updated(g.a0 * x + g.a1 * At(xs, n - 1) + g.a2 * At(xs, n - 2), Output(g, xs))
    ensures forall i :: 0 <= i <= |xs| ==> At(xs + [x], i) == if i < |xs| then At(xs, i) else x
  {
    AccGrows(g, xs, x);
    OutputOf(g, xs + [x], xs);
  }

  class Pid {
    const gains: Gains
    const state: array<Q31>

    ghost var history: seq<Q31>

    ghost predicate Valid()
      reads this, state
    {
      && state.Length == 3
      && state[0] == At(history, |history| - 1)
      && state[1] == At(history, |history| - 2)
      && state[2] == Output(gains, history)
    }

    /** The reset state. */
    constructor (gains: Gains)
      ensures Valid() && fresh(state) && this.gains == gains && history == []
    {
      this.gains := gains;
      state := new Q31[3](i => 0);
      history := [];
    }

    /** arm_pid_q31 */
    method Process(input: Q31) returns (out: Q31)
      requires Valid()
      modifies this, state
      ensures Valid() && history == old(history) + [input]
      ensures out == Output(gains, history)
    {
      ghost var n := |history|;
      ghost var p1, p2 := gains.a1 * At(history, n - 1), gains.a2 * At(history, n - 2);
      Arithmetic.MulBound(gains.a0, input, TWO31, TWO31);
      var acc: Q63 := gains.a0 * input;
      WrapSum64(acc, p1, p2);
      acc := Wrap64(acc + gains.a1 * state[0]);
      acc := Wrap64(acc + gains.a2 * state[1]);
      out := Wrap32(acc / TWO31);
      out := Wrap32(out + state[2]);
      state[1] := state[0];
      state[0] := input;
      state[2] := out;
      OutputGrows(gains, history, input);
      history := history + [input];
    }
  }

  lemma WrapSum32(a: int, b: int)
    ensures Wrap32(Wrap32(a) + Wrap32(b)) == Wrap32(a + b)
  {
  }

  function Sum(xs: seq<Q31>): int {
    if xs == [] then 0 else Sum(xs[..|xs| - 1]) + xs[|xs| - 1]
  }

  /** The controller form: Kp times the sample, Ki times the sum so far, Kd times the last difference. */
  function Positional(kp: int, ki: int, kd: int, xs: seq<Q31>): int {
    var n := |xs|;
    kp * At(xs, n - 1) + ki * Sum(xs) + kd * (At(xs, n - 1) - At(xs, n - 2))
  }

  /** The truncated increments added up without wrapping. */
  function Increments(g: Gains, xs: seq<Q31>): int {
    if xs == [] then 0 else Increments(g, xs[..|xs| - 1]) + Acc(g, xs) / TWO31
  }

  /** The 64-bit accumulator is wide enough for every sample. */
  predicate AccumulatorFits(g: Gains, xs: seq<Q31>) {
    forall k :: 0 < k <= |xs| ==> Fits(Acc(g, xs[..k]), TWO63)
  }

  predicate ControllerGains(g: Gains, kp: int, ki: int, kd: int) {
    g.a0 == kp + ki + kd && g.a1 == -kp - 2 * kd && g.a2 == kd
  }

  lemma WrapFits(x: int)
    ensures Fits(x, TWO63) ==> Wrap64(x) == x
    ensures Fits(x, TWO31) ==> Wrap32(x) == x
  {
  }

  /** Whatever the 32-bit additions do on the way, the output is the sum of the increments modulo 2^32. */
  lemma {:induction false} OutputIsWrappedSum(g: Gains, xs: seq<Q31>)
    requires AccumulatorFits(g, xs)
    ensures Output(g, xs) == Wrap32(Increments(g, xs))
  {
    if xs != [] {
      var ys := xs[..|xs| - 1];
      forall k | 0 < k <= |ys|
        ensures Fits(Acc(g, ys[..k]), TWO63)
      {
        assert ys[..k] == xs[..k];
      }
      OutputIsWrappedSum(g, ys);
      assert xs[..|xs|] == xs;
      WrapFits(Acc(g, xs));
      WrapSum32(Acc(g, xs) / TWO31, Increments(g, ys));
    }
  }

  lemma Telescope(kp: int, ki: int, kd: int, x: int, y: int, z: int, s: int)
    ensures kp * x + ki * (s + x) + kd * (x - y)
            == kp * y + ki * s + kd * (y - z) + (kp + ki + kd) * x + (-kp - 2 * kd) * y + kd * z
  {
  }

  /** The increments telescope to the positional form; each one is truncated by less than one unit. */
  lemma {:induction false} IncrementsTelescope(g: Gains, kp: int, ki: int, kd: int, xs: seq<Q31>)
    requires ControllerGains(g, kp, ki, kd)
    ensures 0 <= Positional(kp, ki, kd, xs) - TWO31 * Increments(g, xs) <= |xs| * (TWO31 - 1)
  {
    if xs != [] {
      var n, ys := |xs|, xs[..|xs| - 1];
      IncrementsTelescope(g, kp, ki, kd, ys);
      var x, y, z := At(xs, n - 1), At(xs, n - 2), At(xs, n - 3);
      assert At(ys, n - 2) == y && At(ys, n - 3) == z;
      Telescope(kp, ki, kd, x, y, z, Sum(ys));
      assert Positional(kp, ki, kd, xs) == Positional(kp, ki, kd, ys) + Acc(g, xs);
    }
  }

  /** A wrapped sum is off by a multiple of 2^32, far more than the truncation. */
  lemma WrapMisses(p: int, s: int, n: nat)
    requires 0 <= p - TWO31 * s <= n * (TWO31 - 1) && n <= TWO32
    ensures 0 <= p - TWO31 * Wrap32(s) <= n * (TWO31 - 1) ==> Fits(s, TWO31)
  {
    var k := (s + TWO31) / TWO32;
    assert Wrap32(s) == s - TWO32 * k;
    assert n * (TWO31 - 1) < TWO63;
  }

  /** From reset, after any number of samples without accumulator overflow, the output lies below the positional
      controller by less than one unit per sample - provided, and (for up to 2^32 samples) only if, the
      sum of the increments fits the 32-bit output. */
  lemma DriftIsBounded(g: Gains, kp: int, ki: int, kd: int, xs: seq<Q31>)
    requires ControllerGains(g, kp, ki, kd) && AccumulatorFits(g, xs)
    ensures var gap := Positional(kp, ki, kd, xs) - TWO31 * Output(g, xs);
            && (Fits(Increments(g, xs), TWO31) ==> 0 <= gap <= |xs| * (TWO31 - 1))
            && (|xs| <= TWO32 && 0 <= gap <= |xs| * (TWO31 - 1) ==> Fits(Increments(g, xs), TWO31))
  {
    IncrementsTelescope(g, kp, ki, kd, xs);
    OutputIsWrappedSum(g, xs);
    WrapFits(Increments(g, xs));
    if |xs| <= TWO32 {
      WrapMisses(Positional(kp, ki, kd, xs), Increments(g, xs), |xs|);
    }
  }

  /** No accumulator overflows, and none is at the very bottom of its range. */
  ghost predicate Roomy(g: Gains, xs: seq<Q31>) {
    forall k :: 0 < k <= |xs| ==> TWO31 - TWO63 <= Acc(g, xs[..k]) < TWO63
  }

  /** Input scaled down by two bits, as the documentation asks, never overflows the accumulator, for any gains. */
  lemma ScaledInputFits(g: Gains, xs: seq<Q31>)
    requires forall x <- xs :: -0x2000_0000 <= x <= 0x2000_0000
    ensures AccumulatorFits(g, xs) && Roomy(g, xs)
  {
    forall k | 0 < k <= |xs|
      ensures TWO31 - TWO63 <= Acc(g, xs[..k]) < TWO63
    {
      var ys := xs[..k];
      forall i | 0 <= i < k
        ensures -0x2000_0000 <= At(ys, i) <= 0x2000_0000
      {
        assert ys[i] in xs;
      }
      Arithmetic.MulBound(g.a0, At(ys, k - 1), TWO31, 0x2000_0000);
      Arithmetic.MulBound(g.a1, At(ys, k - 2), TWO31, 0x2000_0000);
      Arithmetic.MulBound(g.a2, At(ys, k - 3), TWO31, 0x2000_0000);
    }
  }

  // ----- saturation

  /** What the documentation saturates, from the output before. */
  function DocumentedSum(g: Gains, xs: seq<Q31>, out: Q31): int {
    Wrap64(Acc(g, xs)) / TWO31 + out
  }

  /** The output that the documentation describes: the wrapped accumulator, truncated, added and saturated. */
  function Documented(g: Gains, xs: seq<Q31>): Q31 {
    if xs == [] then 0 else Saturate(DocumentedSum(g, xs, Documented(g, xs[..|xs| - 1])), TWO31)
  }

  /** The sums that wrapping does not harm: those that fit, and the lowest of all, which wraps to the lowest output. */
  predicate Harmless(sum: int) {
    Fits(sum, TWO31) || sum == -TWO32 - TWO31
  }

  lemma WrapOnce(s: int)
    requires -TWO32 - TWO31 <= s < TWO32 + TWO31
    ensures Wrap32(s) == if s >= TWO31 then s - TWO32 else if s < -TWO31 then s + TWO32 else s
  {
  }

  lemma WrapTwice(v: int, out: Q31)
    requires -TWO32 <= v < TWO32
    ensures Wrap32(Wrap32(v) + out) == Saturate(v + out, TWO31) <==> Harmless(v + out)
    ensures Wrap32(Wrap32(v) + out)
            == if v + out >= TWO31 then v + out - TWO32 else if v + out < -TWO31 then v + out + TWO32 else v + out
  {
    WrapSum32(v, out);
    WrapFits(out);
    WrapOnce(v + out);
  }

  /** One sample: the new output is the saturated sum exactly when the sum is harmless. */
  lemma UpdateSaturatesExactly(acc: int, out: Q31)
    ensures Updated(acc, out) == Saturate(Wrap64(acc) / TWO31 + out, TWO31) <==> Harmless(Wrap64(acc) / TWO31 + out)
    ensures var s := Wrap64(acc) / TWO31 + out;
            Updated(acc, out) == if s >= TWO31 then s - TWO32 else if s < -TWO31 then s + TWO32 else s
  {
    var v := Wrap64(acc) / TWO31;
    assert -TWO32 <= v < TWO32;
    WrapTwice(v, out);
  }

  /** Every output of the run is the documented one. */
  ghost predicate AsDocumented(g: Gains, xs: seq<Q31>) {
    forall k :: 0 <= k <= |xs| ==> Output(g, xs[..k]) == Documented(g, xs[..k])
  }

  /** The documented controller never meets a sum that wrapping would harm. */
  ghost predicate NeverHarmed(g: Gains, xs: seq<Q31>) {
    forall k :: 0 < k <= |xs| ==> Harmless(DocumentedSum(g, xs[..k], Documented(g, xs[..k - 1])))
  }

  lemma DocumentedLast(g: Gains, xs: seq<Q31>, n: nat)
    requires |xs| == n + 1
    ensures AsDocumented(g, xs) <==> AsDocumented(g, xs[..n]) && Output(g, xs) == Documented(g, xs)
    ensures Output(g, xs) == Updated(Acc(g, xs), Output(g, xs[..n]))
    ensures Documented(g, xs) == Saturate(DocumentedSum(g, xs, Documented(g, xs[..n])), TWO31)
    ensures AsDocumented(g, xs[..n]) ==> Output(g, xs[..n]) == Documented(g, xs[..n])
  {
    assert xs[..n + 1] == xs && xs[..n][..n] == xs[..n];
    assert forall k :: 0 <= k <= n ==> xs[..n][..k] == xs[..k];
  }

  lemma HarmedLast(g: Gains, xs: seq<Q31>, n: nat)
    requires |xs| == n + 1
    ensures NeverHarmed(g, xs)
            <==> NeverHarmed(g, xs[..n]) && Harmless(DocumentedSum(g, xs, Documented(g, xs[..n])))
  {
    assert xs[..n + 1] == xs;
    assert forall k :: 0 <= k <= n ==> xs[..n][..k] == xs[..k];
  }

  /** A run keeps to the documentation exactly when the documented controller has nothing to saturate. */
  lemma {:induction false} RunSaturatesExactly(g: Gains, xs: seq<Q31>)
    ensures AsDocumented(g, xs) <==> NeverHarmed(g, xs)
  {
    if xs != [] {
      var n := |xs| - 1;
      RunSaturatesExactly(g, xs[..n]);
      DocumentedLast(g, xs, n);
      HarmedLast(g, xs, n);
      UpdateSaturatesExactly(Acc(g, xs), Documented(g, xs[..n]));
    }
  }

  ghost predicate IncrementsFit(g: Gains, xs: seq<Q31>) {
    forall k :: 0 <= k <= |xs| ==> Fits(Increments(g, xs[..k]), TWO31)
  }

  lemma FitLast(g: Gains, xs: seq<Q31>, n: nat)
    requires |xs| == n + 1
    ensures IncrementsFit(g, xs) <==> IncrementsFit(g, xs[..n]) && Fits(Increments(g, xs), TWO31)
    ensures Increments(g, xs) == Increments(g, xs[..n]) + Acc(g, xs) / TWO31
    ensures Roomy(g, xs) ==> Roomy(g, xs[..n]) && TWO31 - TWO63 <= Acc(g, xs) < TWO63
  {
    assert xs[..n + 1] == xs;
    assert forall k :: 0 <= k <= n ==> xs[..n][..k] == xs[..k];
  }

  lemma FitsOnce(acc: int, out: Q31)
    requires TWO31 - TWO63 <= acc < TWO63
    ensures Updated(acc, out) == Saturate(Wrap64(acc) / TWO31 + out, TWO31) <==> Fits(acc / TWO31 + out, TWO31)
    ensures Fits(acc / TWO31 + out, TWO31) ==> Updated(acc, out) == acc / TWO31 + out
  {
    UpdateSaturatesExactly(acc, out);
    WrapFits(acc);
    assert -TWO32 < acc / TWO31;
    WrapTwice(acc / TWO31, out);
  }

  /** With room in the accumulator: exactly when the exact sum of the increments never leaves 32 bits. */
  lemma {:induction false} RunFitsExactly(g: Gains, xs: seq<Q31>)
    requires Roomy(g, xs)
    ensures AsDocumented(g, xs) <==> IncrementsFit(g, xs)
    ensures AsDocumented(g, xs) ==> Output(g, xs) == Increments(g, xs)
  {
    if xs != [] {
      var n := |xs| - 1;
      FitLast(g, xs, n);
      RunFitsExactly(g, xs[..n]);
      DocumentedLast(g, xs, n);
      if AsDocumented(g, xs[..n]) {
        FitsOnce(Acc(g, xs), Output(g, xs[..n]));
      }
    }
  }

  /** With input scaled down as documented, a run keeps to the documentation exactly when the sum fits. */
  lemma ScaledRunExactly(g: Gains, xs: seq<Q31>)
    requires forall x <- xs :: -0x2000_0000 <= x <= 0x2000_0000
    ensures AsDocumented(g, xs) <==> IncrementsFit(g, xs)
  {
    ScaledInputFits(g, xs);
    RunFitsExactly(g, xs);
  }

  /** The position p, in 62 fractional bits, is in range, with the given room below and excess above. */
  predicate Within(p: int, room: int, excess: int) {
    -TWO31 * TWO31 + room <= p <= TWO31 * TWO31 - 1 + excess
  }

  /** What a caller can see: the run keeps to the documentation if the positional controller stays in range by one unit
      per sample below, and only if it stays in range by one unit per sample above. */
  lemma PositionalDecides(g: Gains, kp: int, ki: int, kd: int, xs: seq<Q31>)
    requires ControllerGains(g, kp, ki, kd) && Roomy(g, xs)
    ensures (forall k :: 0 <= k <= |xs| ==> Within(Positional(kp, ki, kd, xs[..k]), k * (TWO31 - 1), 0))
            ==> AsDocumented(g, xs)
    ensures AsDocumented(g, xs)
            ==> forall k :: 0 <= k <= |xs| ==> Within(Positional(kp, ki, kd, xs[..k]), 0, k * (TWO31 - 1))
  {
    RunFitsExactly(g, xs);
    forall k | 0 <= k <= |xs|
      ensures Within(Positional(kp, ki, kd, xs[..k]), k * (TWO31 - 1), 0) ==> Fits(Increments(g, xs[..k]), TWO31)
      ensures Fits(Increments(g, xs[..k]), TWO31) ==> Within(Positional(kp, ki, kd, xs[..k]), 0, k * (TWO31 - 1))
    {
      IncrementsTelescope(g, kp, ki, kd, xs[..k]);
    }
  }

  /** The documentation says that the output saturates; it wraps. Two full-scale samples into a
      full-scale integrator, whose sum is almost 2^32, come out as -4. */
  lemma OutputWraps()
    ensures var m: Q31 := TWO31 - 1; Output(Gains(m, 0, 0), [m, m]) == -4
  {
    var m: Q31 := TWO31 - 1;
    var g := Gains(m, 0, 0);
    assert [m, m][..1] == [m] && [m][..0] == [];
    assert m * m == 0x3FFF_FFFF_0000_0001;
    assert Output(g, [m]) == 0x7FFF_FFFE;
  }
}
