/** Time discretisations: uniform grids 0, h, 2h, ..., n h, and the Java
    `(int)` cast that turns a horizon and a step size into a number of steps. */
module TimeGrids {

  /** Bounds of Java's 32-bit `int` */
  const MaxInt: int := 0x7fff_ffff
  const MinInt: int := -0x8000_0000

  /** Java's narrowing cast `(int) x` of a (finite) double: truncation toward zero,
      saturating at the bounds of `int`. */
  function JavaIntCast(x: real): (r: int)
    ensures MinInt <= r <= MaxInt
    ensures 0.0 <= x ==> 0 <= r && r as real <= x
    ensures x <= 0.0 ==> r <= 0 && x <= r as real
    ensures (MinInt as real) < x < (MaxInt as real) ==> x - 1.0 < r as real < x + 1.0
    ensures x >= MaxInt as real ==> r == MaxInt
    ensures x <= MinInt as real ==> r == MinInt
  {
    if x >= MaxInt as real then MaxInt
    else if x <= MinInt as real then MinInt
    else if x >= 0.0 then x.Floor
    else -((-x).Floor)
  }

  /** The number of steps `(int) (horizon / step)` */
  function StepCount(horizon: real, step: real): (n: int)
    requires step != 0.0
    ensures horizon >= 0.0 && step > 0.0 ==> n >= 0
  {
    JavaIntCast(horizon / step)
  }

  /** The grid start, start + step, ..., start + n step */
  function UniformGrid(start: real, n: nat, step: real): (g: seq<real>)
    ensures |g| == n + 1 && g[0] == start
    ensures forall i :: 0 <= i < n ==> g[i + 1] - g[i] == step
  {
    seq(n + 1, i => start + i as real * step)
  }

  /** A time discretisation with n + 1 times has n time steps. */
  function NumberOfTimeSteps(times: seq<real>): (n: int)
    requires |times| >= 1
    ensures n + 1 == |times|
  {
    |times| - 1
  }

  /** Times strictly increasing */
  ghost predicate StrictlyIncreasing(times: seq<real>)
  {
    forall i, k :: 0 <= i < k < |times| ==> times[i] < times[k]
  }

  lemma {:induction false} UniformGridAt(start: real, n: nat, step: real, i: nat)
    requires i <= n
    ensures UniformGrid(start, n, step)[i] == start + i as real * step
  {
  }

  /** A grid with a positive step is strictly increasing. */
  lemma UniformGridIncreasing(start: real, n: nat, step: real)
    requires step > 0.0
    ensures StrictlyIncreasing(UniformGrid(start, n, step))
  {
    var g := UniformGrid(start, n, step);
    forall i, k | 0 <= i < k < |g| ensures g[i] < g[k] {
      StepsAccumulate(g, step, i, k);
    }
  }

  /** Positive steps between consecutive times accumulate: a later time is larger. */
  lemma {:induction false} StepsAccumulate(g: seq<real>, step: real, i: nat, k: nat)
    requires step > 0.0
    requires forall m :: 0 <= m < |g| - 1 ==> g[m + 1] - g[m] == step
    requires i < k < |g|
    ensures g[i] < g[k]
    decreases k - i
  {
    if i + 1 < k {
      StepsAccumulate(g, step, i, k - 1);
    }
  }

  /** Unless the cast saturates, the truncated step count is the largest n with
      n * step <= horizon. */
  lemma StepCountBounds(horizon: real, step: real)
    requires horizon >= 0.0 && step > 0.0
    requires horizon / step < MaxInt as real
    ensures StepCount(horizon, step) as real * step <= horizon
    ensures horizon < (StepCount(horizon, step) + 1) as real * step
  {
    var n := StepCount(horizon, step);
    assert n as real <= horizon / step < (n + 1) as real;
    BracketByMultiples(horizon, step, n);
  }

  /** n <= h / s < n + 1 means n s <= h < (n + 1) s, for s > 0. */
  lemma BracketByMultiples(h: real, s: real, n: int)
    requires s > 0.0
    requires n as real <= h / s < (n + 1) as real
    ensures n as real * s <= h < (n + 1) as real * s
  {
  }

  /** The last time of the grid built from a horizon and a step does not pass the
      horizon, and one more step would. */
  lemma GridEndsWithinHorizon(horizon: real, step: real)
    requires horizon >= 0.0 && step > 0.0
    requires horizon / step < MaxInt as real
    ensures var g := UniformGrid(0.0, StepCount(horizon, step), step);
      g[|g| - 1] <= horizon < g[|g| - 1] + step
  {
    var n := StepCount(horizon, step);
    UniformGridAt(0.0, n, step, n);
    StepCountBounds(horizon, step);
    assert (n + 1) as real * step == n as real * step + step;
  }
}
