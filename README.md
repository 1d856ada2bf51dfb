# LIBOR market model construction and the in-arrears analytic oracle

This project models the two self-contained pieces of a Monte Carlo pricer for a
LIBOR-in-arrears floater under a LIBOR market model:

- the construction of the model (`LIBORMarketModelConstructionWithDynamicsAndMeasureSpecification`):
  the Rebonato "abcd" volatility matrix `d + (a + b tau) exp(-c tau)`, filled in place over
  (simulation step x tenor step), zero once a rate has fixed and rescaled by 0.05 under normal
  dynamics; and the discrete decisions taken while the model is assembled (uniform grids from
  truncated step counts, factor counts, the local-volatility blend parameter, the "measure" and
  "stateSpace" properties);
- the closed-form in-arrears floater value (`LiborInArrearsAnalyticFormula`): the plain floater
  `P(T_i) - P(T_{i+1})` plus the convexity adjustment `P(T_{i+1}) delta^2 L0^2 exp(T_i v)`.

Modelling choices:

- `double` is `real`. `Math.exp` is not computed: every member that uses it takes a parameter
  `exp: real -> real`, and the proofs assume only the laws in module `ExpLaws`
  (`exp(0) = 1`, `exp > 0`, monotone), each required where it is used.
- A time discretisation built from a start 0, a step count and a step size is the sequence
  `0, h, ..., n h` (`TimeGrids.UniformGrid`); its number of time steps is its number of times minus one.
- The Java `(int)` cast is `TimeGrids.JavaIntCast`: truncation toward zero, saturating at the
  bounds of a 32-bit `int`.
- The `double[][]` volatility matrix is a freshly allocated `array2<real>`, filled by the same
  nested loops; the method is proved against the function `VolatilityMatrix`, about which the
  properties are proved as lemmas.
- The assembled model is a record (`LiborMarketModelSetup`) of what the construction decides; the
  objects built from it by the pricing library are not modelled (see below).
- The parameter named `liborVolatility` of the analytic formula is used as a variance (the caller
  passes the integrated variance divided by `T_i`); the model keeps the name and treats it as `v`.
- The code agrees with the textbook in-arrears formula whenever the discount curve is consistent
  with the forward, `P(T_i) = P(T_{i+1}) (1 + delta L0)` (`ValueUnderConsistentCurve`), and then a
  rate fixing today is worth `delta L0`, the value the caller special-cases (`FixingTodayValue`).

## Model

| member | source | states |
|---|---|---|
| TimeGrids.JavaIntCast | src/liborInArrearsLiborMarketModel/LIBORMarketModelConstructionWithDynamicsAndMeasureSpecification.java:155 | the `(int)` cast: within the int range, truncation toward zero (same sign, magnitude at most the input, less than one away from it); saturation at the bounds |
| TimeGrids.StepCount | src/liborInArrearsLiborMarketModel/LIBORMarketModelConstructionWithDynamicsAndMeasureSpecification.java:154-159 | the step count `(int)(horizon / step)` is non-negative for a non-negative horizon and positive step |
| TimeGrids.UniformGrid | src/liborInArrearsLiborMarketModel/LIBORMarketModelConstructionWithDynamicsAndMeasureSpecification.java:154-159 | a grid with n steps has n + 1 times, starts at the start time and advances by exactly one step each time |
| TimeGrids.NumberOfTimeSteps | src/liborInArrearsLiborMarketModel/LIBORMarketModelConstructionWithDynamicsAndMeasureSpecification.java:66-67 | the number of time steps is one less than the number of times |
| TimeGrids.UniformGridIncreasing | src/liborInArrearsLiborMarketModel/LIBORMarketModelConstructionWithDynamicsAndMeasureSpecification.java:154-159 | a grid with a positive step is strictly increasing |
| TimeGrids.StepCountBounds | src/liborInArrearsLiborMarketModel/LIBORMarketModelConstructionWithDynamicsAndMeasureSpecification.java:155 | unless the cast saturates, the truncated count n is the largest with n step <= horizon < (n + 1) step |
| TimeGrids.GridEndsWithinHorizon | src/liborInArrearsLiborMarketModel/LIBORMarketModelConstructionWithDynamicsAndMeasureSpecification.java:154-159 | the last grid time is at most the horizon and one more step passes it |
| LiborMarketModelConstruction.InstantaneousVolatility | src/liborInArrearsLiborMarketModel/LIBORMarketModelConstructionWithDynamicsAndMeasureSpecification.java:72-85 | an entry is 0 for time to maturity <= 0, the Rebonato value before fixing under log-normal, that value times 0.05 under normal |
| LiborMarketModelConstruction.VolatilityMatrix | src/liborInArrearsLiborMarketModel/LIBORMarketModelConstructionWithDynamicsAndMeasureSpecification.java:66-71 | the matrix has one row per simulation time step and one column per tenor time step |
| LiborMarketModelConstruction.VolatilityMatrixAt | src/liborInArrearsLiborMarketModel/LIBORMarketModelConstructionWithDynamicsAndMeasureSpecification.java:72-87 | entry (j, i) is the volatility for time to maturity T_i - t_j |
| LiborMarketModelConstruction.CreateVolatilityStructure | src/liborInArrearsLiborMarketModel/LIBORMarketModelConstructionWithDynamicsAndMeasureSpecification.java:60-91 | the allocated array has (simulation steps) x (tenor steps) cells and every cell holds the matrix entry for its (t_j, T_i) |
| LiborMarketModelConstruction.ZeroAfterFixing | src/liborInArrearsLiborMarketModel/LIBORMarketModelConstructionWithDynamicsAndMeasureSpecification.java:74-84 | entry (j, i) is exactly 0 when T_i <= t_j, for every a, b, c, d and both dynamics |
| LiborMarketModelConstruction.LogNormalEntryIsRebonato | src/liborInArrearsLiborMarketModel/LIBORMarketModelConstructionWithDynamicsAndMeasureSpecification.java:79-81 | before fixing, the log-normal entry is d + (a + b tau) exp(-c tau) with tau = T_i - t_j |
| LiborMarketModelConstruction.NormalIsScaledLogNormal | src/liborInArrearsLiborMarketModel/LIBORMarketModelConstructionWithDynamicsAndMeasureSpecification.java:83-84 | every normal-dynamics entry is 0.05 times the log-normal entry for the same grids and parameters |
| LiborMarketModelConstruction.EqualTimeToMaturityEqualVolatility | src/liborInArrearsLiborMarketModel/LIBORMarketModelConstructionWithDynamicsAndMeasureSpecification.java:72-85 | two cells with equal T_i - t_j hold equal values |
| LiborMarketModelConstruction.FixedRatesFormPrefix | src/liborInArrearsLiborMarketModel/LIBORMarketModelConstructionWithDynamicsAndMeasureSpecification.java:74-78 | on an increasing tenor grid, if column i of row j is zeroed by the fixing guard then so is every earlier column |
| LiborMarketModelConstruction.VolatilityNonNegative | src/liborInArrearsLiborMarketModel/LIBORMarketModelConstructionWithDynamicsAndMeasureSpecification.java:79-81 | with a, b, d >= 0 and a positive exp, no entry is negative |
| LiborMarketModelConstruction.BlendParameter | src/liborInArrearsLiborMarketModel/LIBORMarketModelConstructionWithDynamicsAndMeasureSpecification.java:207-222 | the blend parameter is 0 exactly for log-normal and 1 exactly for normal dynamics |
| LiborMarketModelConstruction.BlendSelectsDynamics | src/liborInArrearsLiborMarketModel/LIBORMarketModelConstructionWithDynamicsAndMeasureSpecification.java:210-222 | with that blend, the scaling (blend L0 + (1 - blend) L) is L under log-normal and L0 under normal dynamics |
| LiborMarketModelConstruction.MeasureProperty | src/liborInArrearsLiborMarketModel/LIBORMarketModelConstructionWithDynamicsAndMeasureSpecification.java:234-241 | the measure string is "terminal" if and only if the measure is TERMINAL, "spot" if and only if SPOT |
| LiborMarketModelConstruction.ModelProperties | src/liborInArrearsLiborMarketModel/LIBORMarketModelConstructionWithDynamicsAndMeasureSpecification.java:232-267 | the properties hold exactly the keys "measure" and "stateSpace", with the measure string and NORMAL |
| LiborMarketModelConstruction.PropertiesIgnoreDynamics | src/liborInArrearsLiborMarketModel/LIBORMarketModelConstructionWithDynamicsAndMeasureSpecification.java:259-267 | the properties are the same for both dynamics, and different measures give different properties |
| LiborMarketModelConstruction.CreateLiborMarketModel | src/liborInArrearsLiborMarketModel/LIBORMarketModelConstructionWithDynamicsAndMeasureSpecification.java:116-300 | the grids come from the truncated step counts, the volatility array is the matrix over those grids, correlation and Brownian factor counts both equal the number of tenor times minus one, blend and properties follow the dynamics and measure |
| LiborInArrearsAnalytic.ConvexityAdjustment | src/OralExam/LiborInArrearsAnalyticFormula.java:23-27 | the adjustment P(T_{i+1}) delta^2 L0^2 exp(T_i v), delta = T_{i+1} - T_i, is non-negative when P(T_{i+1}) >= 0 |
| LiborInArrearsAnalytic.LiborInArrearsFloaterAnalytic | src/OralExam/LiborInArrearsAnalyticFormula.java:20-34 | the in-arrears value is never below the plain floater P(T_i) - P(T_{i+1}) when P(T_{i+1}) >= 0 |
| LiborInArrearsAnalytic.ValueEvenInInitialForward | src/OralExam/LiborInArrearsAnalyticFormula.java:26-27 | the value is unchanged when L0 is replaced by -L0 |
| LiborInArrearsAnalytic.AdjustmentDependsOnTotalVariance | src/OralExam/LiborInArrearsAnalyticFormula.java:27 | for a fixed period length, equal products T_i v give equal adjustments |
| LiborInArrearsAnalytic.NoVarianceAdjustment | src/OralExam/LiborInArrearsAnalyticFormula.java:25-27 | when T_i = 0 or v = 0 the value is P(T_i) - P(T_{i+1}) + P(T_{i+1}) delta^2 L0^2 |
| LiborInArrearsAnalytic.ValueMonotoneInVariance | src/OralExam/LiborInArrearsAnalyticFormula.java:26-27 | for T_i >= 0 and P(T_{i+1}) >= 0 the value is non-decreasing in v |
| LiborInArrearsAnalytic.ValueUnderConsistentCurve | src/OralExam/LiborInArrearsAnalyticFormula.java:23-34 | on a curve with P(T_i) = P(T_{i+1})(1 + delta L0) the value is P(T_{i+1}) delta L0 (1 + delta L0 exp(T_i v)) |
| LiborInArrearsAnalytic.FixingTodayValue | src/liborInArrearsLiborMarketModel/LiborInArrearsTest.java:137-142 | for T_i = 0, P(0) = 1 and a consistent curve the formula gives delta L0, the value the caller uses in that case |

## Left out

- The pricing-library objects built in `createLIBORMarketModel` (forward curve interpolation, the discount curve derived from it, the exponential-decay correlation model, the covariance model, the blended local-volatility model itself, the LIBOR market model, the Euler scheme, the Mersenne-twister Brownian motion, the simulation wrapper): their code is not part of this model. Only the arguments the construction computes for them are recorded. For that reason the parameters `fixingForGivenForwards` and `givenForwards`, which only feed the forward curve, are not parameters of `CreateLiborMarketModel`.
- BlendSelectsDynamics: the scaling formula comes from the comment describing the blended local-volatility model; its implementation is not part of this model.
- The product valuation `LiborInArrears.getValue` (LIBOR, numeraire and random-variable arithmetic of the library) and the reporting driver (printing, plotting, Monte Carlo comparisons, the integrated-variance division) are not modelled.
- Floating point: rounding, overflow, NaN and infinities are not modelled; `Math.exp` is an abstract parameter with three laws. The time grids are exact multiples of the step; any rounding of grid times by the library is not modelled.
- CreateLiborMarketModel: requires a non-negative horizon and positive step sizes. A zero step makes the Java division produce an infinity or NaN and a negative count reaches library code that is not part of this model; the configuration layer is expected to exclude both.
- CreateLiborMarketModel: the Java enum arguments may be null, which a Dafny datatype cannot be. The source tests them against different constants: the volatility matrix is rescaled only when the dynamics equal NORMAL, while the blend is 0.0 only when they equal LOGNORMAL. A null dynamics would therefore get the unscaled (log-normal sized) matrix together with the normal blend 1.0, and a null measure would get "spot". The model covers only non-null arguments and does not capture that combination.
- CreateVolatilityStructure: requires grids with at least one time (a discretisation always holds its start time); with an empty grid Java would fail allocating a negative-size array. A rectangular `array2` stands for the Java array of row arrays, so row aliasing is not modelled.
- The 0.05 normal-dynamics scaling is modelled as the constant it is; no meaning is attached to its value.
- Pseudo-random generation, seeding, path counts and anything statistical are passed through or not modelled.
