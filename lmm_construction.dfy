/** Construction of a LIBOR market model with a chosen dynamics and pricing measure:
    the Rebonato "abcd" volatility matrix filled in place, and the discrete decisions
    (grid sizes, factor counts, local-volatility blend, model properties) taken
    while the model is assembled. */
module LiborMarketModelConstruction {
  import opened TimeGrids
  import opened ExpLaws

  /** The pricing measure the model is simulated under */
  datatype Measure = Spot | Terminal

  /** The forward-rate dynamics: additive (normal) or proportional (log-normal) */
  datatype Dynamics = Normal | LogNormal

  /** Factor applied to every volatility under normal dynamics */
  const NormalVolatilityScaling: real := 0.05

  /** Name of the NORMAL state space, the value of the "stateSpace" property */
  const NormalStateSpace: string := "NORMAL"

  /** The Rebonato instantaneous volatility d + (a + b tau) exp(-c tau) of a forward
      rate whose fixing is tau years away. */
  function RebonatoVolatility(a: real, b: real, c: real, d: real, timeToMaturity: real, exp: real -> real): real
  {
    d + (a + b * timeToMaturity) * exp(-c * timeToMaturity)
  }

  /** One entry of the volatility structure: zero once the rate has fixed, the
      Rebonato value otherwise, rescaled under normal dynamics. */
  function InstantaneousVolatility(a: real, b: real, c: real, d: real, timeToMaturity: real,
                                   dynamics: Dynamics, exp: real -> real): (v: real)
    ensures timeToMaturity <= 0.0 ==> v == 0.0
    ensures timeToMaturity > 0.0 && dynamics == LogNormal ==> v == RebonatoVolatility(a, b, c, d, timeToMaturity, exp)
    ensures timeToMaturity > 0.0 && dynamics == Normal ==>
      v == RebonatoVolatility(a, b, c, d, timeToMaturity, exp) * NormalVolatilityScaling
  {
    var unscaled := if timeToMaturity <= 0.0 then 0.0 else RebonatoVolatility(a, b, c, d, timeToMaturity, exp);
    if dynamics == Normal then unscaled * NormalVolatilityScaling else unscaled
  }

  /** The volatility structure as a matrix: row j is simulation time t_j, column i
      is tenor time T_i, for every time step of either grid (the last time of each
      grid has no row or column). */
  function VolatilityMatrix(a: real, b: real, c: real, d: real, simulationTimes: seq<real>,
                            tenureStructureTimes: seq<real>, dynamics: Dynamics, exp: real -> real): (m: seq<seq<real>>)
    requires |simulationTimes| >= 1 && |tenureStructureTimes| >= 1
    ensures |m| == NumberOfTimeSteps(simulationTimes)
    ensures forall j :: 0 <= j < |m| ==> |m[j]| == NumberOfTimeSteps(tenureStructureTimes)
  {
    seq(|simulationTimes| - 1, j requires 0 <= j < |simulationTimes| - 1 =>
      seq(|tenureStructureTimes| - 1, i requires 0 <= i < |tenureStructureTimes| - 1 =>
        InstantaneousVolatility(a, b, c, d, tenureStructureTimes[i] - simulationTimes[j], dynamics, exp)))
  }

  /** Entry (j, i) of the matrix is the volatility for time to maturity T_i - t_j. */
  lemma VolatilityMatrixAt(a: real, b: real, c: real, d: real, simulationTimes: seq<real>,
                           tenureStructureTimes: seq<real>, dynamics: Dynamics, exp: real -> real, j: int, i: int)
    requires 0 <= j < |simulationTimes| - 1 && 0 <= i < |tenureStructureTimes| - 1
    ensures VolatilityMatrix(a, b, c, d, simulationTimes, tenureStructureTimes, dynamics, exp)[j][i]
         == InstantaneousVolatility(a, b, c, d, tenureStructureTimes[i] - simulationTimes[j], dynamics, exp)
  {
  }

  /** Fills the (simulation step x tenor step) volatility matrix, one entry per
      pair, with the time-to-maturity guard and the normal-dynamics rescaling. */
  method CreateVolatilityStructure(a: real, b: real, c: real, d: real, simulationTimes: seq<real>,
                                   tenureStructureTimes: seq<real>, dynamics: Dynamics, exp: real -> real)
    returns (volatility: array2<real>)
    requires |simulationTimes| >= 1 && |tenureStructureTimes| >= 1
    ensures fresh(volatility)
    ensures volatility.Length0 == NumberOfTimeSteps(simulationTimes)
    ensures volatility.Length1 == NumberOfTimeSteps(tenureStructureTimes)
    ensures forall j, i :: 0 <= j < volatility.Length0 && 0 <= i < volatility.Length1 ==>
      volatility[j, i] == VolatilityMatrix(a, b, c, d, simulationTimes, tenureStructureTimes, dynamics, exp)[j][i]
  {
    var numberOfSimulationTimes := NumberOfTimeSteps(simulationTimes);
    var numberOfTenureStructureTimes := NumberOfTimeSteps(tenureStructureTimes);
    volatility := new real[numberOfSimulationTimes, numberOfTenureStructureTimes];
    ghost var m := VolatilityMatrix(a, b, c, d, simulationTimes, tenureStructureTimes, dynamics, exp);

    for timeIndex := 0 to numberOfSimulationTimes
      invariant forall j, i :: 0 <= j < timeIndex && 0 <= i < numberOfTenureStructureTimes ==> volatility[j, i] == m[j][i]
    {
      for liborIndex := 0 to numberOfTenureStructureTimes
        invariant forall j, i :: 0 <= j < timeIndex && 0 <= i < numberOfTenureStructureTimes ==> volatility[j, i] == m[j][i]
        invariant forall i :: 0 <= i < liborIndex ==> volatility[timeIndex, i] == m[timeIndex][i]
      {
        var currentTime := simulationTimes[timeIndex];
        var currentMaturity := tenureStructureTimes[liborIndex];
        var timeToMaturity := currentMaturity - currentTime;
        var instVolatility: real;
        if timeToMaturity <= 0.0 {
          instVolatility := 0.0;  // the rate has already fixed
        } else {
          instVolatility := d + (a + b * timeToMaturity) * exp(-c * timeToMaturity);
        }
        if dynamics == Normal {
          instVolatility := instVolatility * NormalVolatilityScaling;
        }
        assert instVolatility == InstantaneousVolatility(a, b, c, d, timeToMaturity, dynamics, exp);
        VolatilityMatrixAt(a, b, c, d, simulationTimes, tenureStructureTimes, dynamics, exp, timeIndex, liborIndex);
        volatility[timeIndex, liborIndex] := instVolatility;
      }
    }
  }

  /** Once tenor time T_i is at or before simulation time t_j, the entry is exactly
      zero, whatever the parameters and the dynamics. */
  lemma ZeroAfterFixing(a: real, b: real, c: real, d: real, simulationTimes: seq<real>,
                        tenureStructureTimes: seq<real>, dynamics: Dynamics, exp: real -> real, j: int, i: int)
    requires 0 <= j < |simulationTimes| - 1 && 0 <= i < |tenureStructureTimes| - 1
    requires tenureStructureTimes[i] <= simulationTimes[j]
    ensures VolatilityMatrix(a, b, c, d, simulationTimes, tenureStructureTimes, dynamics, exp)[j][i] == 0.0
  {
  }

  /** Before fixing, the log-normal entry is the Rebonato volatility of T_i - t_j. */
  lemma LogNormalEntryIsRebonato(a: real, b: real, c: real, d: real, simulationTimes: seq<real>,
                                 tenureStructureTimes: seq<real>, exp: real -> real, j: int, i: int)
    requires 0 <= j < |simulationTimes| - 1 && 0 <= i < |tenureStructureTimes| - 1
    requires tenureStructureTimes[i] > simulationTimes[j]
    ensures VolatilityMatrix(a, b, c, d, simulationTimes, tenureStructureTimes, LogNormal, exp)[j][i]
         == d + (a + b * (tenureStructureTimes[i] - simulationTimes[j])) * exp(-c * (tenureStructureTimes[i] - simulationTimes[j]))
  {
    VolatilityMatrixAt(a, b, c, d, simulationTimes, tenureStructureTimes, LogNormal, exp, j, i);
  }

  /** Under normal dynamics every entry is the log-normal entry times 0.05; in
      particular a fixed rate keeps volatility zero. */
  lemma NormalIsScaledLogNormal(a: real, b: real, c: real, d: real, simulationTimes: seq<real>,
                                tenureStructureTimes: seq<real>, exp: real -> real)
    requires |simulationTimes| >= 1 && |tenureStructureTimes| >= 1
    ensures var normal := VolatilityMatrix(a, b, c, d, simulationTimes, tenureStructureTimes, Normal, exp);
            var logNormal := VolatilityMatrix(a, b, c, d, simulationTimes, tenureStructureTimes, LogNormal, exp);
            forall j, i :: 0 <= j < |normal| && 0 <= i < |normal[j]| ==>
              normal[j][i] == NormalVolatilityScaling * logNormal[j][i]
  {
  }

  /** An entry depends on its cell only through the time to maturity: two cells
      with the same T_i - t_j hold the same volatility. */
  lemma EqualTimeToMaturityEqualVolatility(a: real, b: real, c: real, d: real, simulationTimes: seq<real>,
                                           tenureStructureTimes: seq<real>, dynamics: Dynamics, exp: real -> real,
                                           j: int, i: int, j': int, i': int)
    requires 0 <= j < |simulationTimes| - 1 && 0 <= i < |tenureStructureTimes| - 1
    requires 0 <= j' < |simulationTimes| - 1 && 0 <= i' < |tenureStructureTimes| - 1
    requires tenureStructureTimes[i] - simulationTimes[j] == tenureStructureTimes[i'] - simulationTimes[j']
    ensures var m := VolatilityMatrix(a, b, c, d, simulationTimes, tenureStructureTimes, dynamics, exp);
            m[j][i] == m[j'][i']
  {
  }

  /** On an increasing tenor grid the rates already fixed at t_j form a prefix of
      row j: if column i is zeroed by the guard, so is every earlier column. */
  lemma FixedRatesFormPrefix(a: real, b: real, c: real, d: real, simulationTimes: seq<real>,
                             tenureStructureTimes: seq<real>, dynamics: Dynamics, exp: real -> real, j: int, i: int)
    requires StrictlyIncreasing(tenureStructureTimes)
    requires 0 <= j < |simulationTimes| - 1 && 0 <= i < |tenureStructureTimes| - 1
    requires tenureStructureTimes[i] <= simulationTimes[j]
    ensures var m := VolatilityMatrix(a, b, c, d, simulationTimes, tenureStructureTimes, dynamics, exp);
            forall k :: 0 <= k <= i ==> m[j][k] == 0.0
  {
  }

  /** With a, b, d >= 0 (and exp positive) no entry is negative. */
  lemma VolatilityNonNegative(a: real, b: real, c: real, d: real, simulationTimes: seq<real>,
                              tenureStructureTimes: seq<real>, dynamics: Dynamics, exp: real -> real)
    requires |simulationTimes| >= 1 && |tenureStructureTimes| >= 1
    requires a >= 0.0 && b >= 0.0 && d >= 0.0
    requires ExpPositive(exp)
    ensures var m := VolatilityMatrix(a, b, c, d, simulationTimes, tenureStructureTimes, dynamics, exp);
            forall j, i :: 0 <= j < |m| && 0 <= i < |m[j]| ==> m[j][i] >= 0.0
  {
    var m := VolatilityMatrix(a, b, c, d, simulationTimes, tenureStructureTimes, dynamics, exp);
    forall j, i | 0 <= j < |m| && 0 <= i < |m[j]| ensures m[j][i] >= 0.0 {
      VolatilityMatrixAt(a, b, c, d, simulationTimes, tenureStructureTimes, dynamics, exp, j, i);
      var tau := tenureStructureTimes[i] - simulationTimes[j];
      if tau > 0.0 {
        RebonatoNonNegative(a, b, c, d, tau, exp);
      }
    }
  }

  lemma RebonatoNonNegative(a: real, b: real, c: real, d: real, timeToMaturity: real, exp: real -> real)
    requires a >= 0.0 && b >= 0.0 && d >= 0.0 && timeToMaturity > 0.0
    requires ExpPositive(exp)
    ensures RebonatoVolatility(a, b, c, d, timeToMaturity, exp) >= 0.0
  {
    assert b * timeToMaturity >= 0.0;
    assert (a + b * timeToMaturity) * exp(-c * timeToMaturity) >= 0.0;
  }

  /** The local-volatility blend parameter: 0 for log-normal, 1 for normal dynamics. */
  function BlendParameter(dynamics: Dynamics): (blend: real)
    ensures blend == 0.0 <==> dynamics == LogNormal
    ensures blend == 1.0 <==> dynamics == Normal
  {
    var isLogNormal := dynamics == LogNormal;
    if isLogNormal then 0.0 else 1.0
  }

  /** The factor (blend L0 + (1 - blend) L) by which the blended local-volatility
      model scales a rate's factor loading, L0 its initial and L its current value. */
  function BlendedScale(blend: real, initialValue: real, currentValue: real): real
  {
    blend * initialValue + (1.0 - blend) * currentValue
  }

  /** The blend parameter chosen for the dynamics gives proportional volatility
      (scale L) under log-normal and level-independent volatility (scale L0)
      under normal dynamics. */
  lemma BlendSelectsDynamics(dynamics: Dynamics, initialValue: real, currentValue: real)
    ensures dynamics == LogNormal ==> BlendedScale(BlendParameter(dynamics), initialValue, currentValue) == currentValue
    ensures dynamics == Normal ==> BlendedScale(BlendParameter(dynamics), initialValue, currentValue) == initialValue
  {
  }

  /** The value of the "measure" property. */
  function MeasureProperty(measureType: Measure): (measure: string)
    ensures measure == "terminal" <==> measureType == Terminal
    ensures measure == "spot" <==> measureType == Spot
  {
    var isTerminal := measureType == Terminal;
    if isTerminal then "terminal" else "spot"
  }

  /** The property map handed to the model: the measure name and the state space.
      The dynamics are in scope but the state space is NORMAL for both of them,
      because the blended local-volatility model already applies any level
      scaling. */
  function ModelProperties(dynamics: Dynamics, measureType: Measure): (properties: map<string, string>)
    ensures properties.Keys == {"measure", "stateSpace"}
    ensures properties["measure"] == MeasureProperty(measureType)
    ensures properties["stateSpace"] == NormalStateSpace
  {
    map[]["measure" := MeasureProperty(measureType)]["stateSpace" := NormalStateSpace]
  }

  /** The property map does not depend on the dynamics, and it determines the measure. */
  lemma PropertiesIgnoreDynamics(measureType: Measure, otherMeasure: Measure)
    ensures ModelProperties(Normal, measureType) == ModelProperties(LogNormal, measureType)
    ensures ModelProperties(Normal, measureType) == ModelProperties(Normal, otherMeasure) ==> measureType == otherMeasure
  {
  }

  /** The parts of the assembled model that are decided here; curves, the
      correlation kernel, the covariance model, the Euler scheme and the Brownian
      motion are built by the pricing library from these. */
  datatype LiborMarketModelSetup = LiborMarketModelSetup(
    numberOfPaths: int,
    simulationTimes: seq<real>,
    liborPeriodTimes: seq<real>,
    volatility: array2<real>,
    correlationFactors: int,
    correlationDecay: real,
    blendParameter: real,
    properties: map<string, string>,
    brownianFactors: int,
    seed: int)

  /** Assembles the model: the two uniform grids from truncated step counts, the
      volatility matrix, the factor counts (no factor reduction), the blend
      parameter and the property map. */
  method CreateLiborMarketModel(numberOfPaths: int, simulationTimeStep: real, liborPeriodLength: real,
                                liborRateTimeHorizon: real, correlationDecayParam: real,
                                dynamics: Dynamics, measureType: Measure,
                                a: real, b: real, c: real, d: real, seed: int, exp: real -> real)
    returns (model: LiborMarketModelSetup)
    requires liborRateTimeHorizon >= 0.0 && simulationTimeStep > 0.0 && liborPeriodLength > 0.0
    ensures fresh(model.volatility)
    ensures model.simulationTimes
         == UniformGrid(0.0, StepCount(liborRateTimeHorizon, simulationTimeStep), simulationTimeStep)
    ensures model.liborPeriodTimes
         == UniformGrid(0.0, StepCount(liborRateTimeHorizon, liborPeriodLength), liborPeriodLength)
    ensures model.volatility.Length0 == NumberOfTimeSteps(model.simulationTimes)
    ensures model.volatility.Length1 == NumberOfTimeSteps(model.liborPeriodTimes)
    ensures forall j, i :: 0 <= j < model.volatility.Length0 && 0 <= i < model.volatility.Length1 ==>
      model.volatility[j, i]
        == VolatilityMatrix(a, b, c, d, model.simulationTimes, model.liborPeriodTimes, dynamics, exp)[j][i]
    ensures model.correlationFactors == model.brownianFactors == |model.liborPeriodTimes| - 1
    ensures model.brownianFactors == StepCount(liborRateTimeHorizon, liborPeriodLength)
    ensures model.blendParameter == BlendParameter(dynamics)
    ensures model.properties == ModelProperties(dynamics, measureType)
    ensures model.numberOfPaths == numberOfPaths && model.seed == seed
    ensures model.correlationDecay == correlationDecayParam
  {
    // Step 1: simulation grid
    var timeDiscretization :=
      UniformGrid(0.0, StepCount(liborRateTimeHorizon, simulationTimeStep), simulationTimeStep);
    // Step 2: tenure structure
    var liborPeriodDiscretization :=
      UniformGrid(0.0, StepCount(liborRateTimeHorizon, liborPeriodLength), liborPeriodLength);
    // Step 4: volatility matrix
    var volatility := CreateVolatilityStructure(a, b, c, d, timeDiscretization, liborPeriodDiscretization, dynamics, exp);
    // Step 5: correlation factors, no factor reduction
    var correlationFactors := |liborPeriodDiscretization| - 1;
    // Step 7: local-volatility blend
    var parameterForBlended := BlendParameter(dynamics);
    // Step 8: model properties
    var properties := ModelProperties(dynamics, measureType);
    // Step 9: Brownian factors, no factor reduction
    var brownianFactors := |liborPeriodDiscretization| - 1;
    model := LiborMarketModelSetup(numberOfPaths, timeDiscretization, liborPeriodDiscretization, volatility,
                                   correlationFactors, correlationDecayParam, parameterForBlended, properties,
                                   brownianFactors, seed);
  }
}
