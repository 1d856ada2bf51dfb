/** The closed-form value of a LIBOR-in-arrears floater (fixing and payment at
    T_i, accrual over [T_i, T_{i+1}]) under log-normal dynamics: the plain floater
    plus a convexity adjustment. Per unit notional. */
module LiborInArrearsAnalytic {
  import opened ExpLaws

  /** The accrual period T_{i+1} - T_i */
  function PeriodLength(fixingPaymentDate: real, endOfLiborPeriod: real): real
  {
    endOfLiborPeriod - fixingPaymentDate
  }

  /** The plain floater paid at T_{i+1}: P(T_i) - P(T_{i+1}) */
  function PlainFloaterValue(endOfLiborDiscountFactor: real, fixingPaymentDiscountFactor: real): real
  {
    fixingPaymentDiscountFactor - endOfLiborDiscountFactor
  }

  /** The convexity adjustment P(T_{i+1}) delta^2 L0^2 exp(T_i v), v the variance
      passed in the parameter named liborVolatility. */
  function ConvexityAdjustment(initialForwardLibor: real, liborVolatility: real, fixingPaymentDate: real,
                               endOfLiborPeriod: real, endOfLiborDiscountFactor: real, exp: real -> real): (adjustment: real)
    ensures ExpPositive(exp) && endOfLiborDiscountFactor >= 0.0 ==> adjustment >= 0.0
  {
    var periodLength := PeriodLength(fixingPaymentDate, endOfLiborPeriod);
    var growth := exp(fixingPaymentDate * liborVolatility);
    var product := endOfLiborDiscountFactor * periodLength * periodLength * initialForwardLibor * initialForwardLibor
                   * growth;
    // both branches give the same value; the first one carries the sign proof
    if endOfLiborDiscountFactor >= 0.0 && growth >= 0.0 then
      NonNegativeProduct(endOfLiborDiscountFactor, periodLength, initialForwardLibor, growth);
      product
    else
      product
  }

  /** P delta^2 L0^2 is non-negative for a non-negative bond price. */
  lemma NonNegativeSquares(p: real, delta: real, l: real)
    requires p >= 0.0
    ensures p * delta * delta * l * l >= 0.0
  {
  }

  /** ... and so is its product with a non-negative exponential factor. */
  lemma NonNegativeProduct(p: real, delta: real, l: real, e: real)
    requires p >= 0.0 && e >= 0.0
    ensures p * delta * delta * l * l * e >= 0.0
  {
    NonNegativeSquares(p, delta, l);
  }

  /** The in-arrears floater value: plain floater plus convexity adjustment. With a
      non-negative bond price P(T_{i+1}) it is never below the plain floater. */
  function LiborInArrearsFloaterAnalytic(initialForwardLibor: real, liborVolatility: real, fixingPaymentDate: real,
                                         endOfLiborPeriod: real, endOfLiborDiscountFactor: real,
                                         fixingPaymentDiscountFactor: real, exp: real -> real): (value: real)
    ensures ExpPositive(exp) && endOfLiborDiscountFactor >= 0.0 ==>
      value >= PlainFloaterValue(endOfLiborDiscountFactor, fixingPaymentDiscountFactor)
  {
    var firstPart := PlainFloaterValue(endOfLiborDiscountFactor, fixingPaymentDiscountFactor);
    var convexityAdjustedPart := ConvexityAdjustment(initialForwardLibor, liborVolatility, fixingPaymentDate,
                                                     endOfLiborPeriod, endOfLiborDiscountFactor, exp);
    firstPart + convexityAdjustedPart
  }

  /** The initial forward enters only through its square: L0 and -L0 give the
      same value. */
  lemma ValueEvenInInitialForward(initialForwardLibor: real, liborVolatility: real, fixingPaymentDate: real,
                                  endOfLiborPeriod: real, endOfLiborDiscountFactor: real,
                                  fixingPaymentDiscountFactor: real, exp: real -> real)
    ensures LiborInArrearsFloaterAnalytic(initialForwardLibor, liborVolatility, fixingPaymentDate, endOfLiborPeriod,
                                          endOfLiborDiscountFactor, fixingPaymentDiscountFactor, exp)
         == LiborInArrearsFloaterAnalytic(-initialForwardLibor, liborVolatility, fixingPaymentDate, endOfLiborPeriod,
                                          endOfLiborDiscountFactor, fixingPaymentDiscountFactor, exp)
  {
  }

  /** Fixing date and variance enter the exponent only through their product:
      with the period end moved along so that the period length is kept, two
      inputs with equal T_i v have equal convexity adjustments. */
  lemma AdjustmentDependsOnTotalVariance(initialForwardLibor: real, periodLength: real, endOfLiborDiscountFactor: real,
                                         fixingPaymentDate: real, liborVolatility: real,
                                         otherFixingPaymentDate: real, otherLiborVolatility: real, exp: real -> real)
    requires fixingPaymentDate * liborVolatility == otherFixingPaymentDate * otherLiborVolatility
    ensures ConvexityAdjustment(initialForwardLibor, liborVolatility, fixingPaymentDate,
                                fixingPaymentDate + periodLength, endOfLiborDiscountFactor, exp)
         == ConvexityAdjustment(initialForwardLibor, otherLiborVolatility, otherFixingPaymentDate,
                                otherFixingPaymentDate + periodLength, endOfLiborDiscountFactor, exp)
  {
  }

  /** With no accumulated variance (T_i = 0 or v = 0) the adjustment is the bare
      P(T_{i+1}) delta^2 L0^2. */
  lemma NoVarianceAdjustment(initialForwardLibor: real, liborVolatility: real, fixingPaymentDate: real,
                             endOfLiborPeriod: real, endOfLiborDiscountFactor: real,
                             fixingPaymentDiscountFactor: real, exp: real -> real)
    requires ExpAtZero(exp)
    requires fixingPaymentDate == 0.0 || liborVolatility == 0.0
    ensures var delta := endOfLiborPeriod - fixingPaymentDate;
      LiborInArrearsFloaterAnalytic(initialForwardLibor, liborVolatility, fixingPaymentDate, endOfLiborPeriod,
                                    endOfLiborDiscountFactor, fixingPaymentDiscountFactor, exp)
      == (fixingPaymentDiscountFactor - endOfLiborDiscountFactor)
         + endOfLiborDiscountFactor * delta * delta * initialForwardLibor * initialForwardLibor
  {
    assert fixingPaymentDate * liborVolatility == 0.0;
  }

  /** For T_i >= 0 and P(T_{i+1}) >= 0 the value is non-decreasing in the variance. */
  lemma ValueMonotoneInVariance(initialForwardLibor: real, liborVolatility: real, largerLiborVolatility: real,
                                fixingPaymentDate: real, endOfLiborPeriod: real, endOfLiborDiscountFactor: real,
                                fixingPaymentDiscountFactor: real, exp: real -> real)
    requires ExpMonotone(exp)
    requires fixingPaymentDate >= 0.0 && endOfLiborDiscountFactor >= 0.0
    requires liborVolatility <= largerLiborVolatility
    ensures LiborInArrearsFloaterAnalytic(initialForwardLibor, liborVolatility, fixingPaymentDate, endOfLiborPeriod,
                                          endOfLiborDiscountFactor, fixingPaymentDiscountFactor, exp)
         <= LiborInArrearsFloaterAnalytic(initialForwardLibor, largerLiborVolatility, fixingPaymentDate, endOfLiborPeriod,
                                          endOfLiborDiscountFactor, fixingPaymentDiscountFactor, exp)
  {
    var delta := endOfLiborPeriod - fixingPaymentDate;
    var x := fixingPaymentDate * liborVolatility;
    var y := fixingPaymentDate * largerLiborVolatility;
    assert y - x == fixingPaymentDate * (largerLiborVolatility - liborVolatility);
    assert x <= y;
    assert exp(x) <= exp(y);
    var k := endOfLiborDiscountFactor * delta * delta * initialForwardLibor * initialForwardLibor;
    NonNegativeSquares(endOfLiborDiscountFactor, delta, initialForwardLibor);
    assert k >= 0.0;
    assert k * exp(y) - k * exp(x) == k * (exp(y) - exp(x));
  }

  /** If the curve is consistent with the forward, P(T_i) = P(T_{i+1}) (1 + delta L0),
      the value is the textbook in-arrears price P(T_{i+1}) delta L0 (1 + delta L0 exp(T_i v)). */
  lemma ValueUnderConsistentCurve(initialForwardLibor: real, liborVolatility: real, fixingPaymentDate: real,
                                  endOfLiborPeriod: real, endOfLiborDiscountFactor: real,
                                  fixingPaymentDiscountFactor: real, exp: real -> real)
    requires var delta := endOfLiborPeriod - fixingPaymentDate;
      fixingPaymentDiscountFactor == endOfLiborDiscountFactor * (1.0 + delta * initialForwardLibor)
    ensures var delta := endOfLiborPeriod - fixingPaymentDate;
      LiborInArrearsFloaterAnalytic(initialForwardLibor, liborVolatility, fixingPaymentDate, endOfLiborPeriod,
                                    endOfLiborDiscountFactor, fixingPaymentDiscountFactor, exp)
      == endOfLiborDiscountFactor * delta * initialForwardLibor
         * (1.0 + delta * initialForwardLibor * exp(fixingPaymentDate * liborVolatility))
  {
  }

  /** A rate fixing today (T_i = 0, P(0) = 1) on a consistent curve is worth exactly
      delta L0: the value the caller otherwise special-cases. */
  lemma FixingTodayValue(initialForwardLibor: real, liborVolatility: real, endOfLiborPeriod: real,
                         endOfLiborDiscountFactor: real, exp: real -> real)
    requires ExpAtZero(exp)
    requires 1.0 == endOfLiborDiscountFactor * (1.0 + endOfLiborPeriod * initialForwardLibor)
    ensures LiborInArrearsFloaterAnalytic(initialForwardLibor, liborVolatility, 0.0, endOfLiborPeriod,
                                          endOfLiborDiscountFactor, 1.0, exp)
         == endOfLiborPeriod * initialForwardLibor
  {
  }
}
