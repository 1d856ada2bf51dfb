/** The exponential function used by the volatility shape and by the in-arrears
    formula. The model never computes exp: every member that needs it takes it as a
    parameter `exp: real -> real`, and each proof assumes only the laws below,
    stated as ghost predicates and required where they are used. */
module ExpLaws {

  /** exp(0) = 1 */
  ghost predicate ExpAtZero(exp: real -> real)
  {
    exp(0.0) == 1.0
  }

  /** exp is strictly positive everywhere */
  ghost predicate ExpPositive(exp: real -> real)
  {
    forall x :: exp(x) > 0.0
  }

  /** exp is non-decreasing */
  ghost predicate ExpMonotone(exp: real -> real)
  {
    forall x, y :: x <= y ==> exp(x) <= exp(y)
  }
}
