/**
 * Param_Shape: the smooth boundary indicator shared by the shape
 * parameterizations. The logistic function is evaluated in a split form,
 * one branch for each sign of the input, so that for a non-negative strength
 * the exponential is only ever taken of a non-positive number; the two
 * branches are combined arithmetically through 0/1 masks rather than by
 * control flow.
 */
module Shape {
  import opened Numerics

  /** The default sharpness of the boundary. */
  const DEFAULT_STRENGTH: real := 0.1

  /** `Param_Shape.sigmoid`: the split-form logistic indicator. */
  function Sigmoid(x: real, strength: real, exp: real -> real): (r: real)
    requires ExpLaws(exp)
    ensures 0.0 < r < 1.0
  {
    LogisticRange(exp(-Mul(Mask(x, x >= 0.0), strength)));
    LogisticRange(exp(Mul(Mask(x, x < 0.0), strength)));
    1.0 / (1.0 + exp(-Mul(Mask(x, x >= 0.0), strength)))
    + exp(Mul(Mask(x, x < 0.0), strength)) / (1.0 + exp(Mul(Mask(x, x < 0.0), strength)))
    - 0.5
  }

  /** Both logistic forms of a positive exponential lie strictly in (0, 1) and sum to 1. */
  lemma LogisticRange(e: real)
    requires 0.0 < e
    ensures 0.0 < 1.0 / (1.0 + e) < 1.0
    ensures 0.0 < e / (1.0 + e) < 1.0
    ensures 1.0 / (1.0 + e) + e / (1.0 + e) == 1.0
    ensures e < 1.0 ==> e / (1.0 + e) < 0.5 < 1.0 / (1.0 + e)
  {
  }

  /**
   * Exactly one branch of the split form is active: the standard logistic
   * form for a non-negative input and the form with a non-positive exponent
   * for a negative one; the inactive branch contributes exactly 1/2.
   */
  lemma SigmoidBranches(x: real, strength: real, exp: real -> real)
    requires ExpLaws(exp)
    ensures x >= 0.0 ==> Sigmoid(x, strength, exp) == 1.0 / (1.0 + exp(-Mul(x, strength)))
    ensures x < 0.0 ==> Sigmoid(x, strength, exp) == exp(Mul(x, strength)) / (1.0 + exp(Mul(x, strength)))
  {
    if x >= 0.0 {
      assert Mul(Mask(x, x < 0.0), strength) == 0.0;
    } else {
      assert -Mul(Mask(x, x >= 0.0), strength) == 0.0;
    }
  }

  /** The indicator is exactly 1/2 on the boundary, whatever the strength. */
  lemma SigmoidAtZero(strength: real, exp: real -> real)
    requires ExpLaws(exp)
    ensures Sigmoid(0.0, strength, exp) == 0.5
  {
    SigmoidBranches(0.0, strength, exp);
    assert -Mul(0.0, strength) == 0.0;
  }

  /** Reflecting the input reflects the indicator about 1/2. */
  lemma SigmoidSymmetry(x: real, strength: real, exp: real -> real)
    requires ExpLaws(exp)
    ensures Sigmoid(-x, strength, exp) == 1.0 - Sigmoid(x, strength, exp)
  {
    if x == 0.0 {
      SigmoidAtZero(strength, exp);
    } else if x > 0.0 {
      ReflectPositive(x, strength, exp);
    } else {
      ReflectPositive(-x, strength, exp);
    }
  }

  /** SigmoidSymmetry for a positive input: the two branches are complementary. */
  lemma ReflectPositive(x: real, strength: real, exp: real -> real)
    requires ExpLaws(exp) && x > 0.0
    ensures Sigmoid(-x, strength, exp) == 1.0 - Sigmoid(x, strength, exp)
  {
    SigmoidBranches(x, strength, exp);
    SigmoidBranches(-x, strength, exp);
    assert Mul(-x, strength) == -Mul(x, strength);
    LogisticRange(exp(-Mul(x, strength)));
  }

  /**
   * The split form agrees everywhere with the textbook logistic function
   * 1 / (1 + exp(-x * strength)).
   */
  lemma SigmoidIsLogistic(x: real, strength: real, exp: real -> real)
    requires ExpLaws(exp)
    ensures Sigmoid(x, strength, exp) == 1.0 / (1.0 + exp(-Mul(x, strength)))
  {
    SigmoidBranches(x, strength, exp);
    if x < 0.0 {
      var t := Mul(x, strength);
      assert ReciprocalAt(exp, t);
      var e, f := exp(t), exp(-t);
      assert e * f == 1.0;
      assert e * (1.0 + f) == 1.0 + e;
    }
  }

  /**
   * With a positive strength, the indicator is above 1/2 exactly for positive
   * inputs, exactly 1/2 at zero and below 1/2 exactly for negative inputs.
   */
  lemma SigmoidSign(x: real, strength: real, exp: real -> real)
    requires ExpLaws(exp) && 0.0 < strength
    ensures Sigmoid(x, strength, exp) > 0.5 <==> x > 0.0
    ensures Sigmoid(x, strength, exp) == 0.5 <==> x == 0.0
    ensures Sigmoid(x, strength, exp) < 0.5 <==> x < 0.0
  {
    SigmoidBranches(x, strength, exp);
    if x > 0.0 {
      MulPositive(x, strength);
      assert IncreasingAt(exp, -Mul(x, strength), 0.0);
      LogisticRange(exp(-Mul(x, strength)));
    } else if x < 0.0 {
      MulPositive(-x, strength);
      assert IncreasingAt(exp, Mul(x, strength), 0.0);
      LogisticRange(exp(Mul(x, strength)));
    } else {
      SigmoidAtZero(strength, exp);
    }
  }

  /** With a positive strength the indicator is strictly increasing. */
  lemma SigmoidMonotone(x: real, y: real, strength: real, exp: real -> real)
    requires ExpLaws(exp) && 0.0 < strength && x < y
    ensures Sigmoid(x, strength, exp) < Sigmoid(y, strength, exp)
  {
    SigmoidIsLogistic(x, strength, exp);
    SigmoidIsLogistic(y, strength, exp);
    MulPositive(y - x, strength);
    assert Mul(y - x, strength) == Mul(y, strength) - Mul(x, strength);
    assert IncreasingAt(exp, -Mul(y, strength), -Mul(x, strength));
    ReciprocalDecreasing(1.0 + exp(-Mul(y, strength)), 1.0 + exp(-Mul(x, strength)));
  }
}
