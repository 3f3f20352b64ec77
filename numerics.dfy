/**
 * The numeric collaborator used by every parameterization: numpy's
 * boolean-to-float conversion, and the exponential, which is foreign code and
 * so enters the model as a parameter `exp: real -> real` constrained by the
 * algebraic laws below.
 */
module Numerics {

  /**
   * The laws of the exponential that the parameterizations rely on:
   * exp(0) = 1, exp is positive, strictly increasing, and exp(-a) is the
   * reciprocal of exp(a). The last two are stated through the predicates
   * below, so that a proof draws on one instance only where it names it.
   */
  ghost predicate ExpLaws(exp: real -> real) {
    && exp(0.0) == 1.0
    && (forall t :: exp(t) > 0.0)
    && (forall a, b :: IncreasingAt(exp, a, b))
    && (forall a :: ReciprocalAt(exp, a))
  }

  ghost predicate IncreasingAt(exp: real -> real, a: real, b: real) {
    a < b ==> exp(a) < exp(b)
  }

  ghost predicate ReciprocalAt(exp: real -> real, a: real) {
    exp(a) * exp(-a) == 1.0
  }

  /** A boolean array used as a number: `True` is 1, `False` is 0. */
  function Indicator(b: bool): (r: real)
    ensures b <==> r == 1.0
    ensures !b <==> r == 0.0
  {
    if b then 1.0 else 0.0
  }

  /** `x * (x >= 0)` and the like: `x` where the mask holds, 0 elsewhere. */
  function Mask(x: real, keep: bool): (r: real)
    ensures keep ==> r == x
    ensures !keep ==> r == 0.0
  {
    x * Indicator(keep)
  }

  /**
   * The product `a * b`, kept behind a function symbol so that a product
   * used as an argument (of `exp`, say) is one term that the prover compares
   * by its factors.
   */
  function Mul(a: real, b: real): real {
    a * b
  }

  /** Multiplying by a non-negative factor preserves order. */
  lemma MulMonotone(k: real, a: real, b: real)
    requires 0.0 <= k && a <= b
    ensures Mul(k, a) <= Mul(k, b)
  {
    MulNonnegative(k, b - a);
    assert k * b == k * a + k * (b - a);
  }

  /** A positive factor scales a smaller number to a smaller product. */
  lemma MulStrictMonotone(a: real, b: real, k: real)
    requires a < b && 0.0 < k
    ensures Mul(a, k) < Mul(b, k)
  {
    assert b * k - a * k == (b - a) * k;
    MulPositive(b - a, k);
  }

  lemma MulNonnegative(k: real, d: real)
    requires 0.0 <= k && 0.0 <= d
    ensures 0.0 <= k * d
  {
  }

  /** A product of two positive numbers is positive, and negating a factor negates it. */
  lemma MulPositive(a: real, b: real)
    requires 0.0 < a && 0.0 < b
    ensures 0.0 < Mul(a, b) && Mul(-a, b) == -Mul(a, b)
  {
  }

  /** Weights `c` and `1 - c` together give the whole. */
  lemma MulComplement(c: real, t: real)
    ensures Mul(c, t) + Mul(1.0 - c, t) == t
  {
  }

  /** A rational stand-in for `exp`, used only to show that ExpLaws can be met. */
  function ExpModel(t: real): real {
    if t >= 0.0 then 1.0 + t else 1.0 / (1.0 - t)
  }

  lemma ReciprocalDecreasing(p: real, q: real)
    requires 0.0 < p < q
    ensures 1.0 / q < 1.0 / p
  {
    var u, v := 1.0 / q, 1.0 / p;
    assert u * q == 1.0 && v * p == 1.0;
    assert u * p < u * q;
  }

  lemma ExpModelPositive()
    ensures forall t :: ExpModel(t) > 0.0
  {
    forall t
      ensures ExpModel(t) > 0.0
    {
      if t < 0.0 {
        ReciprocalDecreasing(1.0, 1.0 - t);
      }
    }
  }

  lemma ExpModelMonotone(a: real, b: real)
    ensures IncreasingAt(ExpModel, a, b)
  {
    if a < b {
      if b < 0.0 {
        ReciprocalDecreasing(1.0 - b, 1.0 - a);
      } else if a < 0.0 {
        ReciprocalDecreasing(1.0, 1.0 - a);
      }
    }
  }

  lemma ExpModelReciprocal(a: real)
    ensures ReciprocalAt(ExpModel, a)
  {
    if a < 0.0 {
      assert ExpModel(a) * (1.0 - a) == 1.0;
    } else if a > 0.0 {
      assert ExpModel(-a) * (1.0 + a) == 1.0;
    }
  }

  /** ExpLaws is consistent: every precondition that assumes it can be met. */
  lemma ExpLawsSatisfiable()
    ensures ExpLaws(ExpModel)
  {
    var exp: real -> real := ExpModel;
    assert forall t :: exp(t) > 0.0 by { ExpModelPositive(); }
    forall a, b
      ensures IncreasingAt(exp, a, b)
    {
      ExpModelMonotone(a, b);
    }
    forall a
      ensures ReciprocalAt(exp, a)
    {
      ExpModelReciprocal(a);
    }
    assert exp(0.0) == 1.0;
  }
}
