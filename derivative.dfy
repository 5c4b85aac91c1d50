/** The coefficients `derivative()` produces, and the textbook derivative
    they were meant to be.

    `derivative()` allocates `deg` slots and runs
    `for (i = 0; i < length; ++i) coefficients[i] = _coefs[i] * (length--)`:
    the bound `length` shrinks with every pass, so only the entries with
    `2 * i < deg` are written (each with the factor `deg - i`, which is the
    right one) and the rest keep the 0 the array starts with. */
module Derivatives {
  import opened Coefficients

  /** The buffer `derivative()` hands to the constructor. */
  function DerivativeAsWritten(c: seq<real>): (r: seq<real>)
    requires |c| > 0
    ensures |r| == |c| - 1
  {
    seq(|c| - 1, i requires 0 <= i < |c| - 1 =>
      if 2 * i < |c| - 1 then c[i] * ((|c| - 1 - i) as real) else 0.0)
  }

  /** The derivative of the polynomial: coefficient `i` times its power
      `deg - i`, the constant term dropped. */
  function PowerRule(c: seq<real>): (r: seq<real>)
    requires |c| > 0
    ensures |r| == |c| - 1
  {
    seq(|c| - 1, i requires 0 <= i < |c| - 1 => c[i] * ((|c| - 1 - i) as real))
  }

  /** The loop agrees with the power rule on the entries it writes, that is
      on the first ceil(deg/2), and leaves zeros after them. */
  lemma {:induction false} AsWrittenIsHalfThePowerRule(c: seq<real>, i: nat)
    requires i < |c| - 1
    ensures DerivativeAsWritten(c)[i] == if i < |c| / 2 then PowerRule(c)[i] else 0.0
  {
    assert (2 * i < |c| - 1) == (i < |c| / 2);
  }

  lemma {:induction false} ScaleByCount(a: real, b: real, r: real, k: real)
    ensures (a - r * b) * k == a + a * (k - 1.0) - r * (b * k)
  {
  }

  /** Product rule with a linear factor: (c * (x - r))' = c + (x - r) * c'. */
  lemma {:induction false} ProductRuleLinear(c: seq<real>, r: real)
    requires |c| > 0
    ensures PowerRule(MulLinear(c, r)) == Add(c, MulLinear(PowerRule(c), r))
  {
    var d, pc := MulLinear(c, r), PowerRule(c);
    MulLinearAt(c, r, 0);
    MulLinearAt(pc, r, 0);
    var rhs := Add(c, MulLinear(pc, r));
    forall m | 0 <= m < |c| ensures PowerRule(d)[m] == rhs[m] {
      MulLinearAt(c, r, m);
      MulLinearAt(pc, r, m);
      var k := (|c| - m) as real;
      var cm1 := if m > 0 then c[m - 1] else 0.0;
      assert d[m] == c[m] - r * cm1;
      assert PowerRule(d)[m] == (c[m] - r * cm1) * k;
      assert (if m < |pc| then pc[m] else 0.0) == c[m] * (k - 1.0);
      assert (if m > 0 then pc[m - 1] else 0.0) == cm1 * k;
      ScaleByCount(c[m], cm1, r, k);
    }
  }

  /** In values: the derivative of c * (x - r) at x is c(x) + (x - r) c'(x). */
  lemma {:induction false} ProductRuleEval(c: seq<real>, r: real, x: real)
    requires |c| > 0
    ensures PowerSum(PowerRule(MulLinear(c, r)), x)
         == PowerSum(c, x) + (x - r) * PowerSum(PowerRule(c), x)
  {
    ProductRuleLinear(c, r);
    PowerSumAdd(c, MulLinear(PowerRule(c), r), x);
    MulLinearEval(PowerRule(c), r, x);
  }

  /** A double root of a polynomial is a root of its derivative. */
  lemma {:induction false} DoubleRootVanishes(c: seq<real>, r: real)
    requires |c| > 0
    ensures PowerSum(PowerRule(MulLinear(MulLinear(c, r), r)), r) == 0.0
  {
    ProductRuleEval(MulLinear(c, r), r, r);
    MulLinearEval(c, r, r);
  }

  /** As written, x^2 + 3x + 2 differentiates to 2x instead of 2x + 3. */
  lemma {:induction false} AsWrittenLosesTerms()
    ensures DerivativeAsWritten([1.0, 3.0, 2.0]) == [2.0, 0.0]
    ensures Strip(DerivativeAsWritten([1.0, 3.0, 2.0])) == [2.0, 0.0]
    ensures PowerRule([1.0, 3.0, 2.0]) == [2.0, 3.0]
  {
    assert DerivativeAsWritten([1.0, 3.0, 2.0])[1] == 0.0;
  }

  /** As written, the derivative of (x - 1)^2 does not vanish at its double
      root 1, while the power rule's does. */
  lemma {:induction false} AsWrittenMissesDoubleRoot()
    ensures PowerSum(Strip(DerivativeAsWritten([1.0, -2.0, 1.0])), 1.0) == 2.0
    ensures PowerSum(PowerRule([1.0, -2.0, 1.0]), 1.0) == 0.0
  {
    assert DerivativeAsWritten([1.0, -2.0, 1.0]) == [2.0, 0.0];
    assert PowerRule([1.0, -2.0, 1.0]) == [2.0, -2.0];
    assert PowerSum([0.0], 1.0) == 0.0;
    assert PowerSum([-2.0], 1.0) == -2.0;
  }

  /** The derivative of a constant leaves no coefficient, which the
      constructor turns into the constant 1. */
  lemma {:induction false} ConstantDerivativeIsOne(k: real)
    ensures DerivativeAsWritten([k]) == []
    ensures Strip(DerivativeAsWritten([k])) == [1.0]
  {
  }
}
