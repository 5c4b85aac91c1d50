/** What `normalize()` and `denormalize()` do to the coefficients.

    `normalize()` divides every coefficient after the first by the first and
    sets the first to 1. `denormalize()` first looks for a "normalizing gain":
    starting from the constant term it walks towards the leading coefficient
    while the coefficient is not positive (`c < Double.MIN_VALUE`, which for
    doubles means `c <= 0`); the last index it tests is 1, and when that
    entry is not positive either it takes index 0 without testing it (a
    single coefficient that is not positive makes it read index -1). It then
    divides the coefficients in place by the one at that index, which is
    itself overwritten with 1 on the way, so every later coefficient is
    divided by 1. */
module Normalization {
  import opened Wrappers
  import opened Coefficients

  function Normalized(c: seq<real>): (r: seq<real>)
    requires |c| > 0 && c[0] != 0.0
    ensures |r| == |c|
  {
    seq(|c|, j requires 0 <= j < |c| => if j == 0 then 1.0 else c[j] / c[0])
  }

  /** Normalizing makes the polynomial monic, and it is the old one divided
      by the returned gain: `gain * normalized(x) == p(x)` everywhere. */
  lemma {:induction false} NormalizedEval(c: seq<real>, x: real)
    requires |c| > 0 && c[0] != 0.0
    ensures Normalized(c)[0] == 1.0
    ensures c[0] * PowerSum(Normalized(c), x) == PowerSum(c, x)
  {
    var k := 1.0 / c[0];
    forall j | 0 <= j < |c| ensures Normalized(c)[j] == Scale(c, k)[j] {
      if j == 0 {
        assert c[0] * k == 1.0;
      }
    }
    assert Normalized(c) == Scale(c, k);
    var d, v := PowerSum(Normalized(c), x), PowerSum(c, x);
    PowerSumScaleValues(c, k, x, d, v);
    InverseCancels(c[0], k, v);
  }

  lemma {:induction false} DivSelf(g: real)
    requires g != 0.0
    ensures g / g == 1.0
  {
  }

  lemma {:induction false} InverseCancels(a: real, k: real, s: real)
    requires a != 0.0 && k == 1.0 / a
    ensures a * (k * s) == s
  {
    assert a * k == 1.0;
  }

  /** The walk of the search loop from index `i` down, for `i >= 1`. */
  function PivotSearch(c: seq<real>, i: nat): (p: nat)
    requires 1 <= i < |c|
    ensures p <= i && (p >= 1 ==> c[p] > 0.0)
    decreases i
  {
    if c[i] > 0.0 then i else if i == 1 then 0 else PivotSearch(c, i - 1)
  }

  /** The index whose coefficient `denormalize()` divides by; `None` when the
      search reads index -1 (a single coefficient that is not positive) and
      throws. */
  function Pivot(c: seq<real>): (r: Option<nat>)
    requires |c| > 0
    ensures r.Some? ==> r.value < |c| && (r.value >= 1 ==> c[r.value] > 0.0)
  {
    if |c| == 1 then (if c[0] > 0.0 then Some(0) else None)
    else Some(PivotSearch(c, |c| - 1))
  }

  lemma {:induction false} PivotSearchSpec(c: seq<real>, i: nat)
    requires 1 <= i < |c|
    ensures PivotSearch(c, i) >= 1 ==> c[PivotSearch(c, i)] > 0.0
    ensures forall k :: PivotSearch(c, i) < k <= i && k >= 1 ==> c[k] <= 0.0
    decreases i
  {
    if c[i] <= 0.0 && i > 1 {
      PivotSearchSpec(c, i - 1);
    }
  }

  /** The pivot is the highest index from 1 up whose coefficient is
      positive, and 0 when there is none; the search fails only on a single
      coefficient that is not positive. */
  lemma {:induction false} PivotSpec(c: seq<real>)
    requires |c| > 0
    ensures Pivot(c).None? <==> |c| == 1 && c[0] <= 0.0
    ensures Pivot(c).Some? ==> Pivot(c).value < |c|
    ensures Pivot(c).Some? && Pivot(c).value >= 1 ==> c[Pivot(c).value] > 0.0
    ensures Pivot(c).Some? ==> forall k :: Pivot(c).value < k < |c| ==> c[k] <= 0.0
  {
    if |c| > 1 {
      PivotSearchSpec(c, |c| - 1);
    }
  }

  /** The coefficients after the in-place division: those up to the pivot
      are divided by the pivot's coefficient, the later ones by 1. */
  function DenormalizedAsWritten(c: seq<real>, p: nat): (r: seq<real>)
    requires p < |c| && c[p] != 0.0
    ensures |r| == |c|
  {
    seq(|c|, j requires 0 <= j < |c| => if j <= p then c[j] / c[p] else c[j])
  }

  /** What the division loop was meant to compute: every coefficient divided
      by the gain. */
  function DenormalizedIntended(c: seq<real>, p: nat): (r: seq<real>)
    requires p < |c| && c[p] != 0.0
    ensures |r| == |c|
  {
    seq(|c|, j requires 0 <= j < |c| => c[j] / c[p])
  }

  /** Dividing every coefficient by the gain divides the value by it, so the
      polynomial keeps its roots (and a cached root list stays right). */
  lemma {:induction false} DenormalizedIntendedEval(c: seq<real>, p: nat, x: real)
    requires p < |c| && c[p] != 0.0
    ensures DenormalizedIntended(c, p)[p] == 1.0
    ensures c[p] * PowerSum(DenormalizedIntended(c, p), x) == PowerSum(c, x)
    ensures PowerSum(DenormalizedIntended(c, p), x) == 0.0 <==> PowerSum(c, x) == 0.0
  {
    var k := 1.0 / c[p];
    DenormalizedIsScale(c, p, k);
    var d, v := PowerSum(DenormalizedIntended(c, p), x), PowerSum(c, x);
    PowerSumScaleValues(c, k, x, d, v);
    ScaledBack(c[p], k, d, v);
  }

  lemma {:induction false} DenormalizedIsScale(c: seq<real>, p: nat, k: real)
    requires p < |c| && c[p] != 0.0 && k == 1.0 / c[p]
    ensures DenormalizedIntended(c, p) == Scale(c, k)
    ensures DenormalizedIntended(c, p)[p] == 1.0
  {
    forall j | 0 <= j < |c| ensures DenormalizedIntended(c, p)[j] == Scale(c, k)[j] {
    }
    DivSelf(c[p]);
  }

  lemma {:induction false} ScaledBack(a: real, k: real, d: real, v: real)
    requires a != 0.0 && k == 1.0 / a && d == k * v
    ensures a * d == v && (d == 0.0 <==> v == 0.0)
  {
    InverseCancels(a, k, v);
  }

  /** As written, x^2 + 2x - 3 (root 1) has the gain 2 at index 1 and becomes
      0.5x^2 + x - 3, which no longer vanishes at 1; the intended result
      0.5x^2 + x - 1.5 does. */
  lemma {:induction false} DenormalizeAsWrittenLosesRoot()
    ensures Pivot([1.0, 2.0, -3.0]) == Some(1)
    ensures DenormalizedAsWritten([1.0, 2.0, -3.0], 1) == [0.5, 1.0, -3.0]
    ensures DenormalizedIntended([1.0, 2.0, -3.0], 1) == [0.5, 1.0, -1.5]
    ensures PowerSum([1.0, 2.0, -3.0], 1.0) == 0.0
    ensures PowerSum(DenormalizedAsWritten([1.0, 2.0, -3.0], 1), 1.0) == -1.5
    ensures PowerSum(DenormalizedIntended([1.0, 2.0, -3.0], 1), 1.0) == 0.0
  {
    var c := [1.0, 2.0, -3.0];
    assert PivotSearch(c, 2) == PivotSearch(c, 1) == 1;
    assert DenormalizedAsWritten(c, 1) == [0.5, 1.0, -3.0];
    assert DenormalizedIntended(c, 1) == [0.5, 1.0, -1.5];
    EvalQuadratic(c, 1.0);
    EvalQuadratic([0.5, 1.0, -3.0], 1.0);
    EvalQuadratic([0.5, 1.0, -1.5], 1.0);
  }
}
