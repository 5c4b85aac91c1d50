/** Composition of polynomials, as `substituteOp(src, sub)` computes it:
    `result = sub.pow(deg) * src[0]`, then for j = 1..deg the in-place
    `result.addEquals(sub.pow(deg - j) * src[j])`. */
module Composition {
  import opened Coefficients

  /** The coefficients `sub.pow(k)` holds. */
  function PowPoly(sub: seq<real>, k: nat): (r: seq<real>)
    requires |sub| > 0
    ensures |r| > 0
  {
    StripSpec(PowCoefs(sub, k));
    Strip(PowCoefs(sub, k))
  }

  /** The j-th addend: `sub.pow(deg - j)` scaled by `src[j]`. */
  function Term(src: seq<real>, sub: seq<real>, j: nat): (r: seq<real>)
    requires |sub| > 0 && j < |src|
    ensures |r| > 0
  {
    Scale(PowPoly(sub, |src| - 1 - j), src[j])
  }

  /** All the addends, in the order the loop adds them. */
  function Terms(src: seq<real>, sub: seq<real>): (r: seq<seq<real>>)
    requires |sub| > 0
    ensures |r| == |src|
  {
    seq(|src|, j requires 0 <= j < |src| => Term(src, sub, j))
  }

  /** `result` after the addends ts[0..j] have been accumulated: the first one
      itself, then each further one added in place. */
  function Accumulate(ts: seq<seq<real>>, j: nat): (r: seq<real>)
    requires j < |ts|
    ensures |r| == |ts[0]|
    decreases j
  {
    if j == 0 then ts[0]
    else
      var acc := Accumulate(ts, j - 1);
      AddInto(acc, ts[j], acc)
  }

  /** What `substitute(p)` returns. */
  function Composed(src: seq<real>, sub: seq<real>): (r: seq<real>)
    requires |src| > 0 && |sub| > 0
  {
    Accumulate(Terms(src, sub), |src| - 1)
  }

  /** The addend the loop builds in the pass with i == deg - j. */
  lemma {:induction false} TermAt(src: seq<real>, sub: seq<real>, j: nat, i: nat)
    requires |sub| > 0 && j < |src| && i == |src| - 1 - j
    ensures Terms(src, sub)[j] == Scale(Strip(PowCoefs(sub, i)), src[j])
  {
  }

  /** One more pass of the loop: the previous accumulator with the next
      addend added in place. */
  lemma {:induction false} AccumulateNext(ts: seq<seq<real>>, j: nat)
    requires 0 < j < |ts|
    ensures Accumulate(ts, j) == AddInto(Accumulate(ts, j - 1), ts[j], Accumulate(ts, j - 1))
  {
  }

  /** The accumulator after the last pass is the composition. */
  lemma {:induction false} ComposedUnfold(src: seq<real>, sub: seq<real>, r: seq<real>, j: nat)
    requires |src| > 0 && |sub| > 0 && j == |src| - 1 && r == Accumulate(Terms(src, sub), j)
    ensures r == Composed(src, sub)
  {
  }

  /** No addend is longer than the first. */
  ghost predicate FirstIsLongest(ts: seq<seq<real>>)
  {
    |ts| > 0 && forall k :: 0 <= k < |ts| ==> |ts[k]| <= |ts[0]|
  }

  /** With a nonzero leading coefficient, `sub.pow(k)` has k * deg(sub) + 1
      entries and evaluates to the k-th power. */
  lemma {:induction false} PowPolyExact(sub: seq<real>, k: nat, x: real)
    requires |sub| > 0 && sub[0] != 0.0
    ensures |PowPoly(sub, k)| == k * (|sub| - 1) + 1
    ensures PowerSum(PowPoly(sub, k), x) == Pow(PowerSum(sub, x), k)
  {
    PowExact(sub, k, x);
  }

  /** The addend for src[0] is the longest, deg * deg(sub) + 1 entries. */
  lemma {:induction false} TermsLength(src: seq<real>, sub: seq<real>)
    requires |src| > 0 && |sub| > 0 && sub[0] != 0.0
    ensures FirstIsLongest(Terms(src, sub))
    ensures |Terms(src, sub)[0]| == (|src| - 1) * (|sub| - 1) + 1
  {
    var ts, m := Terms(src, sub), |sub| - 1;
    var n0 := |ts[0]|;
    TermLength(src, sub, 0, m, n0);
    forall k | 0 <= k < |ts| ensures |ts[k]| <= n0 {
      var nk := |ts[k]|;
      TermLength(src, sub, k, m, nk);
      MulMonotone(|src| - 1 - k, |src| - 1, m, nk - 1, n0 - 1);
    }
  }

  /** Addend j has (deg - j) * deg(sub) + 1 entries. */
  lemma {:induction false} TermLength(src: seq<real>, sub: seq<real>, j: nat, m: nat, n: nat)
    requires |sub| > 0 && sub[0] != 0.0 && j < |src| && m == |sub| - 1 && n == |Terms(src, sub)[j]|
    ensures n == (|src| - 1 - j) * m + 1
  {
    PowPolyExact(sub, |src| - 1 - j, 0.0);
  }

  lemma {:induction false} MulMonotone(a: nat, b: nat, m: nat, p: int, q: int)
    requires a <= b && p == a * m && q == b * m
    ensures p <= q
  {
  }

  /** The j-th addend evaluates to src[j] times the value s of sub.pow(deg - j). */
  lemma {:induction false} TermScaleEval(src: seq<real>, sub: seq<real>, ts: seq<seq<real>>, j: nat, x: real, pp: seq<real>, t: real, s: real)
    requires |sub| > 0 && ts == Terms(src, sub) && j < |src| && pp == PowPoly(sub, |src| - 1 - j)
    requires t == PowerSum(ts[j], x) && s == PowerSum(pp, x)
    ensures t == src[j] * s
  {
    assert ts[j] == Scale(pp, src[j]);
    PowerSumScaleValues(pp, src[j], x, t, s);
  }

  /** sub.pow(k) evaluates to y^k, y being sub(x). */
  lemma {:induction false} PowPolyEvalValues(sub: seq<real>, k: nat, x: real, y: real, pp: seq<real>, s: real, w: real)
    requires |sub| > 0 && sub[0] != 0.0 && y == PowerSum(sub, x) && pp == PowPoly(sub, k)
    requires s == PowerSum(pp, x) && w == Pow(y, k)
    ensures s == w
  {
    PowPolyEval(sub, k, x, y);
  }

  lemma {:induction false} PowPolyEval(sub: seq<real>, k: nat, x: real, y: real)
    requires |sub| > 0 && sub[0] != 0.0 && y == PowerSum(sub, x)
    ensures PowerSum(PowPoly(sub, k), x) == Pow(y, k)
  {
    PowPolyExact(sub, k, x);
  }

  /** The values the addends should have: src[k] * y^(deg - k). */
  function AddendValues(src: seq<real>, y: real): (r: seq<real>)
    ensures |r| == |src|
  {
    seq(|src|, k requires 0 <= k < |src| => src[k] * Pow(y, |src| - 1 - k))
  }

  /** Addend k evaluates at x to src[k] * y^(deg - k). */
  ghost predicate TermsValued(ts: seq<seq<real>>, src: seq<real>, x: real, y: real)
    requires |ts| == |src|
  {
    forall k :: 0 <= k < |src| ==> PowerSum(ts[k], x) == AddendValues(src, y)[k]
  }

  lemma {:induction false} TermValueAt(ts: seq<seq<real>>, src: seq<real>, x: real, y: real, k: nat)
    requires |ts| == |src| && k < |src| && TermsValued(ts, src, x, y)
    ensures PowerSum(ts[k], x) == src[k] * Pow(y, |src| - 1 - k)
  {
    assert PowerSum(ts[k], x) == AddendValues(src, y)[k];
  }

  lemma {:induction false} TermsEval(src: seq<real>, sub: seq<real>, ts: seq<seq<real>>, x: real, y: real)
    requires |sub| > 0 && sub[0] != 0.0 && y == PowerSum(sub, x) && ts == Terms(src, sub)
    ensures TermsValued(ts, src, x, y)
  {
    forall k | 0 <= k < |src| ensures PowerSum(ts[k], x) == AddendValues(src, y)[k] {
      TermEvalAt(src, sub, ts, x, y, k);
    }
  }

  lemma {:induction false} TermEvalAt(src: seq<real>, sub: seq<real>, ts: seq<seq<real>>, x: real, y: real, k: nat)
    requires |sub| > 0 && sub[0] != 0.0 && y == PowerSum(sub, x) && ts == Terms(src, sub) && k < |src|
    ensures PowerSum(ts[k], x) == AddendValues(src, y)[k]
  {
    var pp := PowPoly(sub, |src| - 1 - k);
    var t, s, w := PowerSum(ts[k], x), PowerSum(pp, x), Pow(y, |src| - 1 - k);
    TermScaleEval(src, sub, ts, k, x, pp, t, s);
    PowPolyEvalValues(sub, |src| - 1 - k, x, y, pp, s, w);
    AddendAt(src, y, k, w);
  }

  lemma {:induction false} AddendAt(src: seq<real>, y: real, k: nat, w: real)
    requires k < |src| && w == Pow(y, |src| - 1 - k)
    ensures AddendValues(src, y)[k] == src[k] * w
  {
  }

  /** One in-place add of the loop adds the addend's value. */
  lemma {:induction false} AccumulateStep(ts: seq<seq<real>>, j: nat, x: real)
    requires FirstIsLongest(ts) && 0 < j < |ts|
    ensures PowerSum(Accumulate(ts, j), x) == PowerSum(Accumulate(ts, j - 1), x) + PowerSum(ts[j], x)
  {
    var acc := Accumulate(ts, j - 1);
    assert Accumulate(ts, j) == AddInto(acc, ts[j], acc);
    AddIntoLongerReceiver(acc, ts[j]);
    AlignedSumEval(acc, ts[j], x);
  }

  /** The prefix src[..j+1] evaluated by Horner's step from src[..j]. */
  lemma {:induction false} PrefixSnoc(src: seq<real>, j: nat, y: real)
    requires 0 < j < |src|
    ensures PowerSum(src[..j + 1], y) == PowerSum(src[..j], y) * y + src[j]
  {
    assert src[..j + 1] == src[..j] + [src[j]];
    PowerSumSnoc(src[..j], src[j], y);
  }

  /** The value the accumulator should have after the addends 0..j:
      y^(deg - j) * (src[0] y^j + ... + src[j]). */
  function HornerPrefix(src: seq<real>, y: real, j: nat): real
    requires j < |src|
  {
    Pow(y, |src| - 1 - j) * PowerSum(src[..j + 1], y)
  }

  /** Each pass adds src[j] * y^(deg - j) to the prefix value. */
  lemma {:induction false} HornerPrefixStep(src: seq<real>, y: real, j: nat)
    requires 0 < j < |src|
    ensures HornerPrefix(src, y, j) == HornerPrefix(src, y, j - 1) + src[j] * Pow(y, |src| - 1 - j)
  {
    HornerPrefixBack(src, y, j);
    PrefixSnoc(src, j, y);
    PowSucc(y, |src| - j, |src| - 1 - j);
    HornerAlgebra(Pow(y, |src| - j), PowerSum(src[..j], y), Pow(y, |src| - 1 - j), y,
                  PowerSum(src[..j + 1], y), src[j]);
  }

  /** The previous prefix value, with its indices written from j. */
  lemma {:induction false} HornerPrefixBack(src: seq<real>, y: real, j: nat)
    requires 0 < j < |src|
    ensures HornerPrefix(src, y, j - 1) == Pow(y, |src| - j) * PowerSum(src[..j], y)
  {
    assert |src| - 1 - (j - 1) == |src| - j && j - 1 + 1 == j;
  }

  lemma {:induction false} HornerAlgebra(q: real, s: real, p: real, y: real, w: real, t: real)
    requires q == y * p && w == s * y + t
    ensures p * w == q * s + t * p
  {
  }

  lemma {:induction false} HornerPrefixFirst(src: seq<real>, y: real)
    requires 0 < |src|
    ensures HornerPrefix(src, y, 0) == src[0] * Pow(y, |src| - 1)
  {
    assert PowerSum(src[..1], y) == src[0] * Pow(y, 0) + PowerSum(src[..1][1..], y);
  }

  /** If addend k evaluates to src[k] * y^(deg - k), then after the addends
      0..j the accumulator evaluates to y^(deg - j) * (src[0] y^j + ... +
      src[j]): Horner's rule run on the coefficients of src. */
  lemma {:induction false} AccumulateEval(ts: seq<seq<real>>, src: seq<real>, x: real, y: real, j: nat)
    requires FirstIsLongest(ts) && |ts| == |src| && j < |src| && TermsValued(ts, src, x, y)
    ensures PowerSum(Accumulate(ts, j), x) == HornerPrefix(src, y, j)
    decreases j
  {
    TermValueAt(ts, src, x, y, j);
    if j == 0 {
      HornerPrefixFirst(src, y);
    } else {
      AccumulateEval(ts, src, x, y, j - 1);
      AccumulateStep(ts, j, x);
      HornerPrefixStep(src, y, j);
    }
  }

  /** `substitute(p)` is composition: the result evaluated at x is the
      receiver evaluated at p(x), and it has deg * deg(p) + 1 coefficients. */
  lemma {:induction false} ComposedEval(src: seq<real>, sub: seq<real>, x: real)
    requires |src| > 0 && |sub| > 0 && sub[0] != 0.0
    ensures |Composed(src, sub)| == (|src| - 1) * (|sub| - 1) + 1
    ensures PowerSum(Composed(src, sub), x) == PowerSum(src, PowerSum(sub, x))
  {
    var y, ts := PowerSum(sub, x), Terms(src, sub);
    TermsLength(src, sub);
    TermsEval(src, sub, ts, x, y);
    AccumulateEval(ts, src, x, y, |src| - 1);
    HornerPrefixLast(src, y);
  }

  lemma {:induction false} HornerPrefixLast(src: seq<real>, y: real)
    requires |src| > 0
    ensures HornerPrefix(src, y, |src| - 1) == PowerSum(src, y)
  {
    assert src[..|src|] == src;
    assert Pow(y, 0) == 1.0;
  }
}
