/** Expansion of a polynomial from its roots, as `Polynomial(Complex...)`
    performs it: starting from `[1]`, each root z turns the coefficients c
    (of degree i) into those of c * (x - z), entry m + 1 becoming
    `c[m+1] - z * c[m]`. Only the real parts are kept as coefficients. */
module RootExpansion {
  import opened Coefficients
  import opened ComplexNumbers

  /** One pass of the outer loop: `result[0]` is untouched and every entry
      `m` in 1..|c| loses `z` times the entry before it, the last one
      starting from `new Complex()`. */
  function ExpandStep(c: seq<Complex>, z: Complex): (r: seq<Complex>)
    requires |c| > 0
    ensures |r| == |c| + 1
  {
    seq(|c| + 1, m requires 0 <= m < |c| + 1 =>
      if m == 0 then c[0] else Sub((c + [Zero])[m], Mul(z, c[m - 1])))
  }

  /** The products z * c[m], as the first inner loop leaves them in `tmp`. */
  function Products(z: Complex, c: seq<Complex>): (r: seq<Complex>)
    ensures |r| == |c|
  {
    seq(|c|, m requires 0 <= m < |c| => Mul(z, c[m]))
  }

  /** What the second inner loop computes from c and the products p: entry
      m in 1..|c| becomes the old entry (0 past the end) less p[m - 1]. */
  function SubShifted(c: seq<Complex>, p: seq<Complex>): (r: seq<Complex>)
    requires |c| > 0 && |p| == |c|
    ensures |r| == |c| + 1
  {
    seq(|c| + 1, m requires 0 <= m < |c| + 1 =>
      if m == 0 then c[0] else Sub((c + [Zero])[m], p[m - 1]))
  }

  /** Entry m > 0 of `SubShifted`, given the old entry a. */
  lemma {:induction false} SubShiftedAt(c: seq<Complex>, p: seq<Complex>, m: nat, a: Complex)
    requires |c| > 0 && |p| == |c| && 0 < m <= |c|
    requires a == (if m < |c| then c[m] else Zero)
    ensures SubShifted(c, p)[m] == Sub(a, p[m - 1])
  {
    assert (c + [Zero])[m] == a;
  }

  /** The two inner loops together are one pass. */
  lemma {:induction false} ExpandStepShifted(c: seq<Complex>, z: Complex)
    requires |c| > 0
    ensures SubShifted(c, Products(z, c)) == ExpandStep(c, z)
  {
    var p := Products(z, c);
    forall m | 0 < m < |c| + 1 ensures SubShifted(c, p)[m] == ExpandStep(c, z)[m] {
      assert p[m - 1] == Mul(z, c[m - 1]);
    }
  }

  /** The complex coefficients after processing every root in order. */
  function Expand(roots: seq<Complex>): (r: seq<Complex>)
    ensures |r| == |roots| + 1
    decreases |roots|
  {
    if |roots| == 0 then [One]
    else ExpandStep(Expand(roots[..|roots| - 1]), roots[|roots| - 1])
  }

  function RealParts(c: seq<Complex>): (r: seq<real>)
    ensures |r| == |c|
  {
    seq(|c|, i requires 0 <= i < |c| => c[i].re)
  }

  /** The monic polynomial with the given real roots, built one linear
      factor at a time. */
  function RealExpand(rs: seq<real>): (r: seq<real>)
    ensures |r| == |rs| + 1
    decreases |rs|
  {
    if |rs| == 0 then [1.0] else MulLinear(RealExpand(rs[..|rs| - 1]), rs[|rs| - 1])
  }

  /** The product of (x - r) over the roots. */
  function Product(rs: seq<real>, x: real): real
    decreases |rs|
  {
    if |rs| == 0 then 1.0 else (x - rs[|rs| - 1]) * Product(rs[..|rs| - 1], x)
  }

  ghost predicate AllReal(roots: seq<Complex>)
  {
    forall i :: 0 <= i < |roots| ==> IsReal(roots[i])
  }

  /** `result[0]` is never updated: the expansion is monic. */
  lemma {:induction false} ExpandLeading(roots: seq<Complex>)
    ensures Expand(roots)[0] == One
    decreases |roots|
  {
    if |roots| > 0 {
      ExpandLeading(roots[..|roots| - 1]);
    }
  }

  /** For real roots every coefficient is real and the real parts are the
      real expansion. */
  lemma {:induction false} ExpandRealRoots(roots: seq<Complex>)
    requires AllReal(roots)
    ensures forall m :: 0 <= m < |Expand(roots)| ==> IsReal(Expand(roots)[m])
    ensures RealParts(Expand(roots)) == RealExpand(RealParts(roots))
    decreases |roots|
  {
    if |roots| > 0 {
      var front := roots[..|roots| - 1];
      assert AllReal(front) by {
        forall i | 0 <= i < |front| ensures IsReal(front[i]) {
          assert front[i] == roots[i];
        }
      }
      ExpandRealRoots(front);
      assert RealParts(roots)[..|roots| - 1] == RealParts(front);
      ExpandStepReal(Expand(front), roots[|roots| - 1]);
    }
  }

  /** One pass with a real root over real coefficients is the real product
      with the linear factor. */
  lemma {:induction false} ExpandStepReal(c: seq<Complex>, z: Complex)
    requires |c| > 0 && IsReal(z)
    requires forall m :: 0 <= m < |c| ==> IsReal(c[m])
    ensures forall m :: 0 <= m < |c| + 1 ==> IsReal(ExpandStep(c, z)[m])
    ensures RealParts(ExpandStep(c, z)) == MulLinear(RealParts(c), z.re)
  {
    var e, rc := ExpandStep(c, z), RealParts(c);
    forall m | 0 <= m < |e| ensures IsReal(e[m]) && e[m].re == MulLinear(rc, z.re)[m] {
      MulLinearAt(rc, z.re, m);
      if m > 0 {
        assert IsReal(c[m - 1]);
        RealArithmetic(z, c[m - 1]);
        if m < |c| {
          assert IsReal(c[m]);
          RealArithmetic(c[m], Mul(z, c[m - 1]));
        }
      }
    }
    assert |RealParts(e)| == |MulLinear(rc, z.re)|;
  }

  /** The real expansion evaluates to the product of the linear factors. */
  lemma {:induction false} RealExpandEval(rs: seq<real>, x: real)
    ensures PowerSum(RealExpand(rs), x) == Product(rs, x)
    decreases |rs|
  {
    if |rs| == 0 {
      assert PowerSum([1.0], x) == 1.0 * Pow(x, 0) + PowerSum([1.0][1..], x);
    } else {
      RealExpandEval(rs[..|rs| - 1], x);
      MulLinearEval(RealExpand(rs[..|rs| - 1]), rs[|rs| - 1], x);
    }
  }

  /** Every root is a zero of the product. */
  lemma {:induction false} ProductVanishes(rs: seq<real>, i: nat)
    requires i < |rs|
    ensures Product(rs, rs[i]) == 0.0
    decreases |rs|
  {
    if i < |rs| - 1 {
      assert rs[..|rs| - 1][i] == rs[i];
      ProductVanishes(rs[..|rs| - 1], i);
    }
  }

  /** The coefficients built from real roots vanish at each of them. */
  lemma {:induction false} ExpansionVanishesAtRoots(roots: seq<Complex>, i: nat)
    requires AllReal(roots) && i < |roots|
    ensures PowerSum(RealParts(Expand(roots)), roots[i].re) == 0.0
  {
    ExpandRealRoots(roots);
    RealExpandEval(RealParts(roots), roots[i].re);
    ProductVanishes(RealParts(roots), i);
  }

  /** The root `roots()` reports for degree 1 is a zero of the polynomial,
      and the only one. */
  lemma {:induction false} LinearRootVanishes(c: seq<real>, x: real)
    requires |c| == 2 && c[0] != 0.0
    ensures PowerSum(c, x) == 0.0 <==> x == -c[1] / c[0]
  {
    assert c[1..][1..] == [];
    assert PowerSum(c, x) == c[0] * Pow(x, 1) + (c[1] * Pow(x, 0) + PowerSum(c[1..][1..], x));
    LinearZero(c[0], c[1], x);
  }

  lemma {:induction false} LinearZero(a: real, b: real, x: real)
    requires a != 0.0
    ensures a * x + b == 0.0 <==> x == -b / a
  {
    if a * x + b == 0.0 {
      assert x == (a * x) / a;
    }
  }
}
