/** The `Polynomial` class: a coefficient array in descending power order
    and a cache of roots that some operations keep and others drop.

    `coefs` is the Java `_coefs` array and `roots` the `_roots` array, `None`
    standing for `null`. Operations that return a new polynomial leave the
    receiver as it was; the `...Equals` forms change the receiver. */
module Polynomials {
  import opened Wrappers
  import opened Coefficients
  import opened ComplexNumbers
  import opened RootExpansion
  import opened Derivatives
  import opened Normalization
  import opened Composition

  class Polynomial {
    var coefs: array<real>
    var roots: Option<seq<Complex>>

    /** At least one coefficient, and a cached root list holds one root
        per degree. */
    ghost predicate Valid()
      reads this
    {
      coefs.Length > 0 && (roots.Some? ==> |roots.value| == coefs.Length - 1)
    }

    /** `new Polynomial()`: the constant 1. */
    constructor Default()
      ensures Valid() && fresh(coefs)
      ensures coefs[..] == [1.0] && roots == None
    {
      coefs := new real[1](_ => 1.0);
      roots := None;
    }

    /** The copy constructor: fresh arrays holding the same coefficients and
        the same cached roots. */
    constructor Copy(p: Polynomial)
      requires p.Valid()
      ensures Valid() && fresh(coefs)
      ensures coefs[..] == p.coefs[..] && roots == p.roots
    {
      var n := p.coefs.Length;
      var a := new real[n];
      forall k | 0 <= k < n {
        a[k] := p.coefs[k];
      }
      coefs := a;
      roots := p.roots;
    }

    /** `new Polynomial(double...)`: skips the leading zeros and copies the
        rest, or keeps the constant 1 when every coefficient is zero. */
    constructor FromCoefficients(c: seq<real>)
      ensures Valid() && fresh(coefs)
      ensures coefs[..] == Strip(c) && roots == None
    {
      var i := 0;
      while i < |c| && c[i] == 0.0
        invariant 0 <= i <= |c|
        invariant forall m :: 0 <= m < i ==> c[m] == 0.0
      {
        i := i + 1;
      }
      StripSkipsZeros(c, i);
      var a: array<real>;
      if i == |c| {
        a := new real[1](_ => 1.0);
        assert a[..] == [1.0];
      } else {
        a := new real[|c| - i](k requires 0 <= k < |c| - i => c[i + k]);
        assert a[..] == c[i..];
      }
      coefs := a;
      roots := None;
    }

    /** `new Polynomial(Complex...)`: starting from `[1, 0, ..., 0]`, each
        root z replaces entry j + 1 (j = 0..i) by itself minus z times entry
        j, the products being taken first into `tmp`. The coefficients are
        the real parts, and the roots are cached. */
    constructor FromRoots(rs: seq<Complex>)
      ensures Valid() && fresh(coefs)
      ensures coefs[..] == RealParts(Expand(rs)) && roots == Some(rs)
    {
      var size := |rs|;
      var tmp := new Complex[size](_ => Zero);
      var result := new Complex[size + 1](_ => Zero);
      result[0] := One;
      assert result[..1] == Expand(rs[..0]);
      for i := 0 to size
        invariant result[..i + 1] == Expand(rs[..i])
        invariant forall m :: i + 1 <= m <= size ==> result[m] == Zero
      {
        MultiplyByRoot(result, tmp, i, rs[i]);
        assert rs[..i + 1][..i] == rs[..i];
      }
      assert rs[..size] == rs;
      var a := new real[size + 1](k requires 0 <= k < size + 1 reads result => result[k].re);
      assert a[..] == RealParts(result[..]);
      coefs := a;
      roots := Some(rs);
    }

    /** One pass of the outer loop of `Polynomial(Complex...)` for the root z:
        the products z * result[j] go to `tmp`, then result[j + 1] loses
        tmp[j], for j = 0..i. */
    static method MultiplyByRoot(result: array<Complex>, tmp: array<Complex>, i: nat, z: Complex)
      requires result != tmp && i < tmp.Length && tmp.Length + 1 == result.Length
      requires forall m :: i + 1 <= m < result.Length ==> result[m] == Zero
      modifies result, tmp
      ensures result[..i + 2] == ExpandStep(old(result[..i + 1]), z)
      ensures forall m :: i + 2 <= m < result.Length ==> result[m] == Zero
    {
      ghost var c := result[..i + 1];
      ScaleRoots(result, tmp, i, z);
      ghost var p := Products(z, c);
      SubtractProducts(result, tmp, i, c, p);
      ExpandStepShifted(c, z);
    }

    /** The first inner loop: tmp[j] := z * result[j] for j = 0..i. */
    static method ScaleRoots(result: array<Complex>, tmp: array<Complex>, i: nat, z: Complex)
      requires result != tmp && i < tmp.Length && tmp.Length + 1 == result.Length
      modifies tmp
      ensures forall m :: 0 <= m <= i ==> tmp[m] == Mul(z, result[m])
    {
      for j := 0 to i + 1
        invariant forall m :: 0 <= m < j ==> tmp[m] == Mul(z, result[m])
      {
        tmp[j] := Mul(z, result[j]);
      }
    }

    /** The second inner loop: result[j + 1] -= tmp[j] for j = 0..i, where
        tmp holds the products p. */
    static method SubtractProducts(result: array<Complex>, tmp: array<Complex>, i: nat, ghost c: seq<Complex>, ghost p: seq<Complex>)
      requires result != tmp && i < tmp.Length && tmp.Length + 1 == result.Length
      requires c == result[..i + 1] && |p| == i + 1
      requires forall m :: 0 <= m <= i ==> tmp[m] == p[m]
      requires forall m :: i + 1 <= m < result.Length ==> result[m] == Zero
      modifies result
      ensures result[..i + 2] == SubShifted(c, p)
      ensures forall m :: i + 2 <= m < result.Length ==> result[m] == Zero
    {
      ghost var e := SubShifted(c, p);
      for j := 0 to i + 1
        invariant forall m :: 0 <= m <= j ==> result[m] == e[m]
        invariant forall m :: j + 1 <= m < result.Length ==> result[m] == (if m <= i then c[m] else Zero)
      {
        SubShiftedAt(c, p, j + 1, result[j + 1]);
        result[j + 1] := Sub(result[j + 1], tmp[j]);
      }
    }

    /** `degree()`: never negative, one less than the number of coefficients. */
    function Degree(): (d: int)
      requires Valid()
      reads this
      ensures d >= 0 && d + 1 == coefs.Length
    {
      coefs.Length - 1
    }

    /** `getCoefficients()`: a fresh copy, so the caller cannot change the
        receiver through it. */
    method GetCoefficients() returns (r: array<real>)
      ensures fresh(r) && r[..] == coefs[..]
    {
      r := new real[coefs.Length];
      forall k | 0 <= k < coefs.Length {
        r[k] := coefs[k];
      }
    }

    /** `getCoefficientAt(index)`; an index outside the array throws in Java. */
    function GetCoefficientAt(index: int): (r: Option<real>)
      reads this, coefs
      ensures r.Some? <==> 0 <= index < coefs.Length
      ensures r.Some? ==> r.value == coefs[index]
    {
      if 0 <= index < coefs.Length then Some(coefs[index]) else None
    }

    /** `evaluateAt(x)` by Horner's method: the value of the polynomial at x. */
    method EvaluateAt(x: real) returns (y: real)
      ensures y == PowerSum(coefs[..], x)
    {
      y := 0.0;
      for i := 0 to coefs.Length
        invariant y == Horner(coefs[..i], x)
      {
        assert coefs[..i + 1][..i] == coefs[..i];
        y := y * x + coefs[i];
      }
      assert coefs[..coefs.Length] == coefs[..];
      HornerIsPowerSum(coefs[..], x);
    }

    /** `evaluateAt(double[])`: Horner's method at every point, each entry
        of the fresh result starting from 0. */
    method EvaluateAtArray(xs: array<real>) returns (ys: array<real>)
      ensures fresh(ys) && ys.Length == xs.Length
      ensures forall i :: 0 <= i < xs.Length ==> ys[i] == PowerSum(coefs[..], xs[i])
    {
      ys := new real[xs.Length](_ => 0.0);
      for i := 0 to xs.Length
        invariant forall m :: 0 <= m < i ==> ys[m] == PowerSum(coefs[..], xs[m])
        invariant forall m :: i <= m < xs.Length ==> ys[m] == 0.0
      {
        for k := 0 to coefs.Length
          invariant ys[i] == Horner(coefs[..k], xs[i])
          invariant forall m :: 0 <= m < i ==> ys[m] == PowerSum(coefs[..], xs[m])
          invariant forall m :: i < m < xs.Length ==> ys[m] == 0.0
        {
          assert coefs[..k + 1][..k] == coefs[..k];
          ys[i] := ys[i] * xs[i] + coefs[k];
        }
        assert coefs[..coefs.Length] == coefs[..];
        HornerIsPowerSum(coefs[..], xs[i]);
      }
    }

    /** `addOp(p1, p2, result)`: walking back from the last index of all
        three arrays, `result[k]` becomes the sum of the aligned coefficients
        while both operands still have one. `result` may be `p1`'s own array
        (`addEquals`), and `p2` may be `p1` itself. */
    static method AddOp(p1: Polynomial, p2: Polynomial, result: array<real>)
      requires p1.Valid() && p2.Valid()
      requires result.Length >= Min(p1.coefs.Length, p2.coefs.Length)
      requires result == p1.coefs || result != p2.coefs
      modifies result
      ensures result[..] == AddInto(old(p1.coefs[..]), old(p2.coefs[..]), old(result[..]))
    {
      var c1, c2 := p1.coefs, p2.coefs;
      ghost var a, b, buf := c1[..], c2[..], result[..];
      ghost var d1, d2 := |buf| - |a|, |buf| - |b|;
      var i, j, k := c1.Length - 1, c2.Length - 1, result.Length - 1;
      while i >= 0 && j >= 0
        invariant k == i + d1 == j + d2 && -1 <= i && -1 <= j
        invariant c1 == result ==> i == k
        invariant c2 == result ==> j == k
        invariant forall q :: 0 <= q <= k ==> result[q] == buf[q]
        invariant forall q :: k < q < |buf| ==> result[q] == a[q - d1] + b[q - d2]
      {
        result[k] := c1[i] + c2[j];
        i, j, k := i - 1, j - 1, k - 1;
      }
      AddIntoPointwise(a, b, buf, result[..], k, d1, d2);
    }

    /** `subtractOp(p1, p2, result)`: as `addOp`, with differences. */
    static method SubtractOp(p1: Polynomial, p2: Polynomial, result: array<real>)
      requires p1.Valid() && p2.Valid()
      requires result.Length >= Min(p1.coefs.Length, p2.coefs.Length)
      requires result == p1.coefs || result != p2.coefs
      modifies result
      ensures result[..] == SubtractInto(old(p1.coefs[..]), old(p2.coefs[..]), old(result[..]))
    {
      var c1, c2 := p1.coefs, p2.coefs;
      ghost var a, b, buf := c1[..], c2[..], result[..];
      ghost var d1, d2 := |buf| - |a|, |buf| - |b|;
      var i, j, k := c1.Length - 1, c2.Length - 1, result.Length - 1;
      while i >= 0 && j >= 0
        invariant k == i + d1 == j + d2 && -1 <= i && -1 <= j
        invariant c1 == result ==> i == k
        invariant c2 == result ==> j == k
        invariant forall q :: 0 <= q <= k ==> result[q] == buf[q]
        invariant forall q :: k < q < |buf| ==> result[q] == a[q - d1] - b[q - d2]
      {
        result[k] := c1[i] - c2[j];
        i, j, k := i - 1, j - 1, k - 1;
      }
      SubtractIntoPointwise(a, b, buf, result[..], k, d1, d2);
    }

    /** `add(p)`: `addOp` into a zeroed buffer of the longer length, then
        the coefficient constructor. */
    method Add(p: Polynomial) returns (r: Polynomial)
      requires Valid() && p.Valid()
      ensures fresh(r) && fresh(r.coefs) && r.Valid() && r.roots == None
      ensures r.coefs[..] == Strip(AddInto(coefs[..], p.coefs[..], Zeros(Max(coefs.Length, p.coefs.Length))))
    {
      var result := new real[Max(coefs.Length, p.coefs.Length)](_ => 0.0);
      assert result[..] == Zeros(result.Length);
      AddOp(this, p, result);
      r := new Polynomial.FromCoefficients(result[..]);
    }

    /** `addEquals(p)`: `addOp` into the receiver's own array; the root
        cache is dropped. */
    method AddEquals(p: Polynomial)
      requires Valid() && p.Valid()
      requires p == this || p.coefs != coefs
      modifies this, coefs
      ensures coefs == old(coefs) && Valid() && roots == None
      ensures coefs[..] == AddInto(old(coefs[..]), old(p.coefs[..]), old(coefs[..]))
    {
      AddOp(this, p, coefs);
      roots := None;
    }

    /** `subtract(p)`: `subtractOp` into a zeroed buffer of the longer length,
        then the coefficient constructor. */
    method Subtract(p: Polynomial) returns (r: Polynomial)
      requires Valid() && p.Valid()
      ensures fresh(r) && fresh(r.coefs) && r.Valid() && r.roots == None
      ensures r.coefs[..] == Strip(SubtractInto(coefs[..], p.coefs[..], Zeros(Max(coefs.Length, p.coefs.Length))))
    {
      var result := new real[Max(coefs.Length, p.coefs.Length)](_ => 0.0);
      assert result[..] == Zeros(result.Length);
      SubtractOp(this, p, result);
      r := new Polynomial.FromCoefficients(result[..]);
    }

    /** `subtractEquals(p)`: `subtractOp` into the receiver's own array; the
        root cache is dropped. */
    method SubtractEquals(p: Polynomial)
      requires Valid() && p.Valid()
      requires p == this || p.coefs != coefs
      modifies this, coefs
      ensures coefs == old(coefs) && Valid() && roots == None
      ensures coefs[..] == SubtractInto(old(coefs[..]), old(p.coefs[..]), old(coefs[..]))
    {
      SubtractOp(this, p, coefs);
      roots := None;
    }

    /** `multiply(p)`: the convolution, through the coefficient constructor. */
    method Multiply(p: Polynomial) returns (r: Polynomial)
      requires Valid() && p.Valid()
      ensures fresh(r) && fresh(r.coefs) && r.Valid() && r.roots == None
      ensures r.coefs[..] == Strip(Conv(coefs[..], p.coefs[..]))
    {
      r := new Polynomial.FromCoefficients(Conv(coefs[..], p.coefs[..]));
    }

    /** `multiplyEquals(p)`: the receiver takes the convolution as it is
        (no stripping); the root cache is dropped. */
    method MultiplyEquals(p: Polynomial)
      requires Valid() && p.Valid()
      modifies this
      ensures fresh(coefs) && Valid() && roots == None
      ensures coefs[..] == Conv(old(coefs[..]), old(p.coefs[..]))
    {
      var c := Conv(coefs[..], p.coefs[..]);
      coefs := new real[|c|](k requires 0 <= k < |c| => c[k]);
      assert coefs[..] == c;
      roots := None;
    }

    /** `multiply(d)`: every coefficient times d, through the coefficient
        constructor. */
    method MultiplyScalar(d: real) returns (r: Polynomial)
      requires Valid()
      ensures fresh(r) && fresh(r.coefs) && r.Valid() && r.roots == None
      ensures r.coefs[..] == Strip(Scale(coefs[..], d))
    {
      r := new Polynomial.FromCoefficients(Scale(coefs[..], d));
    }

    /** `multiplyEquals(d)`: every coefficient times d, in place. The root
        cache is kept. */
    method MultiplyEqualsScalar(d: real)
      requires Valid()
      modifies coefs
      ensures Valid() && coefs[..] == Scale(old(coefs[..]), d)
    {
      ghost var c := coefs[..];
      for i := 0 to coefs.Length
        invariant forall q :: 0 <= q < i ==> coefs[q] == c[q] * d
        invariant forall q :: i <= q < coefs.Length ==> coefs[q] == c[q]
      {
        coefs[i] := coefs[i] * d;
      }
      assert forall q :: 0 <= q < coefs.Length ==> coefs[..][q] == Scale(c, d)[q];
      assert coefs[..] == Scale(c, d);
    }

    /** `pow(n)`: throws for a negative n, gives the constant 1 for n = 0,
        and otherwise convolves a copy of the coefficients with them n - 1
        times before the coefficient constructor. */
    method Pow(n: int) returns (r: Option<Polynomial>)
      requires Valid()
      ensures r.None? <==> n < 0
      ensures r.Some? ==> fresh(r.value) && fresh(r.value.coefs) && r.value.Valid() && r.value.roots == None
      ensures r.Some? ==> r.value.coefs[..] == Strip(PowCoefs(coefs[..], n))
    {
      if n < 0 {
        return None;
      }
      if n == 0 {
        var one := new Polynomial.FromCoefficients([1.0]);
        return Some(one);
      }
      var c := coefs[..];
      var tmp := c;
      var m := n - 1;
      while m > 0
        invariant 0 <= m < n && tmp == PowCoefs(c, n - m)
      {
        tmp := Conv(tmp, c);
        m := m - 1;
      }
      var p := new Polynomial.FromCoefficients(tmp);
      return Some(p);
    }

    /** `derivative()`: a zeroed buffer of `deg` slots, filled by a loop
        whose bound `length` is decremented in every pass; entry i gets
        `coefs[i] * length` with `length == deg - i`. The result goes
        through the coefficient constructor. */
    method Derivative() returns (r: Polynomial)
      requires Valid()
      ensures fresh(r) && fresh(r.coefs) && r.Valid() && r.roots == None
      ensures r.coefs[..] == Strip(DerivativeAsWritten(coefs[..]))
    {
      ghost var c := coefs[..];
      ghost var deg := coefs.Length - 1;
      var length := coefs.Length - 1;
      var coefficients := new real[length](_ => 0.0);
      var i := 0;
      while i < length
        invariant 0 <= i && length == deg - i && 2 * i <= deg + 1
        invariant forall q :: 0 <= q < i ==> coefficients[q] == c[q] * ((deg - q) as real)
        invariant forall q :: i <= q < deg ==> coefficients[q] == 0.0
      {
        coefficients[i] := coefs[i] * (length as real);
        length := length - 1;
        i := i + 1;
      }
      forall q | 0 <= q < deg ensures coefficients[q] == DerivativeAsWritten(c)[q] {
        if 2 * q < deg {
          assert q < i;
        } else {
          assert i <= q;
        }
      }
      assert coefficients[..] == DerivativeAsWritten(c);
      r := new Polynomial.FromCoefficients(coefficients[..]);
    }

    /** The nested loops of `substitute(d)` and `substituteEquals(d)`:
        coefficient i is multiplied by d once for every j in i..deg-1. */
    static method ScaleByPowers(a: array<real>, d: real)
      requires a.Length > 0
      modifies a
      ensures a[..] == ScaledByPowers(old(a[..]), d)
    {
      ghost var c := a[..];
      var deg := a.Length - 1;
      for i := 0 to deg
        invariant forall q :: 0 <= q < i ==> a[q] == c[q] * Coefficients.Pow(d, deg - q)
        invariant forall q :: i <= q < a.Length ==> a[q] == c[q]
      {
        ScaleEntry(a, i, d, deg - i);
      }
      assert a[deg] == c[deg] * Coefficients.Pow(d, 0);
      assert forall q :: 0 <= q < a.Length ==> a[q] == ScaledByPowers(c, d)[q];
      assert a[..] == ScaledByPowers(c, d);
    }

    /** The inner loop: entry i multiplied by d, n times over. */
    static method ScaleEntry(a: array<real>, i: int, d: real, n: nat)
      requires 0 <= i < a.Length
      modifies a
      ensures a[i] == old(a[i]) * Coefficients.Pow(d, n)
      ensures forall q :: 0 <= q < a.Length && q != i ==> a[q] == old(a[q])
    {
      ghost var x := a[i];
      for j := 0 to n
        invariant a[i] == x * Coefficients.Pow(d, j)
        invariant forall q :: 0 <= q < a.Length && q != i ==> a[q] == old(a[q])
      {
        MulPowStep(x, d, j);
        a[i] := a[i] * d;
      }
    }

    /** `substitute(d)`: the scaling on a copy, through the coefficient
        constructor. */
    method SubstituteScalar(d: real) returns (r: Polynomial)
      requires Valid()
      ensures fresh(r) && fresh(r.coefs) && r.Valid() && r.roots == None
      ensures r.coefs[..] == Strip(ScaledByPowers(coefs[..], d))
    {
      var result := GetCoefficients();
      ScaleByPowers(result, d);
      r := new Polynomial.FromCoefficients(result[..]);
    }

    /** `substituteEquals(d)`: the scaling in place; the root cache is
        dropped. */
    method SubstituteEqualsScalar(d: real)
      requires Valid()
      modifies this, coefs
      ensures coefs == old(coefs) && Valid() && roots == None
      ensures coefs[..] == ScaledByPowers(old(coefs[..]), d)
    {
      ScaleByPowers(coefs, d);
      roots := None;
    }

    /** `substituteOp(src, sub)`: `sub.pow(deg)` scaled in place by
        `src[0]`, then for j = 1..deg the addend `sub.pow(deg - j)` scaled
        by `src[j]` is added in place. */
    static method SubstituteOp(src: Polynomial, sub: Polynomial) returns (res: Polynomial)
      requires src.Valid() && sub.Valid()
      ensures fresh(res) && fresh(res.coefs) && res.Valid() && res.roots == None
      ensures res.coefs[..] == Composed(src.coefs[..], sub.coefs[..])
    {
      ghost var s0, u0 := src.coefs[..], sub.coefs[..];
      ghost var ts := Terms(s0, u0);
      var deg := src.coefs.Length - 1;
      res := FirstTerm(sub, deg, src.coefs[0]);
      TermAt(s0, u0, 0, deg);
      var i, j := deg - 1, 1;
      while i >= 0
        invariant i + j == deg && 1 <= j <= deg + 1
        invariant fresh(res) && fresh(res.coefs) && res.Valid() && res.roots == None
        invariant src.coefs[..] == s0 && sub.coefs[..] == u0
        invariant res.coefs[..] == Accumulate(ts, j - 1)
      {
        AddTerm(res, sub, i, src.coefs[j]);
        TermAt(s0, u0, j, i);
        AccumulateNext(ts, j);
        i, j := i - 1, j + 1;
      }
      ComposedUnfold(s0, u0, res.coefs[..], j - 1);
    }

    /** Before the loop of `substituteOp`: `sub.pow(deg)` scaled in place
        by `c0`. */
    static method FirstTerm(sub: Polynomial, deg: nat, c0: real) returns (res: Polynomial)
      requires sub.Valid()
      ensures fresh(res) && fresh(res.coefs) && res.Valid() && res.roots == None
      ensures res.coefs[..] == Scale(Strip(PowCoefs(sub.coefs[..], deg)), c0)
    {
      var first := sub.Pow(deg);
      res := first.value;
      res.MultiplyEqualsScalar(c0);
    }

    /** One pass of the loop of `substituteOp`: `sub.pow(i)` scaled in
        place by `cj`, then added in place to `res`. */
    static method AddTerm(res: Polynomial, sub: Polynomial, i: nat, cj: real)
      requires res.Valid() && sub.Valid() && res != sub && res.coefs != sub.coefs
      modifies res, res.coefs
      ensures res.coefs == old(res.coefs) && res.Valid() && res.roots == None
      ensures res.coefs[..] == AddInto(old(res.coefs[..]), Scale(Strip(PowCoefs(sub.coefs[..], i)), cj), old(res.coefs[..]))
    {
      var next := sub.Pow(i);
      var tmp := next.value;
      tmp.MultiplyEqualsScalar(cj);
      res.AddEquals(tmp);
    }

    /** `substitute(p)`: the composition, the receiver unchanged. */
    method Substitute(p: Polynomial) returns (r: Polynomial)
      requires Valid() && p.Valid()
      ensures fresh(r) && fresh(r.coefs) && r.Valid() && r.roots == None
      ensures r.coefs[..] == Composed(coefs[..], p.coefs[..])
    {
      r := SubstituteOp(this, p);
    }

    /** `substituteEquals(p)`: the receiver takes the composition's array;
        the root cache is dropped. */
    method SubstituteEquals(p: Polynomial)
      requires Valid() && p.Valid()
      modifies this
      ensures fresh(coefs) && Valid() && roots == None
      ensures coefs[..] == Composed(old(coefs[..]), old(p.coefs[..]))
    {
      var result := SubstituteOp(this, p);
      coefs := result.coefs;
      roots := None;
    }

    /** `normalize()`: every coefficient after the first divided by the
        first, then the first set to 1; returns the old first coefficient.
        The root cache is kept. */
    method Normalize() returns (cn: real)
      requires Valid() && coefs[0] != 0.0
      modifies coefs
      ensures Valid() && cn == old(coefs[0])
      ensures coefs[..] == Normalized(old(coefs[..]))
    {
      ghost var c := coefs[..];
      cn := coefs[0];
      for j := 1 to coefs.Length
        invariant coefs[0] == cn
        invariant forall q :: 1 <= q < j ==> coefs[q] == c[q] / cn
        invariant forall q :: j <= q < coefs.Length ==> coefs[q] == c[q]
      {
        coefs[j] := coefs[j] / cn;
      }
      coefs[0] := 1.0;
      assert coefs[..] == Normalized(c);
    }

    /** `denormalize()`: the search for the gain walks down from the
        constant term while the coefficient is not positive, stopping at
        index 0 at the latest (reading index -1, which throws, only for a
        single coefficient that is not positive); then every coefficient is
        divided in place by the one at the gain's index, which itself
        becomes 1 on the way. `ok` is false where Java throws, and then
        nothing has changed. The root cache is kept. */
    method Denormalize() returns (ok: bool)
      requires Valid() && (Pivot(coefs[..]) == Some(0) ==> coefs[0] != 0.0)
      modifies coefs
      ensures Valid()
      ensures ok <==> Pivot(old(coefs[..])).Some?
      ensures ok ==> coefs[..] == DenormalizedAsWritten(old(coefs[..]), Pivot(old(coefs[..])).value)
      ensures !ok ==> coefs[..] == old(coefs[..])
    {
      var gain := FindGain(coefs);
      if gain.None? {
        return false;
      }
      PivotSpec(coefs[..]);
      DivideByEntry(coefs, gain.value);
      ok := true;
    }

    /** The search loop of `denormalize()`; `None` where it reads index -1. */
    static method FindGain(a: array<real>) returns (r: Option<nat>)
      requires a.Length > 0
      ensures r == Pivot(a[..])
    {
      ghost var c := a[..];
      var i := a.Length - 1;
      if a.Length == 1 {
        return if a[0] > 0.0 then Some(0) else None;
      }
      while a[i] <= 0.0
        decreases i
        invariant 1 <= i < a.Length && PivotSearch(c, i) == PivotSearch(c, a.Length - 1)
      {
        i := i - 1;
        if i == 0 {
          break;
        }
      }
      return Some(i);
    }

    /** The division loop of `denormalize()`: every entry divided by the
        entry at p as it stands when it is read. */
    static method DivideByEntry(a: array<real>, p: nat)
      requires p < a.Length && a[p] != 0.0
      modifies a
      ensures a[..] == DenormalizedAsWritten(old(a[..]), p)
    {
      ghost var c := a[..];
      ghost var g := c[p];
      for j := 0 to a.Length
        invariant forall q :: 0 <= q < j && q < p ==> a[q] == c[q] / g
        invariant j > p ==> a[p] == 1.0
        invariant forall q :: p < q < j ==> a[q] == c[q]
        invariant forall q :: j <= q < a.Length ==> a[q] == c[q]
      {
        if j == p {
          DivSelf(g);
        }
        a[j] := a[j] / a[p];
      }
      DivSelf(g);
      assert forall q :: 0 <= q < a.Length ==> a[q] == DenormalizedAsWritten(c, p)[q];
      assert a[..] == DenormalizedAsWritten(c, p);
    }

    /** `roots()`: computed only when the cache is empty; degree 0 has no
        root, degree 1 the root -c[1]/c[0], any higher degree the degree()
        values the external solver `solve` returns. The caller gets a copy. */
    method Roots(solve: seq<real> -> seq<Complex>) returns (rs: seq<Complex>)
      requires Valid() && (roots.None? && coefs.Length == 2 ==> coefs[0] != 0.0)
      requires roots.None? && coefs.Length > 2 ==> |solve(coefs[..])| == coefs.Length - 1
      modifies this
      ensures Valid() && |rs| == coefs.Length - 1
      ensures coefs == old(coefs) && roots == Some(rs)
      ensures old(roots).Some? ==> rs == old(roots).value
      ensures old(roots).None? && coefs.Length == 1 ==> rs == []
      ensures old(roots).None? && coefs.Length == 2 ==> rs == [Complex(-coefs[1] / coefs[0], 0.0)]
      ensures old(roots).None? && coefs.Length > 2 ==> rs == solve(coefs[..])
    {
      if roots.None? {
        var n := coefs.Length - 1;
        if n == 0 {
          roots := Some([]);
        } else if n == 1 {
          roots := Some([Complex(-coefs[1] / coefs[0], 0.0)]);
        } else {
          roots := Some(solve(coefs[..]));
        }
      }
      rs := roots.value;
    }
  }
}
