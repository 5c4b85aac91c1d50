/** Coefficient sequences and what they mean.

    A coefficient sequence lists a polynomial's coefficients in descending
    power order, the way `Polynomial` stores them: `c[0]` multiplies
    `x^(|c|-1)` and `c[|c|-1]` is the constant term. Coefficients are real
    numbers; floating-point rounding is not modelled. */
module Coefficients {

  function Min(a: int, b: int): int { if a <= b then a else b }

  function Max(a: int, b: int): int { if a >= b then a else b }

  function Pow(x: real, n: nat): real
    decreases n
  {
    if n == 0 then 1.0 else x * Pow(x, n - 1)
  }

  /** The value of the polynomial at `x`: the sum of `c[i] * x^(|c|-1-i)`. */
  function PowerSum(c: seq<real>, x: real): real
    decreases |c|
  {
    if |c| == 0 then 0.0 else c[0] * Pow(x, |c| - 1) + PowerSum(c[1..], x)
  }

  /** Horner's recurrence `result := result * x + c[i]`, taken from `c[0]` to
      the constant term, starting from 0. */
  function Horner(c: seq<real>, x: real): real
    decreases |c|
  {
    if |c| == 0 then 0.0 else Horner(c[..|c| - 1], x) * x + c[|c| - 1]
  }

  function Zeros(n: nat): seq<real>
  {
    seq(n, _ => 0.0)
  }

  ghost predicate AllZero(c: seq<real>)
  {
    forall i :: 0 <= i < |c| ==> c[i] == 0.0
  }

  /** Every coefficient multiplied by `d`. */
  function Scale(c: seq<real>, d: real): seq<real>
  {
    seq(|c|, i requires 0 <= i < |c| => c[i] * d)
  }

  /** Index-wise sum of two sequences of one length. */
  function Add(a: seq<real>, b: seq<real>): seq<real>
    requires |a| == |b|
  {
    seq(|a|, i requires 0 <= i < |a| => a[i] + b[i])
  }

  /** The coefficients the constructor keeps: the leading run of exact zeros
      is dropped, and an input with no nonzero entry becomes `[1.0]`. */
  function Strip(c: seq<real>): seq<real>
    decreases |c|
  {
    if |c| == 0 then [1.0] else if c[0] == 0.0 then Strip(c[1..]) else c
  }

  /** ArrayUtils.conv: the full discrete convolution, written as the
      recurrence on the leading coefficient,
      a * b = a[0] * b * x^(|a|-1) + a[1..] * b. */
  function Conv(a: seq<real>, b: seq<real>): (r: seq<real>)
    requires |a| > 0
    ensures |r| == |a| + |b| - 1
    decreases |a|
  {
    if |a| == 1 then Scale(b, a[0])
    else Add(Scale(b, a[0]) + Zeros(|a| - 1), [0.0] + Conv(a[1..], b))
  }

  /** The buffer `pow(n)` builds before stripping: `[1.0]` for n = 0, the
      coefficients themselves for n = 1, and one more convolution with the
      coefficients for every further power. */
  function PowCoefs(c: seq<real>, n: nat): (r: seq<real>)
    requires |c| > 0
    ensures |r| > 0
    decreases n
  {
    if n == 0 then [1.0] else if n == 1 then c else Conv(PowCoefs(c, n - 1), c)
  }

  /** Coefficient `i` multiplied by `d` exactly `|c|-1-i` times. */
  function ScaledByPowers(c: seq<real>, d: real): seq<real>
  {
    seq(|c|, i requires 0 <= i < |c| => c[i] * Pow(d, |c| - 1 - i))
  }

  /** The product with the linear factor (x - r): entry `m` becomes
      `c[m] - r * c[m-1]`, one entry longer. */
  function MulLinear(c: seq<real>, r: real): seq<real>
  {
    Add(c + [0.0], Scale([0.0] + c, -r))
  }

  /** What `addOp` leaves in `buf`: walking from the last index of all three
      sequences towards the first, position `k` of `buf` receives the sum of
      the aligned entries of `a` and `b` while both still have one; every
      other position keeps what `buf` held. */
  function AddInto(a: seq<real>, b: seq<real>, buf: seq<real>): (r: seq<real>)
    requires |buf| >= Min(|a|, |b|)
  {
    seq(|buf|, k requires 0 <= k < |buf| =>
      if |buf| - 1 - k < Min(|a|, |b|) then a[|a| - |buf| + k] + b[|b| - |buf| + k] else buf[k])
  }

  /** What `subtractOp` leaves in `buf`; as `AddInto` with a difference. */
  function SubtractInto(a: seq<real>, b: seq<real>, buf: seq<real>): (r: seq<real>)
    requires |buf| >= Min(|a|, |b|)
  {
    seq(|buf|, k requires 0 <= k < |buf| =>
      if |buf| - 1 - k < Min(|a|, |b|) then a[|a| - |buf| + k] - b[|b| - |buf| + k] else buf[k])
  }

  /** Degree-aligned sum: both operands padded with leading zeros to the
      longer length, then added index by index. */
  function AlignedSum(a: seq<real>, b: seq<real>): seq<real>
  {
    Add(Zeros(Max(|a|, |b|) - |a|) + a, Zeros(Max(|a|, |b|) - |b|) + b)
  }

  // ---------------------------------------------------------------------
  // Arithmetic of powers and power sums

  lemma {:induction false} PowAdd(x: real, m: nat, n: nat)
    ensures Pow(x, m + n) == Pow(x, m) * Pow(x, n)
    decreases m
  {
    if m > 0 {
      PowAdd(x, m - 1, n);
      assert Pow(x, m + n) == x * Pow(x, m - 1 + n);
    }
  }

  lemma {:induction false} PowMul(x: real, y: real, n: nat)
    ensures Pow(x * y, n) == Pow(x, n) * Pow(y, n)
    decreases n
  {
    if n > 0 {
      PowMul(x, y, n - 1);
      var px, py := Pow(x, n - 1), Pow(y, n - 1);
      assert Pow(x * y, n) == (x * y) * (px * py);
      assert Pow(x, n) * Pow(y, n) == (x * px) * (y * py);
    }
  }

  lemma {:induction false} PowNonzero(x: real, n: nat)
    requires x != 0.0
    ensures Pow(x, n) != 0.0
    decreases n
  {
    if n > 0 { PowNonzero(x, n - 1); }
  }

  /** The value of a concatenation: the front part is shifted up by |b| powers. */
  lemma {:induction false} PowerSumConcat(a: seq<real>, b: seq<real>, x: real)
    ensures PowerSum(a + b, x) == PowerSum(a, x) * Pow(x, |b|) + PowerSum(b, x)
    decreases |a|
  {
    if |a| == 0 {
      assert a + b == b;
    } else {
      assert (a + b)[1..] == a[1..] + b;
      PowerSumConcat(a[1..], b, x);
      PowAdd(x, |a| - 1, |b|);
      Distribute(a[0], Pow(x, |a| - 1), Pow(x, |b|), PowerSum(a[1..], x), PowerSum(b, x));
    }
  }

  lemma {:induction false} Distribute(a: real, p: real, q: real, s: real, t: real)
    ensures a * (p * q) + (s * q + t) == (a * p + s) * q + t
  {
  }

  lemma {:induction false} PowerSumAllZero(c: seq<real>, x: real)
    requires AllZero(c)
    ensures PowerSum(c, x) == 0.0
    decreases |c|
  {
    if |c| > 0 { PowerSumAllZero(c[1..], x); }
  }

  /** Leading zeros do not change the value. */
  lemma {:induction false} PowerSumZerosPrefix(n: nat, c: seq<real>, x: real)
    ensures PowerSum(Zeros(n) + c, x) == PowerSum(c, x)
  {
    PowerSumConcat(Zeros(n), c, x);
    PowerSumAllZero(Zeros(n), x);
  }

  /** Trailing zeros multiply the value by a power of x. */
  lemma {:induction false} PowerSumZerosSuffix(c: seq<real>, n: nat, x: real)
    ensures PowerSum(c + Zeros(n), x) == PowerSum(c, x) * Pow(x, n)
  {
    PowerSumConcat(c, Zeros(n), x);
    PowerSumAllZero(Zeros(n), x);
  }

  lemma {:induction false} PowerSumSnoc(c: seq<real>, d: real, x: real)
    ensures PowerSum(c + [d], x) == PowerSum(c, x) * x + d
  {
    PowerSumConcat(c, [d], x);
    assert PowerSum([d], x) == d * Pow(x, 0) + PowerSum([d][1..], x);
  }

  lemma {:induction false} PowerSumAdd(a: seq<real>, b: seq<real>, x: real)
    requires |a| == |b|
    ensures PowerSum(Add(a, b), x) == PowerSum(a, x) + PowerSum(b, x)
  {
    PowerSumAddValues(a, b, x, PowerSum(Add(a, b), x), PowerSum(a, x), PowerSum(b, x));
  }

  /** PowerSumAdd on the values of its three terms. */
  lemma {:induction false} PowerSumAddValues(a: seq<real>, b: seq<real>, x: real, t: real, u: real, v: real)
    requires |a| == |b| && t == PowerSum(Add(a, b), x) && u == PowerSum(a, x) && v == PowerSum(b, x)
    ensures t == u + v
    decreases |a|
  {
    if |a| > 0 {
      var t1, u1, v1, p := PowerSum(Add(a[1..], b[1..]), x), PowerSum(a[1..], x), PowerSum(b[1..], x), Pow(x, |a| - 1);
      PowerSumAddValues(a[1..], b[1..], x, t1, u1, v1);
      AddHeadFact(a, b, x, t, t1, p);
      ConsFact(a, x, u, u1, p);
      ConsFact(b, x, v, v1, p);
      SumOfTerms(a[0], b[0], p, t, t1, u, u1, v, v1);
    }
  }

  /** The leading term of an index-wise sum, and the rest. */
  lemma {:induction false} AddHeadFact(a: seq<real>, b: seq<real>, x: real, t: real, t1: real, p: real)
    requires |a| == |b| > 0
    requires t == PowerSum(Add(a, b), x) && t1 == PowerSum(Add(a[1..], b[1..]), x) && p == Pow(x, |a| - 1)
    ensures t == (a[0] + b[0]) * p + t1
  {
    AddTail(a, b);
    ConsFact(Add(a, b), x, t, t1, p);
  }

  lemma {:induction false} AddTail(a: seq<real>, b: seq<real>)
    requires |a| == |b| > 0
    ensures Add(a, b)[0] == a[0] + b[0] && Add(a, b)[1..] == Add(a[1..], b[1..])
  {
    forall i | 0 <= i < |a| - 1 ensures Add(a, b)[1..][i] == Add(a[1..], b[1..])[i] {
      assert a[1..][i] == a[i + 1] && b[1..][i] == b[i + 1];
    }
  }

  lemma {:induction false} SumOfTerms(a0: real, b0: real, p: real, t: real, t1: real, u: real, u1: real, v: real, v1: real)
    requires t == (a0 + b0) * p + t1 && t1 == u1 + v1 && u == a0 * p + u1 && v == b0 * p + v1
    ensures t == u + v
  {
  }

  /** The leading term and the rest, on values. */
  lemma {:induction false} ConsFact(c: seq<real>, y: real, s: real, s1: real, yn: real)
    requires |c| > 0 && s == PowerSum(c, y) && s1 == PowerSum(c[1..], y) && yn == Pow(y, |c| - 1)
    ensures s == c[0] * yn + s1
  {
  }

  lemma {:induction false} PowSuccFact(x: real, n: nat, q: real, p: real)
    requires q == Pow(x, n + 1) && p == Pow(x, n)
    ensures q == x * p
  {
  }

  lemma {:induction false} PowerSumScale(c: seq<real>, d: real, x: real)
    ensures PowerSum(Scale(c, d), x) == d * PowerSum(c, x)
  {
    PowerSumScaleValues(c, d, x, PowerSum(Scale(c, d), x), PowerSum(c, x));
  }

  /** PowerSumScale on the values of its two terms. */
  lemma {:induction false} PowerSumScaleValues(c: seq<real>, d: real, x: real, t: real, s: real)
    requires t == PowerSum(Scale(c, d), x) && s == PowerSum(c, x)
    ensures t == d * s
    decreases |c|
  {
    if |c| > 0 {
      var t1, s1, p := PowerSum(Scale(c[1..], d), x), PowerSum(c[1..], x), Pow(x, |c| - 1);
      PowerSumScaleValues(c[1..], d, x, t1, s1);
      ScaleHeadFact(c, d, x, t, t1, p);
      ConsFact(c, x, s, s1, p);
      ScaleStep(c[0], d, p, s1, t1, s, t);
    }
  }

  /** The leading term of the scaled sequence, and the rest. */
  lemma {:induction false} ScaleHeadFact(c: seq<real>, d: real, x: real, t: real, t1: real, p: real)
    requires |c| > 0
    requires t == PowerSum(Scale(c, d), x) && t1 == PowerSum(Scale(c[1..], d), x) && p == Pow(x, |c| - 1)
    ensures t == (c[0] * d) * p + t1
  {
    ScaleTail(c, d);
    ConsFact(Scale(c, d), x, t, t1, p);
  }

  lemma {:induction false} ScaleTail(c: seq<real>, d: real)
    requires |c| > 0
    ensures Scale(c, d)[0] == c[0] * d && Scale(c, d)[1..] == Scale(c[1..], d)
  {
    forall i | 0 <= i < |c| - 1 ensures Scale(c, d)[1..][i] == Scale(c[1..], d)[i] {
      assert c[1..][i] == c[i + 1];
    }
  }

  /** Scaling the coefficients by d scales the value v by d. */
  lemma {:induction false} ScaledEval(c: seq<real>, d: real, x: real, v: real)
    requires PowerSum(c, x) == v
    ensures PowerSum(Scale(c, d), x) == d * v
  {
    PowerSumScale(c, d, x);
  }

  lemma {:induction false} ScaleStep(c0: real, d: real, p: real, s1: real, t1: real, s: real, t: real)
    requires t1 == d * s1 && s == c0 * p + s1 && t == (c0 * d) * p + t1
    ensures t == d * s
  {
  }

  // ---------------------------------------------------------------------
  // Evaluation

  /** Horner's recurrence computes the power sum. */
  lemma {:induction false} HornerIsPowerSum(c: seq<real>, x: real)
    ensures Horner(c, x) == PowerSum(c, x)
    decreases |c|
  {
    if |c| > 0 {
      HornerIsPowerSum(c[..|c| - 1], x);
      PowerSumLast(c, x);
      MulEqual(Horner(c[..|c| - 1], x), PowerSum(c[..|c| - 1], x), x);
    }
  }

  /** The value from the front part and the constant term. */
  lemma {:induction false} PowerSumLast(c: seq<real>, x: real)
    requires |c| > 0
    ensures PowerSum(c, x) == PowerSum(c[..|c| - 1], x) * x + c[|c| - 1]
  {
    assert c[..|c| - 1] + [c[|c| - 1]] == c;
    PowerSumSnoc(c[..|c| - 1], c[|c| - 1], x);
  }

  /** Equal factors give equal products. */
  lemma {:induction false} MulEqual(a: real, b: real, d: real)
    requires a == b
    ensures a * d == b * d
  {
  }

  // ---------------------------------------------------------------------
  // Leading-zero stripping

  /** The stripped coefficients are never empty and never start with a zero;
      an all-zero input gives `[1.0]`; any other input loses exactly its
      leading run of zeros. */
  lemma {:induction false} StripSpec(c: seq<real>)
    ensures |Strip(c)| >= 1 && Strip(c)[0] != 0.0
    ensures AllZero(c) ==> Strip(c) == [1.0]
    ensures !AllZero(c) ==> |Strip(c)| <= |c| && Strip(c) == c[|c| - |Strip(c)|..]
    ensures !AllZero(c) ==> forall i :: 0 <= i < |c| - |Strip(c)| ==> c[i] == 0.0
    decreases |c|
  {
    if |c| > 0 && c[0] == 0.0 {
      StripSpec(c[1..]);
      if !AllZero(c) {
        assert !AllZero(c[1..]) by {
          var i :| 0 <= i < |c| && c[i] != 0.0;
          assert c[1..][i - 1] != 0.0;
        }
        forall i | 0 <= i < |c| - |Strip(c)| ensures c[i] == 0.0 {
          if i > 0 { assert c[i] == c[1..][i - 1]; }
        }
      }
    }
  }

  /** Dropping a run of zeros that the loop has already passed does not change
      what stripping yields. */
  lemma {:induction false} StripSkipsZeros(c: seq<real>, i: nat)
    requires i <= |c|
    requires forall m :: 0 <= m < i ==> c[m] == 0.0
    ensures Strip(c) == Strip(c[i..])
    decreases i
  {
    if i > 0 {
      assert c[1..][i - 1..] == c[i..];
      StripSkipsZeros(c[1..], i - 1);
    }
  }

  /** Stripping keeps the value of any input with a nonzero coefficient. */
  lemma {:induction false} StripKeepsValue(c: seq<real>, x: real)
    requires !AllZero(c)
    ensures PowerSum(Strip(c), x) == PowerSum(c, x)
  {
    StripSpec(c);
    var k := |c| - |Strip(c)|;
    assert c == Zeros(k) + Strip(c);
    PowerSumZerosPrefix(k, Strip(c), x);
  }

  // ---------------------------------------------------------------------
  // Convolution and powers

  /** Convolution multiplies values: t == u * v for the values of the product and its factors. */
  lemma {:induction false} ConvEvalValues(a: seq<real>, b: seq<real>, x: real, t: real, u: real, v: real)
    requires |a| > 0 && t == PowerSum(Conv(a, b), x) && u == PowerSum(a, x) && v == PowerSum(b, x)
    ensures t == u * v
    decreases |a|
  {
    var p := Pow(x, |a| - 1);
    if |a| == 1 {
      ConvSingleFact(a, b, x, t, v);
      ConsFact(a, x, u, PowerSum(a[1..], x), p);
    } else {
      var t1, u1 := PowerSum(Conv(a[1..], b), x), PowerSum(a[1..], x);
      ConvEvalValues(a[1..], b, x, t1, u1, v);
      ConvDecompose(a, b, x, t, t1, v, p);
      ConsFact(a, x, u, u1, p);
      FactorOut(a[0], p, v, t, t1, u, u1);
    }
  }

  lemma {:induction false} ConvSingleFact(a: seq<real>, b: seq<real>, x: real, t: real, v: real)
    requires |a| == 1 && t == PowerSum(Conv(a, b), x) && v == PowerSum(b, x)
    ensures t == a[0] * v
  {
    assert Conv(a, b) == Scale(b, a[0]);
    PowerSumScaleValues(b, a[0], x, t, v);
  }

  /** One step of the recurrence, in values: the leading term contributes
      `a[0] * b * x^(|a|-1)`. */
  lemma {:induction false} ConvDecompose(a: seq<real>, b: seq<real>, x: real, t: real, t1: real, v: real, p: real)
    requires |a| > 1 && t == PowerSum(Conv(a, b), x) && t1 == PowerSum(Conv(a[1..], b), x)
    requires v == PowerSum(b, x) && p == Pow(x, |a| - 1)
    ensures t == (a[0] * v) * p + t1
  {
    var hi := Scale(b, a[0]) + Zeros(|a| - 1);
    var lo := [0.0] + Conv(a[1..], b);
    assert Conv(a, b) == Add(hi, lo);
    var h, l, sc := PowerSum(hi, x), PowerSum(lo, x), PowerSum(Scale(b, a[0]), x);
    PowerSumAddValues(hi, lo, x, t, h, l);
    SuffixFact(Scale(b, a[0]), |a| - 1, x, h, sc, p);
    PowerSumScaleValues(b, a[0], x, sc, v);
    assert Zeros(1) + Conv(a[1..], b) == lo;
    PowerSumZerosPrefix(1, Conv(a[1..], b), x);
    HighPartAlgebra(t, h, l, sc, p, a[0], v, t1);
  }

  lemma {:induction false} HighPartAlgebra(t: real, h: real, l: real, sc: real, p: real, a0: real, v: real, t1: real)
    requires t == h + l && h == sc * p && sc == a0 * v && l == t1
    ensures t == (a0 * v) * p + t1
  {
  }

  /** Padding with k zeros multiplies the value by x^k, on values. */
  lemma {:induction false} SuffixFact(t: seq<real>, k: nat, x: real, h: real, r: real, z: real)
    requires h == PowerSum(t + Zeros(k), x) && r == PowerSum(t, x) && z == Pow(x, k)
    ensures h == r * z
  {
    PowerSumZerosSuffix(t, k, x);
  }

  lemma {:induction false} FactorOut(a0: real, p: real, v: real, t: real, t1: real, u: real, u1: real)
    requires t == (a0 * v) * p + t1 && t1 == u1 * v && u == a0 * p + u1
    ensures t == u * v
  {
    assert u * v == (a0 * p) * v + u1 * v;
  }

  /** The leading coefficient of a product is the product of the leading coefficients. */
  lemma {:induction false} ConvLeading(a: seq<real>, b: seq<real>)
    requires |a| > 0 && |b| > 0
    ensures Conv(a, b)[0] == a[0] * b[0]
  {
    if |a| > 1 {
      assert (Scale(b, a[0]) + Zeros(|a| - 1))[0] == b[0] * a[0];
    }
  }

  /** `pow(n)` before stripping has n * deg + 1 entries. */
  lemma {:induction false} PowCoefsLength(c: seq<real>, n: nat)
    requires |c| > 0
    ensures |PowCoefs(c, n)| == n * (|c| - 1) + 1
    decreases n
  {
    if n >= 2 {
      PowCoefsLength(c, n - 1);
      assert (n - 1) * (|c| - 1) + (|c| - 1) == n * (|c| - 1);
    }
  }

  /** `pow(n)` before stripping evaluates to the n-th power of the value. */
  lemma {:induction false} PowCoefsEval(c: seq<real>, n: nat, x: real)
    requires |c| > 0
    ensures PowerSum(PowCoefs(c, n), x) == Pow(PowerSum(c, x), n)
  {
    PowCoefsEvalAt(c, n, x, PowerSum(c, x));
  }

  lemma {:induction false} PowCoefsEvalAt(c: seq<real>, n: nat, x: real, y: real)
    requires |c| > 0 && y == PowerSum(c, x)
    ensures PowerSum(PowCoefs(c, n), x) == Pow(y, n)
  {
    PowCoefsEvalValues(c, n, x, y, PowerSum(PowCoefs(c, n), x), Pow(y, n));
  }

  /** PowCoefsEvalAt on the values of its two terms. */
  lemma {:induction false} PowCoefsEvalValues(c: seq<real>, n: nat, x: real, y: real, u: real, w: real)
    requires |c| > 0 && y == PowerSum(c, x) && u == PowerSum(PowCoefs(c, n), x) && w == Pow(y, n)
    ensures u == w
    decreases n
  {
    if n < 2 {
      PowCoefsEvalBase(c, n, x, y);
    } else {
      var u1, w1 := PowerSum(PowCoefs(c, n - 1), x), Pow(y, n - 1);
      PowCoefsEvalValues(c, n - 1, x, y, u1, w1);
      PowCoefsStepEval(c, n, x, u1, y, u);
      PowSuccFact(y, n - 1, w, w1);
    }
  }

  lemma {:induction false} PowCoefsEvalBase(c: seq<real>, n: nat, x: real, y: real)
    requires |c| > 0 && n < 2 && y == PowerSum(c, x)
    ensures PowerSum(PowCoefs(c, n), x) == Pow(y, n)
  {
    if n == 0 {
      PowerSumOne(x);
    } else {
      PowOne(y);
    }
  }

  /** One more factor multiplies the value by c(x). */
  lemma {:induction false} PowCoefsStepEval(c: seq<real>, n: nat, x: real, u1: real, y: real, u: real)
    requires |c| > 0 && n >= 2 && u1 == PowerSum(PowCoefs(c, n - 1), x) && y == PowerSum(c, x)
    requires u == PowerSum(PowCoefs(c, n), x)
    ensures u == u1 * y
  {
    assert PowCoefs(c, n) == Conv(PowCoefs(c, n - 1), c);
    ConvEvalValues(PowCoefs(c, n - 1), c, x, u, u1, y);
  }

  lemma {:induction false} PowerSumOne(x: real)
    ensures PowerSum([1.0], x) == 1.0
  {
    assert PowerSum([1.0], x) == 1.0 * Pow(x, 0) + PowerSum([1.0][1..], x);
  }

  lemma {:induction false} PowSucc(y: real, m: nat, n: nat)
    requires m == n + 1
    ensures Pow(y, m) == y * Pow(y, n)
  {
  }

  /** One more multiplication by d raises the power by one. */
  lemma {:induction false} MulPowStep(c: real, d: real, m: nat)
    ensures (c * Pow(d, m)) * d == c * Pow(d, m + 1)
  {
    assert Pow(d, m + 1) == d * Pow(d, m);
  }

  lemma {:induction false} PowOne(y: real)
    ensures Pow(y, 1) == y
  {
    assert Pow(y, 1) == y * Pow(y, 0);
  }

  /** ... and its leading coefficient is the n-th power of the leading coefficient. */
  lemma {:induction false} PowCoefsLeading(c: seq<real>, n: nat)
    requires |c| > 0
    ensures PowCoefs(c, n)[0] == Pow(c[0], n)
    decreases n
  {
    if n < 2 {
      PowOne(c[0]);
    } else {
      PowCoefsLeading(c, n - 1);
      PowCoefsLeadingStep(c, n);
    }
  }

  lemma {:induction false} PowCoefsLeadingStep(c: seq<real>, n: nat)
    requires |c| > 0 && n >= 2 && PowCoefs(c, n - 1)[0] == Pow(c[0], n - 1)
    ensures PowCoefs(c, n)[0] == Pow(c[0], n)
  {
    ConvLeading(PowCoefs(c, n - 1), c);
    MulEqual(PowCoefs(c, n - 1)[0], Pow(c[0], n - 1), c[0]);
    PowSucc(c[0], n, n - 1);
  }

  lemma {:induction false} PowExact(c: seq<real>, n: nat, x: real)
    requires |c| > 0 && c[0] != 0.0
    ensures Strip(PowCoefs(c, n)) == PowCoefs(c, n)
    ensures |Strip(PowCoefs(c, n))| == n * (|c| - 1) + 1
    ensures Strip(PowCoefs(c, n))[0] == Pow(c[0], n) != 0.0
    ensures PowerSum(Strip(PowCoefs(c, n)), x) == Pow(PowerSum(c, x), n)
  {
    PowCoefsLeading(c, n);
    PowNonzero(c[0], n);
    PowCoefsEval(c, n, x);
    PowCoefsLength(c, n);
  }

  /** With nonzero leading coefficients nothing is stripped from a product:
      it keeps all |a| + |b| - 1 coefficients. */
  lemma {:induction false} MultiplyExact(a: seq<real>, b: seq<real>)
    requires |a| > 0 && |b| > 0 && a[0] != 0.0 && b[0] != 0.0
    ensures Strip(Conv(a, b)) == Conv(a, b)
    ensures |Strip(Conv(a, b))| == |a| + |b| - 1
  {
    ConvLeading(a, b);
    StripNoop(Conv(a, b));
  }

  lemma {:induction false} StripNoop(c: seq<real>)
    requires |c| > 0 && c[0] != 0.0
    ensures Strip(c) == c
  {
  }

  /** `multiply` multiplies values: the stripped product evaluates to the
      product of the values. */
  lemma {:induction false} MultiplyEval(a: seq<real>, b: seq<real>, x: real)
    requires |a| > 0 && |b| > 0 && a[0] != 0.0 && b[0] != 0.0
    ensures PowerSum(Strip(Conv(a, b)), x) == PowerSum(a, x) * PowerSum(b, x)
  {
    var u, v := PowerSum(a, x), PowerSum(b, x);
    MultiplyExact(a, b);
    ConvEvalValues(a, b, x, PowerSum(Conv(a, b), x), u, v);
  }

  // ---------------------------------------------------------------------
  // Scaling by powers (substitute(double))

  /** Scaling coefficient i by d^(deg-i) is substitution of d * x for x. */
  lemma {:induction false} ScaledByPowersEval(c: seq<real>, d: real, x: real)
    ensures PowerSum(ScaledByPowers(c, d), x) == PowerSum(c, d * x)
  {
    ScaledByPowersEvalValues(c, d, x, PowerSum(ScaledByPowers(c, d), x), PowerSum(c, d * x));
  }

  /** ScaledByPowersEval on the values of its two sides. */
  lemma {:induction false} ScaledByPowersEvalValues(c: seq<real>, d: real, x: real, t: real, s: real)
    requires t == PowerSum(ScaledByPowers(c, d), x) && s == PowerSum(c, d * x)
    ensures t == s
    decreases |c|
  {
    if |c| > 0 {
      var t1, s1 := PowerSum(ScaledByPowers(c[1..], d), x), PowerSum(c[1..], d * x);
      ScaledByPowersEvalValues(c[1..], d, x, t1, s1);
      var pd, px, pdx := Pow(d, |c| - 1), Pow(x, |c| - 1), Pow(d * x, |c| - 1);
      ScaledByPowersHead(c, d, x, t, t1, pd, px);
      ConsFact(c, d * x, s, s1, pdx);
      PowMulFact(d, x, |c| - 1, pdx, pd, px);
      ScaledByPowersStep(c[0], pd, px, pdx, t, t1, s, s1);
    }
  }

  /** The leading term of the scaled coefficients, and the rest. */
  lemma {:induction false} ScaledByPowersHead(c: seq<real>, d: real, x: real, t: real, t1: real, pd: real, px: real)
    requires |c| > 0
    requires t == PowerSum(ScaledByPowers(c, d), x) && t1 == PowerSum(ScaledByPowers(c[1..], d), x)
    requires pd == Pow(d, |c| - 1) && px == Pow(x, |c| - 1)
    ensures t == (c[0] * pd) * px + t1
  {
    ScaledByPowersTail(c, d, pd);
    ConsFact(ScaledByPowers(c, d), x, t, t1, px);
  }

  lemma {:induction false} ScaledByPowersTail(c: seq<real>, d: real, pd: real)
    requires |c| > 0 && pd == Pow(d, |c| - 1)
    ensures ScaledByPowers(c, d)[0] == c[0] * pd && ScaledByPowers(c, d)[1..] == ScaledByPowers(c[1..], d)
  {
    forall i | 0 <= i < |c| - 1 ensures ScaledByPowers(c, d)[1..][i] == ScaledByPowers(c[1..], d)[i] {
      assert c[1..][i] == c[i + 1];
    }
  }

  lemma {:induction false} PowMulFact(x: real, y: real, n: nat, pxy: real, px: real, py: real)
    requires pxy == Pow(x * y, n) && px == Pow(x, n) && py == Pow(y, n)
    ensures pxy == px * py
  {
    PowMul(x, y, n);
  }

  lemma {:induction false} ScaledByPowersStep(c0: real, pd: real, px: real, pdx: real, t: real, t1: real, s: real, s1: real)
    requires t == (c0 * pd) * px + t1 && s == c0 * pdx + s1 && pdx == pd * px && t1 == s1
    ensures t == s
  {
  }

  // ---------------------------------------------------------------------
  // Linear factors

  /** Entry `m` of the product with (x - r): `c[m] - r * c[m-1]`, reading
      missing entries as 0. */
  lemma {:induction false} MulLinearAt(c: seq<real>, r: real, m: nat)
    requires m <= |c|
    ensures |MulLinear(c, r)| == |c| + 1
    ensures MulLinear(c, r)[m] == (if m < |c| then c[m] else 0.0) - r * (if m > 0 then c[m - 1] else 0.0)
  {
    assert (c + [0.0])[m] == (if m < |c| then c[m] else 0.0);
    assert ([0.0] + c)[m] == (if m > 0 then c[m - 1] else 0.0);
  }

  /** Multiplying by (x - r) multiplies the value by (x - r). */
  lemma {:induction false} MulLinearEval(c: seq<real>, r: real, x: real)
    ensures PowerSum(MulLinear(c, r), x) == (x - r) * PowerSum(c, x)
  {
    var p := PowerSum(c, x);
    PowerSumZeroPrefix(c, x, p);
    ScaledEval([0.0] + c, -r, x, p);
    PowerSumSnoc(c, 0.0, x);
    PowerSumAdd(c + [0.0], Scale([0.0] + c, -r), x);
  }

  /** A leading zero does not change the value. */
  lemma {:induction false} PowerSumZeroPrefix(c: seq<real>, x: real, p: real)
    requires p == PowerSum(c, x)
    ensures PowerSum([0.0] + c, x) == p
  {
    assert ([0.0] + c)[1..] == c;
  }

  // ---------------------------------------------------------------------
  // Aligned addition

  /** The degree-aligned sum evaluates to the sum of the values. */
  lemma {:induction false} AlignedSumEval(a: seq<real>, b: seq<real>, x: real)
    ensures |AlignedSum(a, b)| == Max(|a|, |b|)
    ensures PowerSum(AlignedSum(a, b), x) == PowerSum(a, x) + PowerSum(b, x)
  {
    var m := Max(|a|, |b|);
    PowerSumAdd(Zeros(m - |a|) + a, Zeros(m - |b|) + b, x);
    PowerSumZerosPrefix(m - |a|, a, x);
    PowerSumZerosPrefix(m - |b|, b, x);
  }

  /** When the receiver is at least as long as the other operand, the in-place
      `addOp` computes the degree-aligned sum. */
  lemma {:induction false} AddIntoLongerReceiver(a: seq<real>, b: seq<real>)
    requires |b| <= |a|
    ensures AddInto(a, b, a) == AlignedSum(a, b)
  {
    var pa, pb := Zeros(0) + a, Zeros(|a| - |b|) + b;
    assert Min(|a|, |b|) == |b| && Max(|a|, |b|) == |a|;
    assert AlignedSum(a, b) == Add(pa, pb);
    forall k | 0 <= k < |a| ensures AddInto(a, b, a)[k] == Add(pa, pb)[k] {
      assert pa[k] == a[k];
      if k < |a| - |b| {
        assert pb[k] == 0.0;
        assert AddInto(a, b, a)[k] == a[k];
      } else {
        assert pb[k] == b[k - (|a| - |b|)];
        assert AddInto(a, b, a)[k] == a[k] + b[|b| - |a| + k];
      }
    }
  }

  /** The same for `subtractOp`: the aligned sum with the negated operand. */
  lemma {:induction false} SubtractIntoLongerReceiver(a: seq<real>, b: seq<real>)
    requires |b| <= |a|
    ensures SubtractInto(a, b, a) == AlignedSum(a, Scale(b, -1.0))
  {
    var nb := Scale(b, -1.0);
    var pa, pb := Zeros(0) + a, Zeros(|a| - |b|) + nb;
    assert Min(|a|, |b|) == |b| && Max(|a|, |nb|) == |a|;
    assert AlignedSum(a, nb) == Add(pa, pb);
    forall k | 0 <= k < |a| ensures SubtractInto(a, b, a)[k] == Add(pa, pb)[k] {
      assert pa[k] == a[k];
      if k < |a| - |b| {
        assert pb[k] == 0.0;
        assert SubtractInto(a, b, a)[k] == a[k];
      } else {
        assert pb[k] == nb[k - (|a| - |b|)] == b[|b| - |a| + k] * -1.0;
        assert SubtractInto(a, b, a)[k] == a[k] - b[|b| - |a| + k];
      }
    }
  }

  /** What the `addOp` loop establishes, position by position, once one
      operand is used up: the untouched prefix and the summed suffix. */
  lemma {:induction false} AddIntoPointwise(a: seq<real>, b: seq<real>, buf: seq<real>, r: seq<real>, k: int, d1: int, d2: int)
    requires |r| == |buf| && k == |buf| - 1 - Min(|a|, |b|) && -1 <= k
    requires d1 == |buf| - |a| && d2 == |buf| - |b|
    requires forall q :: 0 <= q <= k ==> r[q] == buf[q]
    requires forall q :: k < q < |buf| ==> r[q] == a[q - d1] + b[q - d2]
    ensures r == AddInto(a, b, buf)
  {
  }

  /** The same for `subtractOp`. */
  lemma {:induction false} SubtractIntoPointwise(a: seq<real>, b: seq<real>, buf: seq<real>, r: seq<real>, k: int, d1: int, d2: int)
    requires |r| == |buf| && k == |buf| - 1 - Min(|a|, |b|) && -1 <= k
    requires d1 == |buf| - |a| && d2 == |buf| - |b|
    requires forall q :: 0 <= q <= k ==> r[q] == buf[q]
    requires forall q :: k < q < |buf| ==> r[q] == a[q - d1] - b[q - d2]
    ensures r == SubtractInto(a, b, buf)
  {
  }

  /** The value forms `add` and `subtract`, as written, start from a zeroed
      buffer of the longer length: only the min(|a|,|b|) lowest-order
      positions receive a sum, so the result is the sum of the two operands'
      low-order parts, and the longer operand's high terms are lost. */
  lemma {:induction false} AddValueFormTruncates(a: seq<real>, b: seq<real>, x: real)
    ensures AddInto(a, b, Zeros(Max(|a|, |b|)))
            == Zeros(Max(|a|, |b|) - Min(|a|, |b|)) + Add(a[|a| - Min(|a|, |b|)..], b[|b| - Min(|a|, |b|)..])
    ensures PowerSum(AddInto(a, b, Zeros(Max(|a|, |b|))), x)
            == PowerSum(a[|a| - Min(|a|, |b|)..], x) + PowerSum(b[|b| - Min(|a|, |b|)..], x)
  {
    var m, n := Min(|a|, |b|), Max(|a|, |b|);
    var lo := Add(a[|a| - m..], b[|b| - m..]);
    AddValueFormShape(a, b);
    PowerSumZerosPrefix(n - m, lo, x);
    PowerSumAdd(a[|a| - m..], b[|b| - m..], x);
  }

  lemma {:induction false} AddValueFormShape(a: seq<real>, b: seq<real>)
    ensures AddInto(a, b, Zeros(Max(|a|, |b|)))
            == Zeros(Max(|a|, |b|) - Min(|a|, |b|)) + Add(a[|a| - Min(|a|, |b|)..], b[|b| - Min(|a|, |b|)..])
  {
    var m, n := Min(|a|, |b|), Max(|a|, |b|);
    assert m <= |a| && m <= |b| && n >= m && (n == |a| || n == |b|);
    var lo := Add(a[|a| - m..], b[|b| - m..]);
    var r := AddInto(a, b, Zeros(n));
    var z := Zeros(n - m) + lo;
    assert |r| == n && |z| == n;
    forall k | 0 <= k < n ensures r[k] == z[k] {
      if k >= n - m {
        var j := k - (n - m);
        assert z[k] == lo[j];
        assert a[|a| - m..][j] == a[|a| - n + k];
        assert b[|b| - m..][j] == b[|b| - n + k];
      } else {
        assert z[k] == 0.0;
        assert r[k] == Zeros(n)[k];
      }
    }
    assert r == z;
  }


  /** `subtract` as written: the difference of the low-order parts. */
  lemma {:induction false} SubtractValueFormTruncates(a: seq<real>, b: seq<real>, x: real)
    ensures PowerSum(SubtractInto(a, b, Zeros(Max(|a|, |b|))), x)
            == PowerSum(a[|a| - Min(|a|, |b|)..], x) - PowerSum(b[|b| - Min(|a|, |b|)..], x)
  {
    var m, n := Min(|a|, |b|), Max(|a|, |b|);
    var nb := Scale(b[|b| - m..], -1.0);
    var lo := Add(a[|a| - m..], nb);
    SubtractValueFormShape(a, b);
    PowerSumZerosPrefix(n - m, lo, x);
    PowerSumAdd(a[|a| - m..], nb, x);
    PowerSumScale(b[|b| - m..], -1.0, x);
  }

  lemma {:induction false} SubtractValueFormShape(a: seq<real>, b: seq<real>)
    ensures SubtractInto(a, b, Zeros(Max(|a|, |b|)))
            == Zeros(Max(|a|, |b|) - Min(|a|, |b|)) + Add(a[|a| - Min(|a|, |b|)..], Scale(b[|b| - Min(|a|, |b|)..], -1.0))
  {
    var m, n := Min(|a|, |b|), Max(|a|, |b|);
    assert m <= |a| && m <= |b| && n >= m && (n == |a| || n == |b|);
    var lo := Add(a[|a| - m..], Scale(b[|b| - m..], -1.0));
    var r := SubtractInto(a, b, Zeros(n));
    var z := Zeros(n - m) + lo;
    assert |r| == n && |z| == n;
    forall k | 0 <= k < n ensures r[k] == z[k] {
      if k >= n - m {
        var j := k - (n - m);
        assert z[k] == lo[j];
        assert a[|a| - m..][j] == a[|a| - n + k];
        assert b[|b| - m..][j] == b[|b| - n + k];
      } else {
        assert z[k] == 0.0;
        assert r[k] == Zeros(n)[k];
      }
    }
    assert r == z;
  }

  /** A case that shows the loss: x^2 + 1 computed by `add` is the constant 1. */
  lemma {:induction false} AddDropsHighTerms()
    ensures Strip(AddInto([1.0, 0.0, 0.0], [1.0], Zeros(3))) == [1.0]
    ensures PowerSum(AlignedSum([1.0, 0.0, 0.0], [1.0]), 1.0) == 2.0
  {
    var r := AddInto([1.0, 0.0, 0.0], [1.0], Zeros(3));
    assert r == [0.0, 0.0, 1.0];
    assert Strip(r) == Strip([0.0, 1.0]) == Strip([1.0]);
    assert AlignedSum([1.0, 0.0, 0.0], [1.0]) == [1.0, 0.0, 1.0];
    EvalQuadratic([1.0, 0.0, 1.0], 1.0);
  }

  /** The value of three coefficients. */
  lemma {:induction false} EvalQuadratic(c: seq<real>, x: real)
    requires |c| == 3
    ensures PowerSum(c, x) == c[0] * x * x + c[1] * x + c[2]
  {
    assert c[1..][1..] == [c[2]];
    assert PowerSum([c[2]], x) == c[2] * Pow(x, 0) + PowerSum([c[2]][1..], x);
    assert Pow(x, 2) == x * Pow(x, 1);
  }
}
