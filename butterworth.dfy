/** The structural parts of the Butterworth analog filter designer: the
    prototype's pole layout and order, the low-pass to high-pass transform
    on coefficient arrays, and the order bookkeeping of the factories.

    The floating formulas (the minimum order from log10/pow/ceil, epsilon
    from sqrt/pow, cos/sin of the pole angles, the frequency scale factors
    and the band-pass substitution) are not modelled: they are fields of a
    `Numerics` record the factories receive, and the transfer function is a
    pair of coefficient sequences. */
module ButterworthFilters {
  import opened Wrappers
  import opened Coefficients
  import opened ComplexNumbers
  import opened Polynomials

  /** Java's `int`. */
  type Int32 = x: int | -0x8000_0000 <= x < 0x8000_0000

  /** Two's complement wrap-around of an integer to 32 bits. */
  function Wrap32(v: int): (r: Int32)
    ensures (r - v) % 0x1_0000_0000 == 0
    ensures -0x8000_0000 <= v < 0x8000_0000 ==> r == v
  {
    (v + 0x8000_0000) % 0x1_0000_0000 - 0x8000_0000
  }

  /** `order <<= 1` on an `int`. */
  function Shl1(n: Int32): Int32
  {
    Wrap32(2 * n)
  }

  /** The shift doubles every order below 2^30 and turns the larger ones
      negative. */
  lemma {:induction false} Shl1Doubles(n: Int32)
    requires n >= 0
    ensures n < 0x4000_0000 ==> Shl1(n) == 2 * n
    ensures n >= 0x4000_0000 ==> Shl1(n) == 2 * n - 0x1_0000_0000 && Shl1(n) < 0
  {
    if n >= 0x4000_0000 {
      assert (2 * n + 0x8000_0000) % 0x1_0000_0000 == 2 * n + 0x8000_0000 - 0x1_0000_0000;
    }
  }

  /** The coefficients of a `Polynomial`, highest power first: never empty. */
  type Coefs = c: seq<real> | |c| > 0 witness [1.0]

  /** Numerator and denominator polynomials, as `TransferFunction` holds them. */
  datatype TransferFunction = TransferFunction(numerator: Coefs, denominator: Coefs)

  /** The floating formulas and the transfer-function operations the
      designer calls but that are not part of this model. */
  datatype Numerics = Numerics(
    /** `getMinOrderRequired(wp, ws, ap, as)`: the ceiling of
        `log10(amin / amax) / (2 log10(ws / wp))`, cast to `int`. */
    minOrder: (real, real, real, real) -> Int32,
    /** `sqrt(10^(ap / 10) - 1)`. */
    epsilon: real -> real,
    /** `Math.cos` and `Math.sin` of an angle given in degrees. */
    cosDeg: real -> real,
    sinDeg: real -> real,
    /** `new TransferFunction(zeros, poles)`. */
    fromZerosPoles: (seq<Complex>, seq<Complex>) -> TransferFunction,
    /** `TransferFunction.scale`. */
    scale: (TransferFunction, real) -> TransferFunction,
    /** The low-pass and high-pass frequency factors from (eps, n, wp). */
    lowPassFactor: (real, int, real) -> real,
    highPassFactor: (real, int, real) -> real,
    /** The normalized stopband edge `Q |(w^2 - 1) / w|` from (wp1, wp2, ws). */
    bandEdge: (real, real, real) -> real,
    /** Scaling by the bandwidth and `lpTobp(..., w0, bw)`, from
        (tf, eps, n, wp1, wp2). */
    toBandPass: (TransferFunction, real, int, real, real) -> TransferFunction
  )

  /** `ArrayUtils.linsteps(a, b, 1)`: a, a + 1, ... up to b. */
  function LinSteps(a: real, b: real): seq<real>
  {
    var count := if b < a then 0 else (b - a).Floor + 1;
    seq(count, i requires 0 <= i < count => a + i as real)
  }

  /** The values of k the prototype constructor iterates over:
      -n/2 + 1 .. n/2 for even n and -(n-1)/2 .. (n-1)/2 for odd n. */
  function PoleSteps(n: nat): seq<real>
  {
    if n % 2 == 0 then LinSteps(-(n as real) * 0.5 + 1.0, (n as real) * 0.5)
    else LinSteps(-((n - 1) as real) * 0.5, ((n - 1) as real) * 0.5)
  }

  /** Both ranges hold exactly n values, so the loop fills every slot of
      `poles` and writes none past its end; k steps by 1 from
      (1 - n) / 2 + (1/2 for even n). */
  lemma {:induction false} PoleStepsCount(n: nat)
    ensures |PoleSteps(n)| == n
    ensures forall i :: 0 <= i < n ==>
      PoleSteps(n)[i] == (i as real) + ((1 - n) as real) * 0.5 + (if n % 2 == 0 then 0.5 else 0.0)
  {
    var N := n as real;
    if n % 2 == 0 {
      var a, b := -N * 0.5 + 1.0, N * 0.5;
      if n == 0 {
        assert b < a;
      } else {
        assert b - a == (n - 1) as real;
        assert (b - a).Floor == n - 1;
      }
    } else {
      var a, b := -((n - 1) as real) * 0.5, ((n - 1) as real) * 0.5;
      assert b - a == (n - 1) as real;
      assert (b - a).Floor == n - 1;
    }
  }

  /** `phik`, in degrees: `180 k / n - 90 / n` for even n, `180 k / n`
      for odd n. */
  function PoleAngle(k: real, n: nat): real
    requires n > 0
  {
    if n % 2 == 0 then 180.0 * (k / n as real) - 90.0 / n as real
    else 180.0 * (k / n as real)
  }

  function Pole(k: real, n: nat, m: Numerics): Complex
    requires n > 0
  {
    Complex(-m.cosDeg(PoleAngle(k, n)), m.sinDeg(PoleAngle(k, n)))
  }

  /** The poles the prototype constructor stores, in order. */
  function PrototypePoles(n: nat, m: Numerics): (r: seq<Complex>)
    ensures |r| == n
  {
    PoleStepsCount(n);
    var ks := PoleSteps(n);
    seq(n, i requires 0 <= i < n => Pole(ks[i], n, m))
  }

  /** The i-th angle, for either parity, is 90 (2i + 1 - n) / n degrees. */
  lemma {:induction false} PoleAngleFormula(n: nat, i: nat)
    requires i < n
    ensures PoleAngle(PoleSteps(n)[i], n) == 90.0 * ((2 * i + 1 - n) as real) / (n as real)
  {
    PoleStepsCount(n);
    var N := n as real;
    var k := PoleSteps(n)[i];
    if n % 2 == 0 {
      assert k == (i as real) + ((1 - n) as real) * 0.5 + 0.5;
      assert 180.0 * k - 90.0 == 90.0 * ((2 * i + 1 - n) as real);
      EvenAngle(k, N);
    } else {
      assert k == (i as real) + ((1 - n) as real) * 0.5;
      assert 180.0 * k == 90.0 * ((2 * i + 1 - n) as real);
      OddAngle(k, N);
    }
  }

  lemma {:induction false} EvenAngle(k: real, N: real)
    requires N > 0.0
    ensures 180.0 * (k / N) - 90.0 / N == (180.0 * k - 90.0) / N
  {
  }

  lemma {:induction false} OddAngle(k: real, N: real)
    requires N > 0.0
    ensures 180.0 * (k / N) == (180.0 * k) / N
  {
  }

  /** The Butterworth pole pattern: the angles lie strictly between -90 and
      90 degrees (every pole is in the left half-plane when cos is
      positive there), are spaced 180 / n apart, and mirror each other
      about 0 (conjugate pairs). */
  lemma {:induction false} PoleAngles(n: nat, i: nat)
    requires i < n
    ensures -90.0 < PoleAngle(PoleSteps(n)[i], n) < 90.0
    ensures i + 1 < n ==> PoleAngle(PoleSteps(n)[i + 1], n) - PoleAngle(PoleSteps(n)[i], n) == 180.0 / (n as real)
    ensures PoleAngle(PoleSteps(n)[n - 1 - i], n) == -PoleAngle(PoleSteps(n)[i], n)
  {
    var N := n as real;
    PoleAngleFormula(n, i);
    PoleAngleFormula(n, n - 1 - i);
    assert 2 * (n - 1 - i) + 1 - n == -(2 * i + 1 - n);
    AngleBounds((2 * i + 1 - n) as real, N);
    if i + 1 < n {
      PoleAngleFormula(n, i + 1);
      assert 2 * (i + 1) + 1 - n == (2 * i + 1 - n) + 2;
      AngleSpacing((2 * i + 1 - n) as real, N);
    }
    AngleMirror((2 * i + 1 - n) as real, N);
  }

  lemma {:induction false} AngleBounds(t: real, N: real)
    requires N > 0.0 && -N < t < N
    ensures -90.0 < 90.0 * t / N < 90.0
  {
    assert 90.0 * t / N == 90.0 * (t / N);
    assert -1.0 < t / N < 1.0;
  }

  lemma {:induction false} AngleSpacing(t: real, N: real)
    requires N > 0.0
    ensures 90.0 * (t + 2.0) / N - 90.0 * t / N == 180.0 / N
  {
  }

  lemma {:induction false} AngleMirror(t: real, N: real)
    requires N > 0.0
    ensures 90.0 * (-t) / N == -(90.0 * t / N)
  {
  }

  /** The high-pass coefficients of `lpTohp`: `c` reversed into the front of
      a zeroed array of length `len`. */
  function HighPassCoefs(c: seq<real>, len: nat): (r: seq<real>)
    requires |c| <= len
    ensures |r| == len
  {
    seq(len, j requires 0 <= j < len => if j < |c| then c[|c| - 1 - j] else 0.0)
  }

  /** `lpTohp(numerator, denominator)`: `None` where Java throws (an empty
      array makes the allocation negative or a copy loop run past the end). */
  function LpToHp(num: seq<real>, den: seq<real>): Option<TransferFunction>
  {
    if |num| == 0 || |den| == 0 then None
    else
      var len := |num| + |den| - 1;
      Some(TransferFunction(HighPassCoefs(num, len), HighPassCoefs(den, len)))
  }

  /** Both arrays have length numDegree + denDegree + 1, entry j holds the
      coefficient of power j of the input (deg - j counted from the front)
      and the padding is 0. */
  lemma {:induction false} LpToHpShape(num: seq<real>, den: seq<real>)
    ensures LpToHp(num, den).None? <==> |num| == 0 || |den| == 0
    ensures LpToHp(num, den).Some? ==>
      var tf := LpToHp(num, den).value;
      |tf.numerator| == |tf.denominator| == (|num| - 1) + (|den| - 1) + 1 &&
      (forall j :: 0 <= j < |num| ==> tf.numerator[j] == num[|num| - 1 - j]) &&
      (forall j :: |num| <= j < |tf.numerator| ==> tf.numerator[j] == 0.0) &&
      (forall j :: 0 <= j < |den| ==> tf.denominator[j] == den[|den| - 1 - j]) &&
      (forall j :: |den| <= j < |tf.denominator| ==> tf.denominator[j] == 0.0)
  {
  }

  /** c read from its last entry to its first. */
  function Reversed(c: seq<real>): (r: seq<real>)
    ensures |r| == |c|
    decreases |c|
  {
    if |c| == 0 then [] else Reversed(c[1..]) + [c[0]]
  }

  lemma {:induction false} ReversedAt(c: seq<real>, j: nat)
    requires j < |c|
    ensures Reversed(c)[j] == c[|c| - 1 - j]
    decreases |c|
  {
    if j < |c| - 1 {
      ReversedAt(c[1..], j);
    }
  }

  /** Reversing the coefficients evaluates the polynomial at y = 1/x, times
      x^deg. */
  lemma {:induction false} ReversedEval(c: seq<real>, x: real, y: real)
    requires |c| > 0 && x * y == 1.0
    ensures PowerSum(Reversed(c), x) == Pow(x, |c| - 1) * PowerSum(c, y)
  {
    ReversedEvalValues(c, x, y, PowerSum(Reversed(c), x), Pow(x, |c| - 1), PowerSum(c, y));
  }

  /** ReversedEval on the values of its three terms. */
  lemma {:induction false} ReversedEvalValues(c: seq<real>, x: real, y: real, r: real, q: real, s: real)
    requires |c| > 0 && x * y == 1.0
    requires r == PowerSum(Reversed(c), x) && q == Pow(x, |c| - 1) && s == PowerSum(c, y)
    ensures r == q * s
    decreases |c|
  {
    if |c| == 1 {
      ReversedEvalBase(c, x, y, r, q, s);
    } else {
      var r1, p, s1 := PowerSum(Reversed(c[1..]), x), Pow(x, |c| - 2), PowerSum(c[1..], y);
      ReversedEvalValues(c[1..], x, y, r1, p, s1);
      ReversedEvalStep(c, x, y, r1, s1, p, r, q, s);
    }
  }

  lemma {:induction false} ReversedEvalBase(c: seq<real>, x: real, y: real, r: real, q: real, s: real)
    requires |c| == 1
    requires r == PowerSum(Reversed(c), x) && q == Pow(x, |c| - 1) && s == PowerSum(c, y)
    ensures r == q * s
  {
    assert Reversed(c) == [c[0]];
    assert PowerSum(c, y) == c[0] * Pow(y, 0) + PowerSum(c[1..], y);
    assert PowerSum([c[0]], x) == c[0] * Pow(x, 0) + PowerSum([c[0]][1..], x);
  }

  lemma {:induction false} ReversedEvalStep(c: seq<real>, x: real, y: real, r1: real, s1: real, p: real, r: real, q: real, s: real)
    requires |c| > 1 && x * y == 1.0
    requires r1 == PowerSum(Reversed(c[1..]), x) && s1 == PowerSum(c[1..], y) && p == Pow(x, |c| - 2)
    requires r == PowerSum(Reversed(c), x) && q == Pow(x, |c| - 1) && s == PowerSum(c, y)
    requires r1 == p * s1
    ensures r == q * s
  {
    var yn := Pow(y, |c| - 1);
    SnocFact(c, x, r, r1);
    ConsFact(c, y, s, s1, yn);
    PowSuccFact(x, |c| - 2, q, p);
    PowInverseFact(x, y, |c| - 1, q, yn);
    ReciprocalAlgebra(r, r1, p, s1, q, yn, s, c[0], x);
  }

  /** Horner's step on the reversed coefficients. */
  lemma {:induction false} SnocFact(c: seq<real>, x: real, r: real, r1: real)
    requires |c| > 0 && r == PowerSum(Reversed(c), x) && r1 == PowerSum(Reversed(c[1..]), x)
    ensures r == r1 * x + c[0]
  {
    PowerSumSnoc(Reversed(c[1..]), c[0], x);
  }

  lemma {:induction false} PowInverseFact(x: real, y: real, n: nat, q: real, yn: real)
    requires x * y == 1.0 && q == Pow(x, n) && yn == Pow(y, n)
    ensures q * yn == 1.0
  {
    PowInverse(x, y, n);
  }

  /** x^n * (1/x)^n == 1. */
  lemma {:induction false} PowInverse(x: real, y: real, n: nat)
    requires x * y == 1.0
    ensures Pow(x, n) * Pow(y, n) == 1.0
    decreases n
  {
    if n > 0 {
      PowInverse(x, y, n - 1);
      PowInverseStep(x, y, Pow(x, n - 1), Pow(y, n - 1));
    }
  }

  lemma {:induction false} PowInverseStep(x: real, y: real, p: real, q: real)
    requires x * y == 1.0 && p * q == 1.0
    ensures (x * p) * (y * q) == 1.0
  {
    assert (x * p) * (y * q) == (x * y) * (p * q);
  }

  lemma {:induction false} ReciprocalAlgebra(r: real, r1: real, p: real, s1: real, q: real, y: real, s: real, c0: real, x: real)
    requires r == r1 * x + c0 && r1 == p * s1 && s == c0 * y + s1 && q == x * p && q * y == 1.0
    ensures r == q * s
  {
    assert q * s == c0 * (q * y) + q * s1;
  }

  /** The high-pass coefficients are the reversed input followed by zeros. */
  lemma {:induction false} HighPassSplit(c: seq<real>, len: nat)
    requires |c| <= len
    ensures HighPassCoefs(c, len) == Reversed(c) + Zeros(len - |c|)
  {
    var h, z := HighPassCoefs(c, len), Reversed(c) + Zeros(len - |c|);
    forall j | 0 <= j < len ensures h[j] == z[j] {
      if j < |c| {
        ReversedAt(c, j);
      }
    }
  }

  /** The high-pass coefficients evaluate to x^(len-1) times the low-pass
      polynomial at y = 1/x. */
  lemma {:induction false} HighPassEval(c: seq<real>, len: nat, x: real, y: real)
    requires 0 < |c| <= len && x * y == 1.0
    ensures PowerSum(HighPassCoefs(c, len), x) == Pow(x, len - 1) * PowerSum(c, y)
  {
    HighPassEvalValues(c, len, x, y, PowerSum(HighPassCoefs(c, len), x), Pow(x, len - 1), PowerSum(c, y));
  }

  lemma {:induction false} HighPassEvalValues(c: seq<real>, len: nat, x: real, y: real, h: real, w: real, s: real)
    requires 0 < |c| <= len && x * y == 1.0
    requires h == PowerSum(HighPassCoefs(c, len), x) && w == Pow(x, len - 1) && s == PowerSum(c, y)
    ensures h == w * s
  {
    var r, z, q := PowerSum(Reversed(c), x), Pow(x, len - |c|), Pow(x, |c| - 1);
    PaddedFact(c, len, x, h, r, z);
    ReversedEvalValues(c, x, y, r, q, s);
    PowAddFact(x, |c| - 1, len - |c|, w, q, z);
    HighPassAlgebra(h, r, z, q, s, w);
  }

  lemma {:induction false} PaddedFact(c: seq<real>, len: nat, x: real, h: real, r: real, z: real)
    requires |c| <= len
    requires h == PowerSum(HighPassCoefs(c, len), x) && r == PowerSum(Reversed(c), x) && z == Pow(x, len - |c|)
    ensures h == r * z
  {
    HighPassSplit(c, len);
    SuffixFact(Reversed(c), len - |c|, x, h, r, z);
  }

  lemma {:induction false} PowAddFact(x: real, m: nat, n: nat, w: real, q: real, z: real)
    requires w == Pow(x, m + n) && q == Pow(x, m) && z == Pow(x, n)
    ensures w == q * z
  {
    PowAdd(x, m, n);
  }

  lemma {:induction false} HighPassAlgebra(h: real, r: real, z: real, q: real, s: real, w: real)
    requires h == r * z && r == q * s && w == q * z
    ensures h == w * s
  {
    assert h == (q * s) * z;
  }

  /** `lpTohp` is the substitution s -> 1/s: wherever the low-pass
      denominator does not vanish at 1/x, the high-pass transfer function
      at x equals the low-pass one at 1/x. */
  lemma {:induction false} LpToHpEval(num: seq<real>, den: seq<real>, x: real)
    requires |num| > 0 && |den| > 0 && x != 0.0 && PowerSum(den, 1.0 / x) != 0.0
    ensures var tf := LpToHp(num, den).value;
      PowerSum(tf.denominator, x) != 0.0 &&
      PowerSum(tf.numerator, x) / PowerSum(tf.denominator, x) == PowerSum(num, 1.0 / x) / PowerSum(den, 1.0 / x)
  {
    var len := |num| + |den| - 1;
    var y := 1.0 / x;
    assert x * y == 1.0;
    var tf := LpToHp(num, den).value;
    var u, v, w, a, b := PowerSum(tf.numerator, x), PowerSum(tf.denominator, x), Pow(x, len - 1), PowerSum(num, y), PowerSum(den, y);
    HighPassEvalValues(num, len, x, y, u, w, a);
    HighPassEvalValues(den, len, x, y, v, w, b);
    PowNonzero(x, len - 1);
    RatioCancels(w, a, b, u, v);
  }

  lemma {:induction false} RatioCancels(p: real, a: real, b: real, u: real, v: real)
    requires p != 0.0 && b != 0.0 && u == p * a && v == p * b
    ensures v != 0.0 && u / v == a / b
  {
  }
  /** `lpTohp(double[], double[])`: two fresh zeroed arrays of length
      numDegree + denDegree + 1, each filled by a loop copying the input
      from its last entry into the front. */
  method LpToHpArrays(numerator: array<real>, denominator: array<real>) returns (r: Option<TransferFunction>)
    ensures r == LpToHp(numerator[..], denominator[..])
  {
    if numerator.Length == 0 || denominator.Length == 0 {
      return None;
    }
    var numDegree := numerator.Length - 1;
    var denDegree := denominator.Length - 1;
    var filterOrder := numDegree + denDegree + 1;
    var hpNumerator := new real[filterOrder](_ => 0.0);
    var i, j := numDegree, 0;
    while i >= 0
      invariant i + j == numDegree && -1 <= i
      invariant forall q :: 0 <= q < j ==> hpNumerator[q] == numerator[numDegree - q]
      invariant forall q :: j <= q < filterOrder ==> hpNumerator[q] == 0.0
    {
      hpNumerator[j] := numerator[i];
      i, j := i - 1, j + 1;
    }
    assert forall q :: 0 <= q < filterOrder ==> hpNumerator[q] == HighPassCoefs(numerator[..], filterOrder)[q];
    assert hpNumerator[..] == HighPassCoefs(numerator[..], filterOrder);
    var hpNum := hpNumerator[..];
    var hpDenominator := new real[filterOrder](_ => 0.0);
    i, j := denDegree, 0;
    while i >= 0
      invariant i + j == denDegree && -1 <= i
      invariant forall q :: 0 <= q < j ==> hpDenominator[q] == denominator[denDegree - q]
      invariant forall q :: j <= q < filterOrder ==> hpDenominator[q] == 0.0
    {
      hpDenominator[j] := denominator[i];
      i, j := i - 1, j + 1;
    }
    assert forall q :: 0 <= q < filterOrder ==> hpDenominator[q] == HighPassCoefs(denominator[..], filterOrder)[q];
    assert hpDenominator[..] == HighPassCoefs(denominator[..], filterOrder);
    r := Some(TransferFunction(hpNum, hpDenominator[..]));
  }

  /** `lpTohp(Polynomial, Polynomial)`: the transform on the defensive
      copies `getCoefficients` returns; it cannot fail, and the polynomials
      are left as they were. */
  method LpToHpPolys(numerator: Polynomial, denominator: Polynomial) returns (tf: TransferFunction)
    requires numerator.Valid() && denominator.Valid()
    ensures Some(tf) == LpToHp(numerator.coefs[..], denominator.coefs[..])
  {
    var a := numerator.GetCoefficients();
    var b := denominator.GetCoefficients();
    var r := LpToHpArrays(a, b);
    tf := r.value;
  }

  class Butterworth {
    var tf: TransferFunction
    var order: Int32
    var eps: real

    /** The private constructor `Butterworth(n, ap)`: epsilon from the
        passband ripple, one pole per step of `PoleSteps(n)` written with
        `poles[i++]`, a transfer function without zeros, and order n. A
        negative n throws at `new Complex[n]`; the factories return `None`
        then. */
    constructor Prototype(n: Int32, ap: real, m: Numerics)
      requires n >= 0
      ensures eps == m.epsilon(ap) && order == n
      ensures tf == m.fromZerosPoles([], PrototypePoles(n, m))
    {
      eps := m.epsilon(ap);
      var poles := new Complex[n](_ => Complex(0.0, 0.0));
      var ks := PoleSteps(n);
      PoleStepsCount(n);
      var i := 0;
      for t := 0 to |ks|
        invariant i == t
        invariant forall q :: 0 <= q < i ==> poles[q] == Pole(ks[q], n, m)
      {
        poles[i] := Pole(ks[t], n, m);
        i := i + 1;
      }
      assert poles[..] == PrototypePoles(n, m);
      tf := m.fromZerosPoles([], poles[..]);
      order := n;
    }

    function GetOrder(): (r: Int32)
      reads this
    {
      order
    }

    function GetEpsilon(): (r: real)
      reads this
    {
      eps
    }

    /** `newLowPass(n, ap)`: the prototype itself. */
    static method NewLowPassOfOrder(n: Int32, ap: real, m: Numerics) returns (r: Option<Butterworth>)
      ensures r.None? <==> n < 0
      ensures r.Some? ==> fresh(r.value) && r.value.GetOrder() == n && r.value.GetEpsilon() == m.epsilon(ap)
      ensures r.Some? ==> r.value.tf == m.fromZerosPoles([], PrototypePoles(n, m))
    {
      if n < 0 {
        return None;
      }
      var lp := new Butterworth.Prototype(n, ap, m);
      return Some(lp);
    }

    /** `newHighPass(n, ap)`: the prototype with `lpTohp` applied to its
        transfer function; the order stays n. */
    static method NewHighPassOfOrder(n: Int32, ap: real, m: Numerics) returns (r: Option<Butterworth>)
      ensures r.None? <==> n < 0
      ensures r.Some? ==> fresh(r.value) && r.value.GetOrder() == n && r.value.GetEpsilon() == m.epsilon(ap)
      ensures r.Some? ==> var proto := m.fromZerosPoles([], PrototypePoles(n, m));
        Some(r.value.tf) == LpToHp(proto.numerator, proto.denominator)
    {
      var lp := NewLowPassOfOrder(n, ap, m);
      if lp.None? {
        return None;
      }
      var hp := lp.value;
      hp.tf := LpToHp(hp.tf.numerator, hp.tf.denominator).value;
      return Some(hp);
    }

    /** `newLowPass(wp, ws, ap, as)`: order from `getMinOrderRequired(wp,
        ws, ...)`, the prototype scaled by the low-pass factor. */
    static method NewLowPass(wp: real, ws: real, ap: real, as_: real, m: Numerics) returns (r: Option<Butterworth>)
      ensures r.None? <==> m.minOrder(wp, ws, ap, as_) < 0
      ensures r.Some? ==> fresh(r.value) && r.value.GetOrder() == m.minOrder(wp, ws, ap, as_)
      ensures r.Some? ==> var n := m.minOrder(wp, ws, ap, as_);
        r.value.tf == m.scale(m.fromZerosPoles([], PrototypePoles(n, m)), m.lowPassFactor(m.epsilon(ap), n, wp))
    {
      var n := m.minOrder(wp, ws, ap, as_);
      if n < 0 {
        return None;
      }
      var lp := new Butterworth.Prototype(n, ap, m);
      lp.tf := m.scale(lp.tf, m.lowPassFactor(lp.eps, n, wp));
      return Some(lp);
    }

    /** `newHighPass(wp, ws, ap, as)`: the order comes from
        `getMinOrderRequired(ws, wp, ...)`, the band edges swapped, and the
        scaled prototype goes through `lpTohp`. */
    static method NewHighPass(wp: real, ws: real, ap: real, as_: real, m: Numerics) returns (r: Option<Butterworth>)
      ensures r.None? <==> m.minOrder(ws, wp, ap, as_) < 0
      ensures r.Some? ==> fresh(r.value) && r.value.GetOrder() == m.minOrder(ws, wp, ap, as_)
      ensures r.Some? ==> var n := m.minOrder(ws, wp, ap, as_);
        var lp := m.scale(m.fromZerosPoles([], PrototypePoles(n, m)), m.highPassFactor(m.epsilon(ap), n, wp));
        Some(r.value.tf) == LpToHp(lp.numerator, lp.denominator)
    {
      var n := m.minOrder(ws, wp, ap, as_);
      if n < 0 {
        return None;
      }
      var hp := new Butterworth.Prototype(n, ap, m);
      hp.tf := m.scale(hp.tf, m.highPassFactor(hp.eps, n, wp));
      hp.tf := LpToHp(hp.tf.numerator, hp.tf.denominator).value;
      return Some(hp);
    }

    /** `newBandPass`: the prototype order is the larger of the two orders
        the stopband edges demand; after the band-pass transform the order
        is shifted left by one. */
    static method NewBandPass(wp1: real, wp2: real, ws1: real, ws2: real, ap: real, as1: real, as2: real, m: Numerics)
      returns (r: Option<Butterworth>)
      ensures var n := Max(m.minOrder(1.0, m.bandEdge(wp1, wp2, ws1), ap, as1),
                           m.minOrder(1.0, m.bandEdge(wp1, wp2, ws2), ap, as2));
        (r.None? <==> n < 0) &&
        (r.Some? ==>
           fresh(r.value) && r.value.GetOrder() == Shl1(n) &&
           r.value.tf == m.toBandPass(m.fromZerosPoles([], PrototypePoles(n, m)), m.epsilon(ap), n, wp1, wp2))
    {
      var n1 := m.minOrder(1.0, m.bandEdge(wp1, wp2, ws1), ap, as1);
      var n2 := m.minOrder(1.0, m.bandEdge(wp1, wp2, ws2), ap, as2);
      var n := if n1 >= n2 then n1 else n2;
      if n < 0 {
        return None;
      }
      var bp := new Butterworth.Prototype(n, ap, m);
      bp.tf := m.toBandPass(bp.tf, bp.eps, n, wp1, wp2);
      bp.order := Shl1(bp.order);
      return Some(bp);
    }
  }

  /** The band-pass design reports twice the prototype order for every
      order below 2^30. */
  lemma {:induction false} BandPassOrderDoubles(n1: Int32, n2: Int32)
    requires 0 <= Max(n1, n2) < 0x4000_0000
    ensures Shl1(Max(n1, n2)) == 2 * Max(n1, n2) && Shl1(Max(n1, n2)) >= n1 && Shl1(Max(n1, n2)) >= n2
  {
    Shl1Doubles(Max(n1, n2));
  }
}
