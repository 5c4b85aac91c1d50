# Polynomials and Butterworth filter structure, modelled in Dafny

This project models two parts of the etk4j library: the `Polynomial` class and the structural side of the Butterworth analog filter designer.

**`Polynomial`** holds two fields:
- a mutable coefficient array `_coefs`, highest power first;
- a cache `_roots` of roots.

It offers:
- construction from coefficients, with the leading zeros stripped;
- construction from roots, by synthetic multiplication;
- Horner evaluation;
- add and subtract, each in value and in-place form;
- multiplication by convolution, and `pow`;
- the derivative;
- substitution of `d * x` for `x`;
- composition with another polynomial;
- `normalize` and `denormalize`;
- the root cache of `roots()`.

**The Butterworth designer** provides:
- the prototype's pole layout;
- the low-pass to high-pass transform `lpTohp`, which reverses coefficients and pads them with zeros;
- the order bookkeeping of the factories.

Modules:

- `Coefficients` (`algebra.dfy`) gives coefficient sequences their meaning. `PowerSum(c, x)` is the value `sum c[i] x^(deg-i)`. The module also defines the pure functions the class is specified against:
  - `Strip`, `Conv` (the convolution), `PowCoefs`, `Scale` and `ScaledByPowers`;
  - `AddInto` and `SubtractInto`, which are what one buffer holds after the `addOp`/`subtractOp` loop;
  - `AlignedSum`, the textbook degree-aligned sum.

  The lemmas tie each function to values: the product, the n-th power, the sum, `p(d x)`.
- `RootExpansion` (`roots.dfy`), with `ComplexNumbers` (`complex.dfy`), covers the root constructor's recurrence and its meaning for real roots.
- `Derivatives` (`derivative.dfy`), `Normalization` (`normalize.dfy`) and `Composition` (`composition.dfy`) hold the specification functions of those operations and the lemmas about them.
- `Polynomials` (`polynomial.dfy`) is the class itself:
  - `coefs: array<real>` and `roots: Option<seq<Complex>>`, with `None` standing for `null`;
  - one method per Java method, with loops and invariants;
  - in-place forms that write the receiver's array and state its new contents and the new cache.
- `ButterworthFilters` (`butterworth.dfy`) contains:
  - the `lpTohp` loops and their meaning, substitution of `1/x`;
  - the pole steps and angles;
  - the class `Butterworth` with its factories;
  - the 32-bit `_order <<= 1`.

  The floating formulas are fields of a `Numerics` record that the factories receive: log/pow/ceil, sqrt, cos/sin, the frequency factors and the band-pass transform.
- `Wrappers` (`wrappers.dfy`) is `Option`. `None` marks the places where Java throws.

Where the code does something other than the textbook operation its name suggests, the model follows the code:
- `derivative()` has no doc comment. The power rule would turn `[1, 3, 2]` into `[2, 3]`; the code computes `[2, 0]`.
- The textbook derivative of a constant is the zero polynomial. The code yields the constant 1.
- `denormalize` is documented only as reverting `normalize`. Its search for the gain tests the sign of each entry (`c < Double.MIN_VALUE`, which for doubles is `c <= 0`), not its magnitude.
- `add`/`subtract` have no doc comment. The textbook sum is degree-aligned; the code's is not (see Findings).
- No in-place method documents what it does to the root cache. `multiplyEquals(Polynomial)`, `addEquals`, `subtractEquals` and both `substituteEquals` clear it. `multiplyEquals(double)`, `normalize` and `denormalize` keep it. In the model their `modifies` clause names only the array, so `roots` is unchanged.

## Model

| member | source | states |
|---|---|---|
| Polynomials.Polynomial.Default | src/com/wildbitsfoundry/etk4j/math/polynomials/Polynomial.java:26-28 | the new polynomial is the constant 1 and has no cached roots |
| Polynomials.Polynomial.Copy | src/com/wildbitsfoundry/etk4j/math/polynomials/Polynomial.java:33-42 | a fresh array with the same coefficients, and the same cached roots (none if the original had none) |
| Polynomials.Polynomial.FromCoefficients | src/com/wildbitsfoundry/etk4j/math/polynomials/Polynomial.java:52-61 | the stored coefficients are `Strip(c)`: the leading run of exact zeros is skipped, and an all-zero or empty input gives `[1.0]`; no roots are cached |
| Coefficients.StripSpec | src/com/wildbitsfoundry/etk4j/math/polynomials/Polynomial.java:54-59 | the stripped coefficients are never empty and never start with 0; all-zero input gives exactly `[1.0]`; other input loses exactly its leading zeros, so `degree()` is the input length minus the zeros minus 1 |
| Coefficients.StripSkipsZeros | src/com/wildbitsfoundry/etk4j/math/polynomials/Polynomial.java:55-58 | the zeros already passed by the scanning loop do not change what is kept |
| Coefficients.StripKeepsValue | src/com/wildbitsfoundry/etk4j/math/polynomials/Polynomial.java:52-61 | for input with some nonzero coefficient, stripping keeps the polynomial's value at every x |
| Polynomials.Polynomial.FromRoots | src/com/wildbitsfoundry/etk4j/math/polynomials/Polynomial.java:71-96 | the coefficients are the real parts of the synthetic-multiplication result `Expand(rs)` (length n+1), and the cache holds the roots given |
| Polynomials.Polynomial.MultiplyByRoot | src/com/wildbitsfoundry/etk4j/math/polynomials/Polynomial.java:82-90 | one pass of the outer loop turns the first i+1 entries into the product with (x - z), the tail staying zero |
| Polynomials.Polynomial.ScaleRoots | src/com/wildbitsfoundry/etk4j/math/polynomials/Polynomial.java:84-86 | `tmp[j]` is z times `result[j]` for j = 0..i |
| Polynomials.Polynomial.SubtractProducts | src/com/wildbitsfoundry/etk4j/math/polynomials/Polynomial.java:87-89 | after `result[j+1] -= tmp[j]` for j = 0..i, with tmp holding the products p, the first i+2 entries are `SubShifted(c, p)` and the entries past them stay zero |
| RootExpansion.ExpandStepShifted | src/com/wildbitsfoundry/etk4j/math/polynomials/Polynomial.java:84-89 | subtracting the products z * c[m] shifted by one place is exactly one expansion pass `ExpandStep(c, z)` |
| RootExpansion.ExpandLeading | src/com/wildbitsfoundry/etk4j/math/polynomials/Polynomial.java:80-90 | `result[0]` stays 1: the expansion is monic, so `_coefs[0] == 1` |
| RootExpansion.ExpandRealRoots | src/com/wildbitsfoundry/etk4j/math/polynomials/Polynomial.java:71-96 | for real roots every complex coefficient is real and the real parts are the product of the linear factors (x - r_i) |
| RootExpansion.ExpandStepReal | src/com/wildbitsfoundry/etk4j/math/polynomials/Polynomial.java:84-89 | one pass with a real root over real coefficients is multiplication by (x - r) |
| RootExpansion.RealExpandEval | src/com/wildbitsfoundry/etk4j/math/polynomials/Polynomial.java:64-66 | the expansion of real roots evaluates to the product of (x - r_i) |
| RootExpansion.ExpansionVanishesAtRoots | src/com/wildbitsfoundry/etk4j/math/polynomials/Polynomial.java:71-96 | the polynomial built from real roots is zero at each of them |
| ComplexNumbers.RealArithmetic | src/com/wildbitsfoundry/etk4j/math/polynomials/Polynomial.java:85-88 | on real numbers complex multiply and subtract are the real operations |
| Polynomials.Polynomial.Degree | src/com/wildbitsfoundry/etk4j/math/polynomials/Polynomial.java:207-209 | the degree is never negative and is one less than the number of coefficients |
| Polynomials.Polynomial.GetCoefficients | src/com/wildbitsfoundry/etk4j/math/polynomials/Polynomial.java:245-247 | a fresh array equal to the coefficients |
| Polynomials.Polynomial.GetCoefficientAt | src/com/wildbitsfoundry/etk4j/math/polynomials/Polynomial.java:396-398 | the coefficient at an index inside the array, and `None` exactly for the indices where Java throws |
| Polynomials.Polynomial.EvaluateAt | src/com/wildbitsfoundry/etk4j/math/polynomials/Polynomial.java:255-263 | Horner's loop returns the power sum `sum c[i] x^(deg-i)` |
| Coefficients.HornerIsPowerSum | src/com/wildbitsfoundry/etk4j/math/polynomials/Polynomial.java:256-262 | Horner's recurrence equals the power sum for every coefficient sequence and x |
| Polynomials.Polynomial.EvaluateAtArray | src/com/wildbitsfoundry/etk4j/math/polynomials/Polynomial.java:265-274 | a fresh array of the same length whose entry i is the polynomial's value at `x[i]` |
| Polynomials.Polynomial.AddOp | src/com/wildbitsfoundry/etk4j/math/polynomials/Polynomial.java:172-179 | `result` becomes `AddInto(p1, p2, old result)`: as many positions as the shorter operand has, the last ones, aligned from the end, hold the sums and the rest is unchanged, also when `result` is p1's own array or p2 is p1 |
| Polynomials.Polynomial.SubtractOp | src/com/wildbitsfoundry/etk4j/math/polynomials/Polynomial.java:193-200 | the same with differences |
| Polynomials.Polynomial.Add | src/com/wildbitsfoundry/etk4j/math/polynomials/Polynomial.java:161-165 | a fresh polynomial holding the stripped `addOp` of both into a zeroed buffer of the longer length; the receiver unchanged |
| Polynomials.Polynomial.AddEquals | src/com/wildbitsfoundry/etk4j/math/polynomials/Polynomial.java:167-170 | the receiver keeps its array and length, the array becomes `AddInto(this, p, this)`, and the root cache is cleared |
| Polynomials.Polynomial.Subtract | src/com/wildbitsfoundry/etk4j/math/polynomials/Polynomial.java:182-186 | as `Add`, with differences |
| Polynomials.Polynomial.SubtractEquals | src/com/wildbitsfoundry/etk4j/math/polynomials/Polynomial.java:188-191 | as `AddEquals`, with differences |
| Coefficients.AddValueFormTruncates | src/com/wildbitsfoundry/etk4j/math/polynomials/Polynomial.java:161-179 | `add` as written: the buffer is max-min zeros followed by the sum of the two low-order parts, and its value is the sum of those parts only |
| Coefficients.SubtractValueFormTruncates | src/com/wildbitsfoundry/etk4j/math/polynomials/Polynomial.java:182-200 | `subtract` as written evaluates to the difference of the two low-order parts |
| Coefficients.AddIntoLongerReceiver | src/com/wildbitsfoundry/etk4j/math/polynomials/Polynomial.java:167-179 | with a receiver at least as long as the operand, the in-place add is the degree-aligned sum |
| Coefficients.SubtractIntoLongerReceiver | src/com/wildbitsfoundry/etk4j/math/polynomials/Polynomial.java:188-200 | with a receiver at least as long as the operand, the in-place subtract is the aligned sum with the negated operand |
| Coefficients.AlignedSumEval | src/com/wildbitsfoundry/etk4j/math/polynomials/Polynomial.java:161-170 | the degree-aligned sum is as long as the longer operand and evaluates to a(x) + b(x) |
| Coefficients.AddDropsHighTerms | src/com/wildbitsfoundry/etk4j/math/polynomials/Polynomial.java:161-179 | `add` of x^2 and 1 gives the constant 1 while the aligned sum is 2 at x = 1 |
| Polynomials.Polynomial.Multiply | src/com/wildbitsfoundry/etk4j/math/polynomials/Polynomial.java:136-138 | a fresh polynomial holding the stripped convolution of the two coefficient arrays |
| Polynomials.Polynomial.MultiplyEquals | src/com/wildbitsfoundry/etk4j/math/polynomials/Polynomial.java:146-149 | the receiver takes the unstripped convolution and its root cache is cleared |
| Coefficients.ConvEvalValues | src/com/wildbitsfoundry/etk4j/math/polynomials/Polynomial.java:136-149 | the convolution evaluates to the product of the two polynomials' values at every x |
| Coefficients.ConvLeading | src/com/wildbitsfoundry/etk4j/math/polynomials/Polynomial.java:137 | the leading coefficient of the product is the product of the leading coefficients |
| Coefficients.MultiplyExact | src/com/wildbitsfoundry/etk4j/math/polynomials/Polynomial.java:136-138 | with nonzero leading coefficients nothing is stripped: `multiply(p)` has degree deg(this) + deg(p) |
| Coefficients.MultiplyEval | src/com/wildbitsfoundry/etk4j/math/polynomials/Polynomial.java:136-138 | `multiply(p)` evaluates to this(x) * p(x) |
| Polynomials.Polynomial.MultiplyScalar | src/com/wildbitsfoundry/etk4j/math/polynomials/Polynomial.java:151-153 | a fresh polynomial holding every coefficient times d, stripped |
| Polynomials.Polynomial.MultiplyEqualsScalar | src/com/wildbitsfoundry/etk4j/math/polynomials/Polynomial.java:155-159 | every coefficient times d in place; only the array is modified, so the root cache is kept |
| Coefficients.PowerSumScale | src/com/wildbitsfoundry/etk4j/math/polynomials/Polynomial.java:151-159 | scaling every coefficient by d scales the value by d |
| Polynomials.Polynomial.Pow | src/com/wildbitsfoundry/etk4j/math/polynomials/Polynomial.java:382-394 | `None` (the exception) exactly for n < 0; otherwise a fresh polynomial holding the stripped `PowCoefs(c, n)`: `[1.0]` for 0, c for 1, one more convolution with c per further power |
| Coefficients.PowCoefsLength | src/com/wildbitsfoundry/etk4j/math/polynomials/Polynomial.java:389-393 | the buffer of `pow(n)` has n * deg + 1 entries |
| Coefficients.PowCoefsEval | src/com/wildbitsfoundry/etk4j/math/polynomials/Polynomial.java:389-393 | the buffer of `pow(n)` evaluates to the n-th power of the value |
| Coefficients.PowCoefsLeading | src/com/wildbitsfoundry/etk4j/math/polynomials/Polynomial.java:389-393 | its leading coefficient is the n-th power of the leading coefficient |
| Coefficients.PowExact | src/com/wildbitsfoundry/etk4j/math/polynomials/Polynomial.java:382-394 | with a nonzero leading coefficient `pow(n)` strips nothing, has n * deg + 1 coefficients and evaluates to p(x)^n |
| Polynomials.Polynomial.Derivative | src/com/wildbitsfoundry/etk4j/math/polynomials/Polynomial.java:232-239 | a fresh polynomial holding the stripped `DerivativeAsWritten(c)`: deg slots, entry i is `c[i] * (deg - i)` when 2i < deg and 0 otherwise |
| Derivatives.AsWrittenIsHalfThePowerRule | src/com/wildbitsfoundry/etk4j/math/polynomials/Polynomial.java:233-237 | the loop's entries agree with the power rule for i < ceil(deg/2) and are 0 after |
| Derivatives.ConstantDerivativeIsOne | src/com/wildbitsfoundry/etk4j/math/polynomials/Polynomial.java:232-239 | a constant yields no slot, which the constructor turns into the constant 1 |
| Derivatives.AsWrittenLosesTerms | src/com/wildbitsfoundry/etk4j/math/polynomials/Polynomial.java:232-239 | `[1, 3, 2]` gives `[2, 0]` where the power rule gives `[2, 3]` |
| Derivatives.AsWrittenMissesDoubleRoot | src/com/wildbitsfoundry/etk4j/math/polynomials/Polynomial.java:232-239 | the derivative of (x - 1)^2 as written is 2 at its double root 1, the power rule's is 0 |
| Derivatives.ProductRuleLinear | src/com/wildbitsfoundry/etk4j/math/polynomials/Polynomial.java:232-239 | the power-rule derivative obeys the product rule with a linear factor: (c (x - r))' = c + (x - r) c' |
| Derivatives.ProductRuleEval | src/com/wildbitsfoundry/etk4j/math/polynomials/Polynomial.java:232-239 | the same, in values at every x |
| Derivatives.DoubleRootVanishes | src/com/wildbitsfoundry/etk4j/math/polynomials/Polynomial.java:232-239 | the power-rule derivative vanishes at every double root |
| Polynomials.Polynomial.ScaleByPowers | src/com/wildbitsfoundry/etk4j/math/polynomials/Polynomial.java:334-338 | the nested loops leave coefficient i multiplied by d exactly deg - i times, the length and the last coefficient unchanged |
| Polynomials.Polynomial.ScaleEntry | src/com/wildbitsfoundry/etk4j/math/polynomials/Polynomial.java:335-337 | the inner loop multiplies one entry by d^n and leaves the others alone |
| Polynomials.Polynomial.SubstituteScalar | src/com/wildbitsfoundry/etk4j/math/polynomials/Polynomial.java:346-355 | a fresh polynomial holding the scaled copy, stripped; the receiver unchanged |
| Polynomials.Polynomial.SubstituteEqualsScalar | src/com/wildbitsfoundry/etk4j/math/polynomials/Polynomial.java:332-340 | the same scaling in place, and the root cache cleared |
| Coefficients.ScaledByPowersEval | src/com/wildbitsfoundry/etk4j/math/polynomials/Polynomial.java:328-355 | the scaled coefficients evaluate at x to the original polynomial at d * x |
| Polynomials.Polynomial.SubstituteOp | src/com/wildbitsfoundry/etk4j/math/polynomials/Polynomial.java:368-379 | a fresh polynomial holding `Composed(src, sub)`: `sub.pow(deg)` scaled by `src[0]`, then `sub.pow(deg - j)` scaled by `src[j]` added in place for j = 1..deg |
| Polynomials.Polynomial.FirstTerm | src/com/wildbitsfoundry/etk4j/math/polynomials/Polynomial.java:370-371 | the accumulator before the loop is `sub.pow(deg)` times `src[0]` |
| Polynomials.Polynomial.AddTerm | src/com/wildbitsfoundry/etk4j/math/polynomials/Polynomial.java:374-376 | one pass adds `sub.pow(i)` times `src[j]` in place to the accumulator |
| Polynomials.Polynomial.Substitute | src/com/wildbitsfoundry/etk4j/math/polynomials/Polynomial.java:364-366 | the composition, the receiver unchanged |
| Polynomials.Polynomial.SubstituteEquals | src/com/wildbitsfoundry/etk4j/math/polynomials/Polynomial.java:357-361 | the receiver takes the composition's array and its root cache is cleared |
| Composition.TermsLength | src/com/wildbitsfoundry/etk4j/math/polynomials/Polynomial.java:370-376 | the first addend `sub.pow(deg) * src[0]` is the longest, deg * deg(sub) + 1 entries, so every in-place add has the longer receiver |
| Composition.AccumulateEval | src/com/wildbitsfoundry/etk4j/math/polynomials/Polynomial.java:373-377 | after the addends 0..j the accumulator evaluates to Horner's prefix y^(deg-j) (src[0] y^j + ... + src[j]), y = sub(x) |
| Composition.ComposedEval | src/com/wildbitsfoundry/etk4j/math/polynomials/Polynomial.java:364-379 | `substitute(p)` has deg * deg(p) + 1 coefficients and evaluates at x to the receiver evaluated at p(x) |
| Polynomials.Polynomial.Normalize | src/com/wildbitsfoundry/etk4j/math/polynomials/Polynomial.java:120-127 | returns the old leading coefficient; the entries after the first are divided by it and the first becomes 1; the root cache kept |
| Normalization.NormalizedEval | src/com/wildbitsfoundry/etk4j/math/polynomials/Polynomial.java:115-127 | the normalized polynomial is monic and the returned gain times it is the original at every x |
| Polynomials.Polynomial.Denormalize | src/com/wildbitsfoundry/etk4j/math/polynomials/Polynomial.java:101-113 | fails (nothing changed) exactly when the gain search reads index -1; otherwise the array becomes `DenormalizedAsWritten(c, pivot)`; the root cache kept |
| Polynomials.Polynomial.FindGain | src/com/wildbitsfoundry/etk4j/math/polynomials/Polynomial.java:103-109 | the search loop yields `Pivot(c)` |
| Normalization.PivotSpec | src/com/wildbitsfoundry/etk4j/math/polynomials/Polynomial.java:103-109 | the pivot is the highest index from 1 up with a positive coefficient, 0 when none is, and missing only for a single non-positive coefficient |
| Polynomials.Polynomial.DivideByEntry | src/com/wildbitsfoundry/etk4j/math/polynomials/Polynomial.java:110-112 | the in-place division leaves entries up to the pivot divided by its coefficient and the later ones as they were |
| Normalization.DenormalizedIntendedEval | src/com/wildbitsfoundry/etk4j/math/polynomials/Polynomial.java:98-113 | dividing every coefficient by the gain gives 1 at the pivot, keeps the value up to the factor and keeps every root |
| Normalization.DenormalizeAsWrittenLosesRoot | src/com/wildbitsfoundry/etk4j/math/polynomials/Polynomial.java:110-112 | x^2 + 2x - 3 becomes 0.5x^2 + x - 3, which no longer vanishes at its root 1 |
| Polynomials.Polynomial.Roots | src/com/wildbitsfoundry/etk4j/math/polynomials/Polynomial.java:293-326 | a filled cache is returned as it is; otherwise degree 0 gives no root, degree 1 the root -c1/c0, a higher degree the solver's answer; the cache holds the answer, which has degree() entries |
| RootExpansion.LinearRootVanishes | src/com/wildbitsfoundry/etk4j/math/polynomials/Polynomial.java:301-303 | for degree 1 the reported root is the one and only zero of the polynomial |
| ButterworthFilters.LpToHpArrays | src/com/wildbitsfoundry/etk4j/systems/continuoustime/filters/Butterworth.java:127-147 | the two reversing loops yield `LpToHp(numerator, denominator)`, and `None` where Java throws on an empty array |
| ButterworthFilters.LpToHpShape | src/com/wildbitsfoundry/etk4j/systems/continuoustime/filters/Butterworth.java:127-147 | both arrays have length numDegree + denDegree + 1; `hpNumerator[j] == numerator[numDegree - j]` up to numDegree and 0 after; the same for the denominator |
| ButterworthFilters.ReversedEval | src/com/wildbitsfoundry/etk4j/systems/continuoustime/filters/Butterworth.java:135-137 | reversed coefficients evaluate at x to x^deg times the original at 1/x |
| ButterworthFilters.HighPassEval | src/com/wildbitsfoundry/etk4j/systems/continuoustime/filters/Butterworth.java:132-144 | reversing and padding to length len evaluates at x to x^(len-1) times the original at 1/x |
| ButterworthFilters.LpToHpEval | src/com/wildbitsfoundry/etk4j/systems/continuoustime/filters/Butterworth.java:127-147 | the transform is the substitution s -> 1/s: where the low-pass denominator is nonzero at 1/x, the high-pass ratio at x equals the low-pass ratio at 1/x |
| ButterworthFilters.LpToHpPolys | src/com/wildbitsfoundry/etk4j/systems/continuoustime/filters/Butterworth.java:123-125 | the transform of the two polynomials' coefficients, through defensive copies, never failing and leaving both polynomials alone |
| ButterworthFilters.PoleStepsCount | src/com/wildbitsfoundry/etk4j/systems/continuoustime/filters/Butterworth.java:42-54 | both step ranges hold exactly n values, k being (1 - n)/2 + i (+1/2 for even n), so all n pole slots are written |
| ButterworthFilters.PoleAngleFormula | src/com/wildbitsfoundry/etk4j/systems/continuoustime/filters/Butterworth.java:44-52 | for either parity the i-th angle is 90 (2i + 1 - n) / n degrees |
| ButterworthFilters.PoleAngles | src/com/wildbitsfoundry/etk4j/systems/continuoustime/filters/Butterworth.java:42-54 | the angles lie strictly between -90 and 90 degrees, are 180/n apart and mirror each other about 0 |
| ButterworthFilters.Butterworth.Prototype | src/com/wildbitsfoundry/etk4j/systems/continuoustime/filters/Butterworth.java:37-57 | epsilon from the ripple, a transfer function with no zeros and one pole per step in order, and order n |
| ButterworthFilters.Butterworth.NewLowPassOfOrder | src/com/wildbitsfoundry/etk4j/systems/continuoustime/filters/Butterworth.java:67-69 | `None` exactly for negative n; otherwise the prototype, with `getOrder() == n` |
| ButterworthFilters.Butterworth.NewHighPassOfOrder | src/com/wildbitsfoundry/etk4j/systems/continuoustime/filters/Butterworth.java:117-121 | fails exactly for a negative n; otherwise the prototype's transfer function through `lpTohp`, with `getOrder() == n` and the prototype's epsilon |
| ButterworthFilters.Butterworth.NewLowPass | src/com/wildbitsfoundry/etk4j/systems/continuoustime/filters/Butterworth.java:59-65 | order from the minimum-order formula at (wp, ws), the prototype scaled by the low-pass factor |
| ButterworthFilters.Butterworth.NewHighPass | src/com/wildbitsfoundry/etk4j/systems/continuoustime/filters/Butterworth.java:71-78 | fails exactly when the minimum-order formula with the band edges swapped gives a negative order; otherwise that order and the scaled prototype through `lpTohp` |
| ButterworthFilters.Butterworth.NewBandPass | src/com/wildbitsfoundry/etk4j/systems/continuoustime/filters/Butterworth.java:80-102 | the prototype of order max(n1, n2), the band-pass transform, and the order shifted left by one as a 32-bit int |
| ButterworthFilters.Wrap32 | src/com/wildbitsfoundry/etk4j/systems/continuoustime/filters/Butterworth.java:100 | 32-bit wrap-around: congruent mod 2^32 and the identity on int values |
| ButterworthFilters.Shl1Doubles | src/com/wildbitsfoundry/etk4j/systems/continuoustime/filters/Butterworth.java:100 | `n <<= 1` doubles every order below 2^30 and turns larger ones negative |
| ButterworthFilters.BandPassOrderDoubles | src/com/wildbitsfoundry/etk4j/systems/continuoustime/filters/Butterworth.java:92-100 | the reported band-pass order is 2 max(n1, n2), at least each of the two estimates |

## Left out

- Floating point: all arithmetic is on mathematical reals. Rounding, overflow to infinity and NaN are not modelled.
- Polynomials.Polynomial.Normalize: requires a nonzero leading coefficient. Java divides by zero there and produces Infinity/NaN.
- Polynomials.Polynomial.Denormalize: requires a nonzero divisor when the gain's index is 0. Java divides by zero there.
- Polynomials.Polynomial.Roots: requires a nonzero leading coefficient for degree 1, for the same reason.
- Polynomials.Polynomial.Roots: degree 2 and beyond go to a `solve` parameter, required to return degree() values as the quadratic formula, the cubic formula and the eigenvalue path do. Those three are not part of this model. Copy-on-read is a copy of a value sequence.
- Polynomials.Polynomial.GetCoefficientAt: returns `None` where Java throws `ArrayIndexOutOfBoundsException`.
- Polynomials.Polynomial.AddOp and Polynomials.Polynomial.SubtractOp: two requirements that every caller in the class meets:
  - `result` is at least as long as the shorter operand;
  - `result` is p1's array, or is not p2's.
- Polynomials.Polynomial.AddEquals and Polynomials.Polynomial.SubtractEquals: require that the operand is the receiver itself or has its own array. Java arrays are never shared between polynomials, because every constructor copies.
- Coefficients.MultiplyEval, Coefficients.PowExact and Composition.ComposedEval: require nonzero leading coefficients. Those are what the coefficient constructor produces. An all-zero product does not keep its length after stripping.
- Polynomials.Polynomial.Copy: Java shares the `Complex` objects of the root array. Here roots are immutable values, so that aliasing is not modelled.
- `evaluateAt(real, imag)`, complex Horner evaluation: not modelled.
- `toString` and both `main` methods: formatting and printing only.
- `lpTobp` (Butterworth.java 104-115): calls a two-argument `substitute` that `Polynomial` does not define. The factory receives its result as `Numerics.toBandPass`.
- `getMinOrderRequired`, epsilon, `Math.cos`/`Math.sin`, the low-pass/high-pass/band-pass frequency factors and the stopband-edge metric: uninterpreted fields of `Numerics`.
- `TransferFunction` and `AnalogFilter`: their source is not part of this model. A transfer function is a pair of non-empty coefficient sequences, the two `Polynomial`s it holds; its constructor from zeros and poles and its `scale` are fields of `Numerics`.
- `ArrayUtils.conv` and `ArrayUtils.linsteps`: not part of this model. `conv` is the standard full convolution (`Coefficients.Conv`). `linsteps(a, b, 1)` is the sequence a, a+1, ... up to b (`ButterworthFilters.LinSteps`).
- `Butterworth.getOrder` and `getEpsilon`: modelled as plain field reads (`GetOrder`, `GetEpsilon`) and used in the factories' contracts.
- A negative order makes `new Complex[n]` throw. The factories return `None` then.
- src/main/java/examples/Spline2dExample.java: an unrelated printing demo.

## Findings

The class methods reproduce the code as written, and the lemmas in the last two columns set that next to what was evidently intended. In composition, `addEquals` always has the longer receiver, so the code computes the intended aligned sum there (`Coefficients.AddIntoLongerReceiver`).

| source | as written | input that shows it | evidently intended | confidence | as-written member | corrected member |
|---|---|---|---|---|---|---|
| src/com/wildbitsfoundry/etk4j/math/polynomials/Polynomial.java:161-179 | `add` (and `subtract`) runs the `addOp` loop into a zeroed buffer; the loop stops at the shorter operand, so the longer operand's high-order coefficients stay 0 and are stripped | `[1, 0, 0].add([1])`, i.e. x^2 + 1, gives the constant 1 | the degree-aligned sum, of value p(x) + q(x) | not executed | Coefficients.AddDropsHighTerms | Coefficients.AlignedSumEval |
| src/com/wildbitsfoundry/etk4j/math/polynomials/Polynomial.java:233-237 | the loop `for (i = 0; i < length; ++i) ... length--` shrinks its own bound, so only the first ceil(deg/2) entries are written | `[1, -2, 1]`, i.e. (x - 1)^2, differentiates to 2x, which is 2 at the double root 1; `[1, 3, 2]` gives `[2, 0]` | the power rule, whose derivative vanishes at every double root | not executed | Derivatives.AsWrittenMissesDoubleRoot | Derivatives.DoubleRootVanishes |
| src/com/wildbitsfoundry/etk4j/math/polynomials/Polynomial.java:110-112 | the division is done in place, so the gain's own entry becomes 1 and every later entry is divided by 1 | `[1, 2, -3]`, root 1, gain index 1, becomes `[0.5, 1, -3]`, which is -1.5 at 1 | every coefficient divided by the gain, which keeps every root | not executed | Normalization.DenormalizeAsWrittenLosesRoot | Normalization.DenormalizedIntendedEval |
