/** The complex numbers that `Polynomial(Complex...)` and the Butterworth
    pole placement work with: a pair of reals, with the two operations the
    root expansion uses. */
module ComplexNumbers {

  datatype Complex = Complex(re: real, im: real)

  /** `new Complex()`. */
  const Zero: Complex := Complex(0.0, 0.0)

  /** `new Complex(1.0, 0.0)`. */
  const One: Complex := Complex(1.0, 0.0)

  function Mul(a: Complex, b: Complex): Complex
  {
    Complex(a.re * b.re - a.im * b.im, a.re * b.im + a.im * b.re)
  }

  function Sub(a: Complex, b: Complex): Complex
  {
    Complex(a.re - b.re, a.im - b.im)
  }

  predicate IsReal(z: Complex)
  {
    z.im == 0.0
  }

  /** On the real axis the complex operations are the real ones. */
  lemma {:induction false} RealArithmetic(a: Complex, b: Complex)
    requires IsReal(a) && IsReal(b)
    ensures Mul(a, b) == Complex(a.re * b.re, 0.0)
    ensures Sub(a, b) == Complex(a.re - b.re, 0.0)
  {
  }
}
