/** Complex arithmetic, as std::complex and the two-channel matrices of cvComplex.cpp use it. */
module ComplexField {

  datatype Complex = Complex(re: real, im: real)

  const ZERO := Complex(0.0, 0.0)
  const ONE := Complex(1.0, 0.0)

  function Add(a: Complex, b: Complex): Complex { Complex(a.re + b.re, a.im + b.im) }

  function Sub(a: Complex, b: Complex): Complex { Complex(a.re - b.re, a.im - b.im) }

  function Mul(a: Complex, b: Complex): Complex {
    Complex(a.re * b.re - a.im * b.im, a.re * b.im + a.im * b.re)
  }

  function Conj(a: Complex): Complex { Complex(a.re, -a.im) }

  function Scale(k: real, a: Complex): Complex { Complex(k * a.re, k * a.im) }

  /** The squared modulus. */
  function Norm2(a: Complex): real { a.re * a.re + a.im * a.im }

  lemma MulCommutes(a: Complex, b: Complex)
    ensures Mul(a, b) == Mul(b, a)
  {
  }

  lemma MulAssociates(a: Complex, b: Complex, c: Complex)
    ensures Mul(Mul(a, b), c) == Mul(a, Mul(b, c))
  {
    assert Mul(Mul(a, b), c).re == a.re * b.re * c.re - a.im * b.im * c.re - a.re * b.im * c.im - a.im * b.re * c.im;
    assert Mul(a, Mul(b, c)).re == a.re * b.re * c.re - a.im * b.im * c.re - a.re * b.im * c.im - a.im * b.re * c.im;
  }

  lemma MulDistributes(a: Complex, b: Complex, c: Complex)
    ensures Mul(a, Add(b, c)) == Add(Mul(a, b), Mul(a, c))
  {
  }

  lemma ConjMul(a: Complex, b: Complex)
    ensures Conj(Mul(a, b)) == Mul(Conj(a), Conj(b))
  {
  }

  lemma Norm2Conj(a: Complex)
    ensures Mul(a, Conj(a)) == Complex(Norm2(a), 0.0)
  {
  }

  lemma Norm2Zero(a: Complex)
    ensures Norm2(a) >= 0.0
    ensures Norm2(a) == 0.0 <==> a == ZERO
  {
    SquarePositive(a.re);
    SquarePositive(a.im);
  }

  lemma SquarePositive(x: real)
    ensures x * x >= 0.0
    ensures x * x == 0.0 <==> x == 0.0
  {
    if x * x == 0.0 {
      RealNoZeroDivisors(x, x);
    }
  }

  /** The squared modulus is multiplicative. */
  lemma Norm2Mul(a: Complex, b: Complex)
    ensures Norm2(Mul(a, b)) == Norm2(a) * Norm2(b)
  {
    var p, q, r, s := a.re, a.im, b.re, b.im;
    assert (p * r - q * s) * (p * r - q * s) == p * p * (r * r) - 2.0 * (p * q * (r * s)) + q * q * (s * s);
    assert (p * s + q * r) * (p * s + q * r) == p * p * (s * s) + 2.0 * (p * q * (r * s)) + q * q * (r * r);
  }

  /** A product vanishes only with a factor. */
  lemma NoZeroDivisors(a: Complex, b: Complex)
    requires Mul(a, b) == ZERO
    ensures a == ZERO || b == ZERO
  {
    hide Mul, Norm2;
    Norm2Zero(a);
    Norm2Zero(b);
    Norm2Mul(a, b);
    Norm2Zero(Mul(a, b));
    RealNoZeroDivisors(Norm2(a), Norm2(b));
  }

  lemma ProductNonNegative(x: real, y: real)
    requires x >= 0.0 && y >= 0.0
    ensures x * y >= 0.0
  {
  }

  function Squared(t: real): (s: real)
    ensures t > 0.0 ==> s > 0.0
  {
    SquarePositive(t);
    t * t
  }

  lemma RealNoZeroDivisors(x: real, y: real)
    requires x * y == 0.0
    ensures x == 0.0 || y == 0.0
  {
  }

  lemma MulCancels(a: Complex, b: Complex, c: Complex)
    requires a != ZERO && Mul(a, b) == Mul(a, c)
    ensures b == c
  {
    assert Mul(a, Sub(b, c)) == Sub(Mul(a, b), Mul(a, c));
    NoZeroDivisors(a, Sub(b, c));
  }

  /** The inverse of a number of modulus one is its conjugate. */
  lemma UnitInverse(a: Complex, b: Complex)
    requires Norm2(a) == 1.0 && Mul(a, b) == ONE
    ensures b == Conj(a)
  {
    Norm2Conj(a);
    Norm2Zero(a);
    MulCancels(a, b, Conj(a));
  }
}
