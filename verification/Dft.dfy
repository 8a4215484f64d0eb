/** Laws of the discrete Fourier transform, in one and in two dimensions, over arbitrary signals. */
module Dft {
  import opened Modulo
  import opened ComplexField
  import opened Sums
  import opened Fourier

  /** Coefficient k of the transform of the first n values of f. */
  function Dft1(tw: Signal, f: Signal, n: nat, k: int): Complex {
    Sum(Product(Character(tw, k), f), n)
  }

  function Spectrum(tw: Signal, f: Signal, n: nat): Signal { k => Dft1(tw, f, n, k) }

  lemma DftAgree(tw: Signal, f: Signal, g: Signal, n: nat, k: int)
    requires Agree(f, g, n)
    ensures Dft1(tw, f, n, k) == Dft1(tw, g, n, k)
  {
    hide Mul;
    SumAgree(Product(Character(tw, k), f), Product(Character(tw, k), g), n);
  }

  lemma DftScaled(tw: Signal, c: Complex, f: Signal, n: nat, k: int)
    ensures Dft1(tw, Scaled(c, f), n, k) == Mul(c, Dft1(tw, f, n, k))
  {
    var e := Character(tw, k);
    forall j | 0 <= j < n ensures Product(e, Scaled(c, f))(j) == Scaled(c, Product(e, f))(j) {
      MulSwap(e(j), c, f(j));
    }
    SumAgree(Product(e, Scaled(c, f)), Scaled(c, Product(e, f)), n);
    SumScaled(c, Product(e, f), n);
    hide *;
  }

  lemma MulSwap(a: Complex, b: Complex, c: Complex)
    ensures Mul(a, Mul(b, c)) == Mul(b, Mul(a, c))
  {
    MulAssociates(a, b, c);
    MulAssociates(b, a, c);
    MulCommutes(a, b);
    hide Mul;
  }

  lemma DftPlus(tw: Signal, f: Signal, g: Signal, n: nat, k: int)
    ensures Dft1(tw, Plus(f, g), n, k) == Add(Dft1(tw, f, n, k), Dft1(tw, g, n, k))
  {
    hide Mul, Add;
    var e := Character(tw, k);
    forall j | 0 <= j < n ensures Product(e, Plus(f, g))(j) == Plus(Product(e, f), Product(e, g))(j) {
      MulDistributes(e(j), f(j), g(j));
    }
    SumAgree(Product(e, Plus(f, g)), Plus(Product(e, f), Product(e, g)), n);
    SumPlus(Product(e, f), Product(e, g), n);
  }

  /** The spectrum repeats with period n. */
  lemma DftPeriodic(tw: Signal, f: Signal, n: nat, k: int, k': int)
    requires IsRoot(tw, n) && k % n == k' % n
    ensures Dft1(tw, f, n, k) == Dft1(tw, f, n, k')
  {
    hide Mul;
    var q := ModEqualTurns(k, k', n);
    forall j | 0 <= j < n ensures Character(tw, k)(j) == Character(tw, k')(j) {
      assert j * k == j * k' + j * q * n;
      ModTurns(j * k', n, j * q);
      RootCongruent(tw, n, j * k, j * k');
    }
    SumAgree(Product(Character(tw, k), f), Product(Character(tw, k'), f), n);
  }

  /** Conjugating a signal conjugates its spectrum and turns it around. */
  lemma DftConjugated(tw: Signal, f: Signal, n: nat, k: int)
    requires IsRoot(tw, n)
    ensures Dft1(tw, Conjugated(f), n, k) == Conj(Dft1(tw, f, n, -k))
  {
    hide Mul, Conj;
    var p := Product(Character(tw, -k), f);
    forall j | 0 <= j < n ensures Product(Character(tw, k), Conjugated(f))(j) == Conjugated(p)(j) {
      assert j * k == -(j * -k);
      RootNegated(tw, n, j * -k);
      ConjMul(tw(j * -k), f(j));
    }
    SumAgree(Product(Character(tw, k), Conjugated(f)), Conjugated(p), n);
    SumConjugated(p, n);
  }

  /** Transforming backward is transforming forward at the opposite frequency. */
  lemma DftBackward(tw: Signal, f: Signal, n: nat, k: int)
    ensures Dft1(Backward(tw), f, n, k) == Dft1(tw, f, n, -k)
  {
    hide Mul;
    forall j | 0 <= j < n ensures Product(Character(Backward(tw), k), f)(j) == Product(Character(tw, -k), f)(j) {
      assert -(j * k) == j * -k;
    }
    SumAgree(Product(Character(Backward(tw), k), f), Product(Character(tw, -k), f), n);
  }

  /** Reading a signal backwards turns its spectrum around. */
  lemma DftReflected(tw: Signal, f: Signal, n: nat, k: int)
    requires IsRoot(tw, n)
    ensures Dft1(tw, Reflected(f, n), n, k) == Dft1(tw, f, n, -k)
  {
    hide Mul;
    var p := Product(Character(tw, -k), f);
    forall j | 0 <= j < n ensures Product(Character(tw, k), Reflected(f, n))(j) == Reflected(p, n)(j) {
      ReflectedExponent(j, k, n);
      RootCongruent(tw, n, (-j) % n * -k, j * k);
    }
    SumAgree(Product(Character(tw, k), Reflected(f, n)), Reflected(p, n), n);
    SumReflected(p, n);
  }

  lemma ReflectedExponent(j: int, k: int, n: int)
    requires 0 < n
    ensures ((-j) % n * -k) % n == (j * k) % n
  {
    var q := (-j) / n;
    assert -j == q * n + (-j) % n;
    assert (-j) % n * -k == j * k + q * k * n;
    ModTurns(j * k, n, q * k);
  }

  function TransformedRows(tw: Signal, m: Plane, w: nat, l: int): Signal { r => Dft1(tw, RowOf(m, r), w, l) }

  function TransformedColumns(tw: Signal, m: Plane, h: nat, k: int): Signal { c => Dft1(tw, ColumnOf(m, c), h, k) }

  function Kernel(tr: Signal, tc: Signal, m: Plane, k: int, l: int): Plane {
    (r, c) => Mul(tr(r * k), Mul(tc(c * l), m(r, c)))
  }

  /** Transforming rows and transforming columns commute. */
  lemma DftExchange(tr: Signal, tc: Signal, m: Plane, h: nat, w: nat, k: int, l: int)
    ensures Dft1(tr, TransformedRows(tc, m, w, l), h, k) == Dft1(tc, TransformedColumns(tr, m, h, k), w, l)
  {
    hide Mul;
    var kernel := Kernel(tr, tc, m, k, l);
    var rows := Product(Character(tr, k), TransformedRows(tc, m, w, l));
    var columns := Product(Character(tc, l), TransformedColumns(tr, m, h, k));
    forall r | 0 <= r < h ensures rows(r) == RowSums(kernel, w)(r) {
      var p := Product(Character(tc, l), RowOf(m, r));
      SumScaled(tr(r * k), p, w);
      SumAgree(RowOf(kernel, r), Scaled(tr(r * k), p), w);
    }
    SumAgree(rows, RowSums(kernel, w), h);
    forall c | 0 <= c < w ensures columns(c) == ColumnSums(kernel, h)(c) {
      var p := Product(Character(tr, k), ColumnOf(m, c));
      SumScaled(tc(c * l), p, h);
      forall r | 0 <= r < h ensures ColumnOf(kernel, c)(r) == Scaled(tc(c * l), p)(r) {
        MulSwap(tr(r * k), tc(c * l), m(r, c));
      }
      SumAgree(ColumnOf(kernel, c), Scaled(tc(c * l), p), h);
    }
    SumAgree(columns, ColumnSums(kernel, h), w);
    SumSwap(kernel, h, w);
  }

  function InverseKernel(tw: Signal, f: Signal, r: int): Plane {
    (k, j) => Mul(f(j), tw(k * (j - r)))
  }

  /** The backward transform of the spectrum is the signal, n times as large. */
  lemma DftInverse(tw: Signal, f: Signal, n: nat, r: int)
    requires IsRoot(tw, n) && 0 <= r < n
    ensures Dft1(Backward(tw), Spectrum(tw, f, n), n, r) == Scale(n as real, f(r))
  {
    hide Mul, Scale;
    var kernel := InverseKernel(tw, f, r);
    var outer := Product(Character(Backward(tw), r), Spectrum(tw, f, n));
    forall k | 0 <= k < n ensures outer(k) == RowSums(kernel, n)(k) {
      InverseRow(tw, f, n, r, k);
    }
    SumAgree(outer, RowSums(kernel, n), n);
    SumSwap(kernel, n, n);
    forall j | 0 <= j < n
      ensures ColumnSums(kernel, n)(j) == if j == r then Scale(n as real, f(r)) else ZERO
    {
      InverseColumn(tw, f, n, r, j);
    }
    SumSingle(ColumnSums(kernel, n), n, r);
  }

  lemma InverseRow(tw: Signal, f: Signal, n: nat, r: int, k: int)
    requires IsRoot(tw, n)
    ensures Mul(tw(-(k * r)), Dft1(tw, f, n, k)) == Sum(RowOf(InverseKernel(tw, f, r), k), n)
  {
    hide Mul;
    var p, c := Product(Character(tw, k), f), tw(-(k * r));
    SumScaled(c, p, n);
    forall j | 0 <= j < n ensures RowOf(InverseKernel(tw, f, r), k)(j) == Scaled(c, p)(j) {
      assert IntCue(-(k * r), j * k);
      assert -(k * r) + j * k == k * (j - r);
      MulAssociates(c, tw(j * k), f(j));
      MulCommutes(f(j), tw(k * (j - r)));
    }
    SumAgree(RowOf(InverseKernel(tw, f, r), k), Scaled(c, p), n);
  }

  lemma InverseColumn(tw: Signal, f: Signal, n: nat, r: int, j: int)
    requires IsRoot(tw, n) && 0 <= r < n && 0 <= j < n
    ensures Sum(ColumnOf(InverseKernel(tw, f, r), j), n) == if j == r then Scale(n as real, f(r)) else ZERO
  {
    hide Mul, Scale, IsRoot;
    var e := Character(tw, j - r);
    SumAgree(ColumnOf(InverseKernel(tw, f, r), j), Scaled(f(j), e), n);
    hide InverseKernel, Character;
    SumScaled(f(j), e, n);
    CharacterSum(tw, n, j - r);
    SameIndex(j, r, n);
    MulReal(f(j), n as real);
  }

  lemma SameIndex(j: int, r: int, n: nat)
    requires 0 <= r < n && 0 <= j < n
    ensures (j - r) % n == 0 <==> j == r
  {
    ModDifference(j, r, n);
    DivModUnique(j, n, 0, j);
    DivModUnique(r, n, 0, r);
  }

  lemma MulReal(a: Complex, x: real)
    ensures Mul(a, Complex(x, 0.0)) == Scale(x, a) == Mul(Complex(x, 0.0), a)
    ensures Mul(a, ZERO) == ZERO
  {
  }

  function Power(f: Signal): Signal { j => Mul(f(j), Conj(f(j))) }

  function ParsevalKernel(tw: Signal, f: Signal, n: nat): Plane {
    (k, j) => Mul(Dft1(tw, f, n, k), Mul(tw(-(j * k)), Conj(f(j))))
  }

  /** Parseval: the energy of the spectrum is n times the energy of the signal. */
  lemma Parseval(tw: Signal, f: Signal, n: nat)
    requires IsRoot(tw, n)
    ensures Sum(Power(Spectrum(tw, f, n)), n) == Scale(n as real, Sum(Power(f), n))
  {
    hide Mul, Scale, Conj;
    var kernel := ParsevalKernel(tw, f, n);
    forall k | 0 <= k < n ensures Power(Spectrum(tw, f, n))(k) == RowSums(kernel, n)(k) {
      ParsevalRow(tw, f, n, k);
    }
    SumAgree(Power(Spectrum(tw, f, n)), RowSums(kernel, n), n);
    SumSwap(kernel, n, n);
    var factor := Complex(n as real, 0.0);
    forall j | 0 <= j < n ensures ColumnSums(kernel, n)(j) == Scaled(factor, Power(f))(j) {
      ParsevalColumn(tw, f, n, j);
    }
    SumAgree(ColumnSums(kernel, n), Scaled(factor, Power(f)), n);
    SumScaled(factor, Power(f), n);
    MulReal(Sum(Power(f), n), n as real);
  }

  lemma ParsevalRow(tw: Signal, f: Signal, n: nat, k: int)
    requires IsRoot(tw, n)
    ensures Mul(Dft1(tw, f, n, k), Conj(Dft1(tw, f, n, k))) == Sum(RowOf(ParsevalKernel(tw, f, n), k), n)
  {
    hide Mul, Conj;
    var x, p := Dft1(tw, f, n, k), Product(Character(tw, k), f);
    forall j | 0 <= j < n ensures RowOf(ParsevalKernel(tw, f, n), k)(j) == Scaled(x, Conjugated(p))(j) {
      RootNegated(tw, n, j * k);
      ConjMul(tw(j * k), f(j));
    }
    SumAgree(RowOf(ParsevalKernel(tw, f, n), k), Scaled(x, Conjugated(p)), n);
    SumScaled(x, Conjugated(p), n);
    SumConjugated(p, n);
  }

  lemma ParsevalColumn(tw: Signal, f: Signal, n: nat, j: int)
    requires IsRoot(tw, n) && 0 <= j < n
    ensures Sum(ColumnOf(ParsevalKernel(tw, f, n), j), n) == Mul(Complex(n as real, 0.0), Mul(f(j), Conj(f(j))))
  {
    hide Mul, Conj, Scale;
    var c, p := Conj(f(j)), Product(Character(Backward(tw), j), Spectrum(tw, f, n));
    forall k | 0 <= k < n ensures ColumnOf(ParsevalKernel(tw, f, n), j)(k) == Scaled(c, p)(k) {
      var x, t := Dft1(tw, f, n, k), tw(-(j * k));
      assert -(k * j) == -(j * k);
      MulSwap(x, t, c);
      MulCommutes(x, c);
      MulSwap(t, c, x);
    }
    SumAgree(ColumnOf(ParsevalKernel(tw, f, n), j), Scaled(c, p), n);
    SumScaled(c, p, n);
    DftInverse(tw, f, n, j);
    MulReal(f(j), n as real);
    MulSwap(c, Complex(n as real, 0.0), f(j));
    MulCommutes(c, f(j));
  }

  /** Coefficient (k, l) of the transform of an h by w plane. */
  function Dft2(tr: Signal, tc: Signal, m: Plane, h: nat, w: nat, k: int, l: int): Complex {
    Dft1(tr, TransformedRows(tc, m, w, l), h, k)
  }

  function Spectrum2(tr: Signal, tc: Signal, m: Plane, h: nat, w: nat): Plane { (k, l) => Dft2(tr, tc, m, h, w, k, l) }

  ghost predicate PlanesAgree(m: Plane, m': Plane, h: nat, w: nat) {
    forall r, c :: 0 <= r < h && 0 <= c < w ==> m(r, c) == m'(r, c)
  }

  lemma Dft2Agree(tr: Signal, tc: Signal, m: Plane, m': Plane, h: nat, w: nat, k: int, l: int)
    requires PlanesAgree(m, m', h, w)
    ensures Dft2(tr, tc, m, h, w, k, l) == Dft2(tr, tc, m', h, w, k, l)
  {
    hide Dft1;
    forall r | 0 <= r < h ensures TransformedRows(tc, m, w, l)(r) == TransformedRows(tc, m', w, l)(r) {
      DftAgree(tc, RowOf(m, r), RowOf(m', r), w, l);
    }
    DftAgree(tr, TransformedRows(tc, m, w, l), TransformedRows(tc, m', w, l), h, k);
  }

  /** The two-dimensional backward transform undoes the forward one, up to the factor h w. */
  lemma Dft2Inverse(tr: Signal, tc: Signal, m: Plane, h: nat, w: nat, r: int, c: int)
    requires IsRoot(tr, h) && IsRoot(tc, w) && 0 <= r < h && 0 <= c < w
    ensures Dft2(Backward(tr), Backward(tc), Spectrum2(tr, tc, m, h, w), h, w, r, c)
            == Scale(h as real, Scale(w as real, m(r, c)))
  {
    hide Dft1, Scale, Mul;
    var column := Scaled(Complex(w as real, 0.0), ColumnOf(m, c));
    var rows := TransformedRows(Backward(tc), Spectrum2(tr, tc, m, h, w), w, c);
    forall k | 0 <= k < h ensures rows(k) == Spectrum(tr, column, h)(k) {
      InverseOfRow(tr, tc, m, h, w, k, c);
    }
    DftAgree(Backward(tr), rows, Spectrum(tr, column, h), h, r);
    DftInverse(tr, column, h, r);
    MulReal(m(r, c), w as real);
  }

  lemma InverseOfRow(tr: Signal, tc: Signal, m: Plane, h: nat, w: nat, k: int, c: int)
    requires IsRoot(tr, h) && IsRoot(tc, w) && 0 <= c < w
    ensures Dft1(Backward(tc), RowOf(Spectrum2(tr, tc, m, h, w), k), w, c)
            == Dft1(tr, Scaled(Complex(w as real, 0.0), ColumnOf(m, c)), h, k)
  {
    hide Dft1, Scale, Mul;
    var half := HalfTransformed(tc, m, w);
    forall l | 0 <= l < w
      ensures RowOf(Spectrum2(tr, tc, m, h, w), k)(l) == TransformedColumns(tr, half, h, k)(l)
    {
      DftAgree(tr, TransformedRows(tc, m, w, l), ColumnOf(half, l), h, k);
    }
    DftAgree(Backward(tc), RowOf(Spectrum2(tr, tc, m, h, w), k), TransformedColumns(tr, half, h, k), w, c);
    DftExchange(tr, Backward(tc), half, h, w, k, c);
    var column := Scaled(Complex(w as real, 0.0), ColumnOf(m, c));
    forall r | 0 <= r < h ensures TransformedRows(Backward(tc), half, w, c)(r) == column(r) {
      DftAgree(Backward(tc), RowOf(half, r), Spectrum(tc, RowOf(m, r), w), w, c);
      DftInverse(tc, RowOf(m, r), w, c);
      MulReal(m(r, c), w as real);
    }
    DftAgree(tr, TransformedRows(Backward(tc), half, w, c), column, h, k);
  }

  /** Every row transformed, no column yet. */
  function HalfTransformed(tc: Signal, m: Plane, w: nat): Plane { (r, l) => Dft1(tc, RowOf(m, r), w, l) }

  /** Transforming a plane backward is transforming it forward at the opposite frequency. */
  lemma Dft2Backward(tr: Signal, tc: Signal, m: Plane, h: nat, w: nat, k: int, l: int)
    ensures Dft2(Backward(tr), Backward(tc), m, h, w, k, l) == Dft2(tr, tc, m, h, w, -k, -l)
  {
    hide Dft1;
    var rows := TransformedRows(Backward(tc), m, w, l);
    DftBackward(tr, rows, h, k);
    forall r | 0 <= r < h ensures rows(r) == TransformedRows(tc, m, w, -l)(r) {
      DftBackward(tc, RowOf(m, r), w, l);
    }
    DftAgree(tr, rows, TransformedRows(tc, m, w, -l), h, -k);
  }

  function PlaneSum(m: Plane, m': Plane): Plane { (i, j) => Add(m(i, j), m'(i, j)) }

  /** The transform is additive. */
  lemma Dft2Plus(tr: Signal, tc: Signal, m: Plane, m': Plane, h: nat, w: nat, k: int, l: int)
    ensures Dft2(tr, tc, PlaneSum(m, m'), h, w, k, l)
            == Add(Dft2(tr, tc, m, h, w, k, l), Dft2(tr, tc, m', h, w, k, l))
  {
    hide Dft1, Add;
    var x, y := TransformedRows(tc, m, w, l), TransformedRows(tc, m', w, l);
    forall r | 0 <= r < h ensures TransformedRows(tc, PlaneSum(m, m'), w, l)(r) == Plus(x, y)(r) {
      DftAgree(tc, RowOf(PlaneSum(m, m'), r), Plus(RowOf(m, r), RowOf(m', r)), w, l);
      DftPlus(tc, RowOf(m, r), RowOf(m', r), w, l);
    }
    DftAgree(tr, TransformedRows(tc, PlaneSum(m, m'), w, l), Plus(x, y), h, k);
    DftPlus(tr, x, y, h, k);
  }

  /** The spectrum of a plane repeats with periods h and w. */
  lemma Dft2Periodic(tr: Signal, tc: Signal, m: Plane, h: nat, w: nat, k: int, l: int, k': int, l': int)
    requires IsRoot(tr, h) && IsRoot(tc, w) && k % h == k' % h && l % w == l' % w
    ensures Dft2(tr, tc, m, h, w, k, l) == Dft2(tr, tc, m, h, w, k', l')
  {
    hide Dft1, IsRoot;
    var rows := TransformedRows(tc, m, w, l);
    DftPeriodic(tr, rows, h, k, k');
    forall r | 0 <= r < h ensures rows(r) == TransformedRows(tc, m, w, l')(r) {
      DftPeriodic(tc, RowOf(m, r), w, l, l');
    }
    DftAgree(tr, rows, TransformedRows(tc, m, w, l'), h, k');
  }

  function ConjugatedPlane(m: Plane): Plane { (i, j) => Conj(m(i, j)) }

  /** Conjugating a plane conjugates its spectrum and turns it around. */
  lemma Dft2Conjugated(tr: Signal, tc: Signal, m: Plane, h: nat, w: nat, k: int, l: int)
    requires IsRoot(tr, h) && IsRoot(tc, w)
    ensures Dft2(tr, tc, ConjugatedPlane(m), h, w, k, l) == Conj(Dft2(tr, tc, m, h, w, -k, -l))
  {
    hide Dft1, IsRoot, Conj;
    var rows := TransformedRows(tc, m, w, -l);
    forall r | 0 <= r < h ensures TransformedRows(tc, ConjugatedPlane(m), w, l)(r) == Conjugated(rows)(r) {
      DftAgree(tc, RowOf(ConjugatedPlane(m), r), Conjugated(RowOf(m, r)), w, l);
      DftConjugated(tc, RowOf(m, r), w, l);
    }
    DftAgree(tr, TransformedRows(tc, ConjugatedPlane(m), w, l), Conjugated(rows), h, k);
    DftConjugated(tr, rows, h, k);
  }

  function ReflectedPlane(m: Plane, h: nat, w: nat): Plane
    requires 0 < h && 0 < w
  {
    (i, j) => m((-i) % h, (-j) % w)
  }

  /** Reading a plane backwards in both directions turns its spectrum around. */
  lemma Dft2Reflected(tr: Signal, tc: Signal, m: Plane, h: nat, w: nat, k: int, l: int)
    requires IsRoot(tr, h) && IsRoot(tc, w) && 0 < h && 0 < w
    ensures Dft2(tr, tc, ReflectedPlane(m, h, w), h, w, k, l) == Dft2(tr, tc, m, h, w, -k, -l)
  {
    hide Dft1, IsRoot;
    var rows := TransformedRows(tc, m, w, -l);
    forall r | 0 <= r < h
      ensures TransformedRows(tc, ReflectedPlane(m, h, w), w, l)(r) == Reflected(rows, h)(r)
    {
      var row := RowOf(m, (-r) % h);
      DftAgree(tc, RowOf(ReflectedPlane(m, h, w), r), Reflected(row, w), w, l);
      DftReflected(tc, row, w, l);
    }
    DftAgree(tr, TransformedRows(tc, ReflectedPlane(m, h, w), w, l), Reflected(rows, h), h, k);
    DftReflected(tr, rows, h, k);
  }

  lemma DftZero(tw: Signal, f: Signal, n: nat)
    requires IsRoot(tw, n)
    ensures Dft1(tw, f, n, 0) == Sum(f, n)
  {
    forall j | 0 <= j < n ensures Product(Character(tw, 0), f)(j) == f(j) {
      assert j * 0 == 0;
      RootZero(tw, n);
    }
    SumAgree(Product(Character(tw, 0), f), f, n);
  }

  /** The coefficient at frequency zero is the sum of all values. */
  lemma Dft2Zero(tr: Signal, tc: Signal, m: Plane, h: nat, w: nat)
    requires IsRoot(tr, h) && IsRoot(tc, w)
    ensures Dft2(tr, tc, m, h, w, 0, 0) == Sum(RowSums(m, w), h)
  {
    hide Dft1, IsRoot;
    var rows := TransformedRows(tc, m, w, 0);
    DftZero(tr, rows, h);
    forall r | 0 <= r < h ensures rows(r) == RowSums(m, w)(r) {
      DftZero(tc, RowOf(m, r), w);
    }
    SumAgree(rows, RowSums(m, w), h);
  }

  lemma DftSingle(tw: Signal, f: Signal, n: nat, k: int)
    requires IsRoot(tw, n) && forall j :: 0 < j < n ==> f(j) == ZERO
    ensures Dft1(tw, f, n, k) == f(0)
  {
    var p := Product(Character(tw, k), f);
    forall j | 0 <= j < n && j != 0 ensures p(j) == ZERO {
      MulReal(tw(j * k), 0.0);
    }
    SumSingle(p, n, 0);
    assert 0 * k == 0;
    RootZero(tw, n);
  }

  /** A plane that is zero off its first element has a constant spectrum. */
  lemma Dft2Single(tr: Signal, tc: Signal, m: Plane, h: nat, w: nat, k: int, l: int)
    requires 0 < h && 0 < w && IsRoot(tr, h) && IsRoot(tc, w)
    requires forall i, j :: 0 <= i < h && 0 <= j < w && (i != 0 || j != 0) ==> m(i, j) == ZERO
    ensures Dft2(tr, tc, m, h, w, k, l) == m(0, 0)
  {
    hide Dft1, IsRoot;
    var rows := TransformedRows(tc, m, w, l);
    forall r | 0 <= r < h ensures rows(r) == m(r, 0) {
      DftSingle(tc, RowOf(m, r), w, l);
    }
    DftSingle(tr, rows, h, k);
  }

  function ScaledPlane(c: Complex, m: Plane): Plane { (i, j) => Mul(c, m(i, j)) }

  lemma Dft2Scaled(tr: Signal, tc: Signal, a: Complex, m: Plane, h: nat, w: nat, k: int, l: int)
    ensures Dft2(tr, tc, ScaledPlane(a, m), h, w, k, l) == Mul(a, Dft2(tr, tc, m, h, w, k, l))
  {
    hide Dft1, Mul;
    var rows := TransformedRows(tc, m, w, l);
    forall r | 0 <= r < h ensures TransformedRows(tc, ScaledPlane(a, m), w, l)(r) == Scaled(a, rows)(r) {
      DftAgree(tc, RowOf(ScaledPlane(a, m), r), Scaled(a, RowOf(m, r)), w, l);
      DftScaled(tc, a, RowOf(m, r), w, l);
    }
    DftAgree(tr, TransformedRows(tc, ScaledPlane(a, m), w, l), Scaled(a, rows), h, k);
    DftScaled(tr, a, rows, h, k);
  }

  function Power2(m: Plane): Plane { (r, c) => Mul(m(r, c), Conj(m(r, c))) }

  /** The energy of a plane: the sum of its squared moduli. */
  function Energy(m: Plane, h: nat, w: nat): Complex { Sum(RowSums(Power2(m), w), h) }

  /** Parseval in two dimensions. */
  lemma Parseval2(tr: Signal, tc: Signal, m: Plane, h: nat, w: nat)
    requires IsRoot(tr, h) && IsRoot(tc, w)
    ensures Energy(Spectrum2(tr, tc, m, h, w), h, w) == Scale(h as real, Scale(w as real, Energy(m, h, w)))
  {
    hide Dft1, Scale, Mul, Conj;
    var x, half := Spectrum2(tr, tc, m, h, w), HalfTransformed(tc, m, w);
    var fh, fw := Complex(h as real, 0.0), Complex(w as real, 0.0);
    SumSwap(Power2(x), h, w);
    forall l | 0 <= l < w ensures ColumnSums(Power2(x), h)(l) == Scaled(fh, ColumnSums(Power2(half), h))(l) {
      var column := TransformedRows(tc, m, w, l);
      SumAgree(ColumnOf(Power2(x), l), Power(Spectrum(tr, column, h)), h);
      Parseval(tr, column, h);
      SumAgree(Power(column), ColumnOf(Power2(half), l), h);
      MulReal(Sum(Power(column), h), h as real);
    }
    SumAgree(ColumnSums(Power2(x), h), Scaled(fh, ColumnSums(Power2(half), h)), w);
    SumScaled(fh, ColumnSums(Power2(half), h), w);
    SumSwap(Power2(half), h, w);
    forall r | 0 <= r < h ensures RowSums(Power2(half), w)(r) == Scaled(fw, RowSums(Power2(m), w))(r) {
      var row := RowOf(m, r);
      SumAgree(RowOf(Power2(half), r), Power(Spectrum(tc, row, w)), w);
      Parseval(tc, row, w);
      SumAgree(Power(row), RowOf(Power2(m), r), w);
      MulReal(Sum(Power(row), w), w as real);
    }
    SumAgree(RowSums(Power2(half), w), Scaled(fw, RowSums(Power2(m), w)), h);
    SumScaled(fw, RowSums(Power2(m), w), h);
    MulReal(Energy(m, h, w), w as real);
    MulReal(Energy(half, h, w), h as real);
  }
}
