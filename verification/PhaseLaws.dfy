/** The equation that the recovered phase solves, frequency by frequency. */
module PhaseLaws {
  import opened Grids
  import opened ComplexField
  import opened Fourier
  import opened Dft
  import opened Spectra
  import opened QuantDpcTheory
  import opened PhaseReality
  import opened PlaneWaves

  /** With h the sum of two transfer values, h h + reg times the coefficient c of a phase is `size` times -i h times
      the coefficient i of the measurement. */
  predicate Balanced(c: Complex, i: Complex, h: real, reg: real, size: real) {
    Scale(h * h + reg, c) == Scale(size, Mul(Complex(0.0, -h), i))
  }

  /** This holds at frequency (k, l), where `size` is n n because the backward transform is not scaled. */
  ghost predicate SolvesAt(lib: Library, f: Frame, d: RealFrame, t0: RealFrame, t1: RealFrame, reg: real, n: nat, k: nat, l: nat)
    requires Rect(f, n, n) && Rect(d, n, n) && Rect(t0, n, n) && Rect(t1, n, n) && k < n && l < n
  {
    Balanced(Fft(lib, f, n, n)[k][l], Fft(lib, Complexified(d, n, n), n, n)[k][l], t0[k][l] + t1[k][l], reg, Area(n))
  }

  /** The number of pixels, by which an unscaled backward transform is too large. */
  function Area(n: nat): real { n as real * n as real }

  ghost predicate Solves(lib: Library, f: Frame, d: RealFrame, t0: RealFrame, t1: RealFrame, reg: real, n: nat)
    requires Rect(d, n, n) && Rect(t0, n, n) && Rect(t1, n, n)
  {
    Rect(f, n, n) && forall k: nat, l: nat :: k < n && l < n ==> SolvesAt(lib, f, d, t0, t1, reg, n, k, l)
  }

  /** The forward transform of an unscaled backward transform is n n times the spectrum. */
  lemma UnscaledReturns(lib: Library, y: Frame, n: nat, k: nat, l: nat)
    requires lib.Valid() && Rect(y, n, n) && k < n && l < n
    ensures Fft(lib, UnscaledIfft(lib, y, n, n), n, n)[k][l] == Scale(Area(n), y[k][l])
  {
    hide Fft, UnscaledIfft, Mul, Scale, Share, IsPhase;
    var size, u, x := Area(n), UnscaledIfft(lib, y, n, n), Ifft(lib, y, n, n);
    var t := Times(Complex(size, 0.0), x, n, n);
    forall i, j | 0 <= i < n && 0 <= j < n ensures t[i][j] == u[i][j] {
      SizeTimesShare(n, size, u[i][j]);
    }
    GridEqual(t, u, n, n);
    FftUndoesIfft(lib, y, n, n);
    TimesSpectrum(lib, Complex(size, 0.0), x, n, n, k, l);
    MulReal(y[k][l], size);
  }

  lemma SizeTimesShare(n: nat, size: real, a: Complex)
    requires 0 < n && size == Area(n)
    ensures Mul(Complex(size, 0.0), Mul(Share(n, n), a)) == a
  {
    var s := 1.0 / size;
    assert s * size == 1.0;
    assert size * (s * a.re) == (size * s) * a.re && size * (s * a.im) == (size * s) * a.im;
  }

  lemma FilterTimes(i: Complex, h: real, reg: real, size: real)
    requires h * h + reg != 0.0
    ensures Balanced(Scale(size, FilterValue(i, h, reg)), i, h, reg, size)
  {
    FilterSolves(i, h, reg);
    var p, d, z := FilterValue(i, h, reg), h * h + reg, Mul(Complex(0.0, -h), i);
    assert z.re == i.im * h && z.im == -(i.re * h);
    hide Mul, FilterValue;
    ScalesSwap(d, size, p, z);
  }

  lemma ScalesSwap(d: real, size: real, p: Complex, z: Complex)
    requires d * p.re == z.re && d * p.im == z.im
    ensures Scale(d, Scale(size, p)) == Scale(size, z)
  {
    assert d * (size * p.re) == size * (d * p.re) && d * (size * p.im) == size * (d * p.im);
  }

  /** The complex image behind the phase solves this equation for the sum of the two images. */
  lemma PhaseSolves(lib: Library, d0: RealFrame, d1: RealFrame, t0: RealFrame, t1: RealFrame, reg: real, n: nat)
    requires lib.Valid() && 0 < n && Rect(d0, n, n) && Rect(d1, n, n) && Rect(t0, n, n) && Rect(t1, n, n)
    requires Regular(t0, t1, reg, n)
    ensures Solves(lib, ComplexPhase(lib, d0, d1, t0, t1, reg, n), Together(d0, d1, n), t0, t1, reg, n)
  {
    hide IsPhase, SolvesAt;
    forall k: nat, l: nat | k < n && l < n
      ensures SolvesAt(lib, ComplexPhase(lib, d0, d1, t0, t1, reg, n), Together(d0, d1, n), t0, t1, reg, n, k, l)
    {
      PhaseSolvesAt(lib, d0, d1, t0, t1, reg, n, k, l);
    }
  }

  lemma PhaseSolvesAt(lib: Library, d0: RealFrame, d1: RealFrame, t0: RealFrame, t1: RealFrame, reg: real, n: nat, k: nat, l: nat)
    requires lib.Valid() && Rect(d0, n, n) && Rect(d1, n, n) && Rect(t0, n, n) && Rect(t1, n, n) && k < n && l < n
    requires Regular(t0, t1, reg, n)
    ensures SolvesAt(lib, ComplexPhase(lib, d0, d1, t0, t1, reg, n), Together(d0, d1, n), t0, t1, reg, n, k, l)
  {
    hide IsPhase, Fft, UnscaledIfft, FilterValue, Add, Mul, Scale, Together, Complexified, Area, Balanced;
    var f := Filtered(Fft(lib, Complexified(d0, n, n), n, n), Fft(lib, Complexified(d1, n, n), n, n), t0, t1, reg, n);
    UnscaledReturns(lib, f, n, k, l);
    SpectraTogether(lib, d0, d1, n, k, l);
    var h := t0[k][l] + t1[k][l];
    assert Transfer(t0, t1, n, k, l) == h;
    FilterTimes(Fft(lib, Complexified(Together(d0, d1, n), n, n), n, n)[k][l], h, reg, Area(n));
    assert f[k][l] == FilterValue(Fft(lib, Complexified(Together(d0, d1, n), n, n), n, n)[k][l], h, reg);
  }

  /** Nothing else does. */
  lemma PhaseSolvesExactly(lib: Library, f: Frame, d0: RealFrame, d1: RealFrame, t0: RealFrame, t1: RealFrame, reg: real, n: nat)
    requires lib.Valid() && 0 < n && Rect(d0, n, n) && Rect(d1, n, n) && Rect(t0, n, n) && Rect(t1, n, n)
    requires Regular(t0, t1, reg, n)
    ensures Solves(lib, f, Together(d0, d1, n), t0, t1, reg, n) <==> f == ComplexPhase(lib, d0, d1, t0, t1, reg, n)
  {
    hide IsPhase, Fft, ComplexPhase, Together, Balanced;
    var x, d := ComplexPhase(lib, d0, d1, t0, t1, reg, n), Together(d0, d1, n);
    PhaseSolves(lib, d0, d1, t0, t1, reg, n);
    if Solves(lib, f, d, t0, t1, reg, n) {
      forall k: nat, l: nat | k < n && l < n ensures Fft(lib, f, n, n)[k][l] == Fft(lib, x, n, n)[k][l] {
        var h := t0[k][l] + t1[k][l];
        assert Transfer(t0, t1, n, k, l) == h;
        assert SolvesAt(lib, f, d, t0, t1, reg, n, k, l) && SolvesAt(lib, x, d, t0, t1, reg, n, k, l);
        BalanceCancels(Fft(lib, f, n, n)[k][l], Fft(lib, x, n, n)[k][l],
                       Fft(lib, Complexified(d, n, n), n, n)[k][l], h, reg, Area(n));
      }
      SameSpectrum(lib, f, x, n, n);
    }
  }

  lemma BalanceCancels(a: Complex, b: Complex, i: Complex, h: real, reg: real, size: real)
    requires h * h + reg != 0.0 && Balanced(a, i, h, reg, size) && Balanced(b, i, h, reg, size)
    ensures a == b
  {
    hide Mul;
    var d := h * h + reg;
    assert d * (a.re - b.re) == 0.0 && d * (a.im - b.im) == 0.0;
    RealNoZeroDivisors(d, a.re - b.re);
    RealNoZeroDivisors(d, a.im - b.im);
  }
}
