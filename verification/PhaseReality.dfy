/** When the quantitative phase image is real: Hermitian spectra, and the symmetry the transfer functions need. */
module PhaseReality {
  import opened Modulo
  import opened Grids
  import opened ComplexField
  import opened Sums
  import opened Fourier
  import opened Dft
  import opened Spectra
  import opened QuantDpcTheory

  /** A real image as the first plane of a two-plane matrix whose second plane is zero. */
  function Complexified(g: RealFrame, h: nat, w: nat): (f: Frame)
    requires Rect(g, h, w)
    ensures Rect(f, h, w)
    ensures forall i, j :: 0 <= i < h && 0 <= j < w ==> f[i][j] == Complex(g[i][j], 0.0)
  {
    seq(h, i requires 0 <= i < h => seq(w, j requires 0 <= j < w => Complex(g[i][j], 0.0)))
  }

  /** The first plane of a complex frame. */
  function RealPart(f: Frame, n: nat): (g: RealFrame)
    requires Rect(f, n, n)
    ensures Rect(g, n, n)
    ensures forall i, j :: 0 <= i < n && 0 <= j < n ==> g[i][j] == f[i][j].re
  {
    seq(n, i requires 0 <= i < n => seq(n, j requires 0 <= j < n => f[i][j].re))
  }

  ghost predicate IsReal(f: Frame, n: nat)
    requires Rect(f, n, n)
  {
    forall i, j :: 0 <= i < n && 0 <= j < n ==> f[i][j].im == 0.0
  }

  /** Opposite frequencies carry conjugate coefficients. */
  ghost predicate Hermitian(f: Frame, n: nat)
    requires Rect(f, n, n)
  {
    forall k, l :: 0 <= k < n && 0 <= l < n ==> f[(-k) % n][(-l) % n] == Conj(f[k][l])
  }

  lemma RealIsSelfConjugate(a: Complex)
    ensures Conj(a) == a <==> a.im == 0.0
    ensures Conj(Conj(a)) == a
  {
  }

  /** The spectrum of a real image is Hermitian. */
  lemma RealToHermitian(lib: Library, g: Frame, n: nat)
    requires lib.Valid() && 0 < n && Rect(g, n, n) && IsReal(g, n)
    ensures Hermitian(Fft(lib, g, n, n), n)
  {
    hide Dft2, IsPhase, IsRoot, Forward, Conj;
    var tw, m, f := Forward(lib.cis, lib.pi, n), AsPlane(g, n, n), Fft(lib, g, n, n);
    ForwardRoot(lib.cis, lib.pi, n);
    forall i, j | 0 <= i < n && 0 <= j < n ensures ConjugatedPlane(m)(i, j) == m(i, j) {
      RealIsSelfConjugate(g[i][j]);
    }
    forall k, l | 0 <= k < n && 0 <= l < n ensures f[(-k) % n][(-l) % n] == Conj(f[k][l]) {
      Dft2Agree(tw, tw, ConjugatedPlane(m), m, n, n, -k, -l);
      Dft2Conjugated(tw, tw, m, n, n, -k, -l);
      assert -(-k) == k && -(-l) == l;
      ModEarly(-k, 0, n);
      ModEarly(-l, 0, n);
      Dft2Periodic(tw, tw, m, n, n, (-k) % n, (-l) % n, -k, -l);
    }
  }

  /** The backward transform of a Hermitian spectrum is real. */
  lemma HermitianToReal(lib: Library, g: Frame, n: nat)
    requires lib.Valid() && 0 < n && Rect(g, n, n) && Hermitian(g, n)
    ensures IsReal(UnscaledIfft(lib, g, n, n), n)
  {
    hide Dft2, IsPhase, IsRoot, Forward, Conj;
    var tw, m := Forward(lib.cis, lib.pi, n), AsPlane(g, n, n);
    var x: Frame := UnscaledIfft(lib, g, n, n);
    ForwardRoot(lib.cis, lib.pi, n);
    forall r, c | 0 <= r < n && 0 <= c < n ensures x[r][c].im == 0.0 {
      Dft2Backward(tw, tw, m, n, n, r, c);
      Dft2Conjugated(tw, tw, m, n, n, r, c);
      Dft2Agree(tw, tw, ConjugatedPlane(m), ReflectedPlane(m, n, n), n, n, r, c);
      Dft2Reflected(tw, tw, m, n, n, r, c);
      RealIsSelfConjugate(x[r][c]);
    }
  }

  /** The backward transform is real exactly when the spectrum is Hermitian. */
  lemma RealExactlyHermitian(lib: Library, g: Frame, n: nat)
    requires lib.Valid() && 0 < n && Rect(g, n, n)
    ensures IsReal(UnscaledIfft(lib, g, n, n), n) <==> Hermitian(g, n)
  {
    hide IsPhase, UnscaledIfft, Fft, Mul;
    if Hermitian(g, n) {
      HermitianToReal(lib, g, n);
    }
    if IsReal(UnscaledIfft(lib, g, n, n), n) {
      var x: Frame := Ifft(lib, g, n, n);
      forall i, j | 0 <= i < n && 0 <= j < n ensures x[i][j].im == 0.0 {
        MulReal(UnscaledIfft(lib, g, n, n)[i][j], 1.0 / (n as real * n as real));
      }
      RealToHermitian(lib, x, n);
      FftUndoesIfft(lib, g, n, n);
    }
  }

  /** The summed transfer function at frequency (k, l). */
  function Transfer(t0: RealFrame, t1: RealFrame, n: nat, k: int, l: int): real
    requires Rect(t0, n, n) && Rect(t1, n, n) && 0 <= k < n && 0 <= l < n
  {
    t0[k][l] + t1[k][l]
  }

  /** No frequency has a vanishing denominator; every positive regularisation is of this kind. */
  ghost predicate Regular(t0: RealFrame, t1: RealFrame, reg: real, n: nat)
    requires Rect(t0, n, n) && Rect(t1, n, n)
  {
    forall k, l :: 0 <= k < n && 0 <= l < n ==> Transfer(t0, t1, n, k, l) * Transfer(t0, t1, n, k, l) + reg != 0.0
  }

  lemma PositiveRegular(t0: RealFrame, t1: RealFrame, reg: real, n: nat)
    requires Rect(t0, n, n) && Rect(t1, n, n) && reg > 0.0
    ensures Regular(t0, t1, reg, n)
  {
    forall k, l | 0 <= k < n && 0 <= l < n
      ensures Transfer(t0, t1, n, k, l) * Transfer(t0, t1, n, k, l) + reg != 0.0
    {
      RegularisedPositive(Transfer(t0, t1, n, k, l), reg);
    }
  }

  /** The filtered spectrum: the sum of two spectra through the sum of two transfer functions. */
  ghost function Filtered(f0: Frame, f1: Frame, t0: RealFrame, t1: RealFrame, reg: real, n: nat): (f: Frame)
    requires Rect(f0, n, n) && Rect(f1, n, n) && Rect(t0, n, n) && Rect(t1, n, n) && Regular(t0, t1, reg, n)
    ensures Rect(f, n, n)
    ensures forall k, l :: 0 <= k < n && 0 <= l < n ==>
      f[k][l] == FilterValue(Add(f0[k][l], f1[k][l]), Transfer(t0, t1, n, k, l), reg)
  {
    seq(n, k requires 0 <= k < n => seq(n, l requires 0 <= l < n =>
      FilterValue(Add(f0[k][l], f1[k][l]), Transfer(t0, t1, n, k, l), reg)))
  }

  /** The complex image behind the phase image of two differential images. */
  ghost function ComplexPhase(lib: Library, d0: RealFrame, d1: RealFrame, t0: RealFrame, t1: RealFrame, reg: real, n: nat)
    : (x: Frame)
    requires Rect(d0, n, n) && Rect(d1, n, n) && Rect(t0, n, n) && Rect(t1, n, n) && Regular(t0, t1, reg, n) && 0 < n
    ensures Rect(x, n, n)
  {
    UnscaledIfft(lib, Filtered(Fft(lib, Complexified(d0, n, n), n, n), Fft(lib, Complexified(d1, n, n), n, n), t0, t1, reg, n), n, n)
  }

  /** The pixelwise sum of two images. */
  function Together(a: RealFrame, b: RealFrame, n: nat): (g: RealFrame)
    requires Rect(a, n, n) && Rect(b, n, n)
    ensures Rect(g, n, n)
    ensures forall i, j :: 0 <= i < n && 0 <= j < n ==> g[i][j] == a[i][j] + b[i][j]
  {
    seq(n, i requires 0 <= i < n => seq(n, j requires 0 <= j < n => a[i][j] + b[i][j]))
  }

  /** The sum of two spectra is the spectrum of the sum. */
  lemma SpectraTogether(lib: Library, d0: RealFrame, d1: RealFrame, n: nat, k: nat, l: nat)
    requires Rect(d0, n, n) && Rect(d1, n, n) && k < n && l < n
    ensures Add(Fft(lib, Complexified(d0, n, n), n, n)[k][l], Fft(lib, Complexified(d1, n, n), n, n)[k][l])
            == Fft(lib, Complexified(Together(d0, d1, n), n, n), n, n)[k][l]
  {
    hide Dft2, Forward;
    var tw := Forward(lib.cis, lib.pi, n);
    var x, y := AsPlane(Complexified(d0, n, n), n, n), AsPlane(Complexified(d1, n, n), n, n);
    Dft2Plus(tw, tw, x, y, n, n, k, l);
    forall i, j | 0 <= i < n && 0 <= j < n
      ensures AsPlane(Complexified(Together(d0, d1, n), n, n), n, n)(i, j) == PlaneSum(x, y)(i, j)
    {
      assert x(i, j) == Complex(d0[i][j], 0.0) && y(i, j) == Complex(d1[i][j], 0.0);
    }
    Dft2Agree(tw, tw, AsPlane(Complexified(Together(d0, d1, n), n, n), n, n), PlaneSum(x, y), n, n, k, l);
  }

  /** The inversion sees its two images and its two transfer functions only through their sums. */
  lemma PhaseOfSums(lib: Library, d0: RealFrame, d1: RealFrame, t0: RealFrame, t1: RealFrame,
                    d0': RealFrame, d1': RealFrame, t0': RealFrame, t1': RealFrame, reg: real, n: nat)
    requires 0 < n && Rect(d0, n, n) && Rect(d1, n, n) && Rect(t0, n, n) && Rect(t1, n, n)
    requires Rect(d0', n, n) && Rect(d1', n, n) && Rect(t0', n, n) && Rect(t1', n, n)
    requires Together(d0, d1, n) == Together(d0', d1', n) && Together(t0, t1, n) == Together(t0', t1', n)
    requires Regular(t0, t1, reg, n)
    ensures Regular(t0', t1', reg, n)
    ensures ComplexPhase(lib, d0, d1, t0, t1, reg, n) == ComplexPhase(lib, d0', d1', t0', t1', reg, n)
  {
    hide Fft, UnscaledIfft, FilterValue, Add;
    forall k, l | 0 <= k < n && 0 <= l < n ensures Transfer(t0, t1, n, k, l) == Transfer(t0', t1', n, k, l) {
      assert Together(t0, t1, n)[k][l] == Together(t0', t1', n)[k][l];
    }
    forall k, l | 0 <= k < n && 0 <= l < n
      ensures Transfer(t0', t1', n, k, l) * Transfer(t0', t1', n, k, l) + reg != 0.0
    {
      assert Transfer(t0, t1, n, k, l) * Transfer(t0, t1, n, k, l) + reg != 0.0;
    }
    SumsFilteredAlike(lib, d0, d1, t0, t1, d0', d1', t0', t1', reg, n);
  }

  lemma SumsFilteredAlike(lib: Library, d0: RealFrame, d1: RealFrame, t0: RealFrame, t1: RealFrame,
                          d0': RealFrame, d1': RealFrame, t0': RealFrame, t1': RealFrame, reg: real, n: nat)
    requires 0 < n && Rect(d0, n, n) && Rect(d1, n, n) && Rect(t0, n, n) && Rect(t1, n, n)
    requires Rect(d0', n, n) && Rect(d1', n, n) && Rect(t0', n, n) && Rect(t1', n, n)
    requires Together(d0, d1, n) == Together(d0', d1', n)
    requires forall k, l :: 0 <= k < n && 0 <= l < n ==> Transfer(t0, t1, n, k, l) == Transfer(t0', t1', n, k, l)
    requires Regular(t0, t1, reg, n) && Regular(t0', t1', reg, n)
    ensures Filtered(Fft(lib, Complexified(d0, n, n), n, n), Fft(lib, Complexified(d1, n, n), n, n), t0, t1, reg, n)
            == Filtered(Fft(lib, Complexified(d0', n, n), n, n), Fft(lib, Complexified(d1', n, n), n, n), t0', t1', reg, n)
  {
    hide Fft, FilterValue, Add, Transfer, Regular;
    var f := Filtered(Fft(lib, Complexified(d0, n, n), n, n), Fft(lib, Complexified(d1, n, n), n, n), t0, t1, reg, n);
    var f' := Filtered(Fft(lib, Complexified(d0', n, n), n, n), Fft(lib, Complexified(d1', n, n), n, n), t0', t1', reg, n);
    forall k, l | 0 <= k < n && 0 <= l < n ensures f[k][l] == f'[k][l] {
      SpectraTogether(lib, d0, d1, n, k, l);
      SpectraTogether(lib, d0', d1', n, k, l);
    }
    GridEqual(f, f', n, n);
  }

  /** The gains at a frequency and at its opposite are each other's negatives. */
  predicate OddPair(h: real, h': real, reg: real) { h' == -h || h * h' == -reg }

  /** Filtering respects conjugation exactly on such pairs. */
  lemma OddPairFilters(i: Complex, h: real, h': real, reg: real)
    requires reg > 0.0
    ensures h * h + reg != 0.0 && h' * h' + reg != 0.0
    ensures OddPair(h, h', reg) ==> FilterValue(Conj(i), h', reg) == Conj(FilterValue(i, h, reg))
    ensures FilterValue(ONE, h', reg) == Conj(FilterValue(ONE, h, reg)) ==> OddPair(h, h', reg)
  {
    RegularisedPositive(h, reg);
    RegularisedPositive(h', reg);
    FilterGain(i, h, reg);
    FilterGain(Conj(i), h', reg);
    FilterGain(ONE, h, reg);
    FilterGain(ONE, h', reg);
    GainsOpposite(h, h', reg);
    hide FilterValue;
    var g, g' := h / (h * h + reg), h' / (h' * h' + reg);
    if OddPair(h, h', reg) {
      assert g' == -g;
      assert Conj(FilterValue(i, h, reg)) == Complex(g * i.im, g * i.re);
      assert FilterValue(Conj(i), h', reg) == Complex(g' * -i.im, -(g' * i.re));
    }
  }

  lemma FilterGain(i: Complex, h: real, reg: real)
    requires h * h + reg != 0.0
    ensures FilterValue(i, h, reg) == Complex(h / (h * h + reg) * i.im, -(h / (h * h + reg) * i.re))
  {
    var z, d := Mul(i, Complex(0.0, -h)), h * h + reg;
    assert z == Complex(i.im * h, -(i.re * h));
    hide Mul;
    GainOver(i.im, h, d);
    GainOver(i.re, h, d);
  }

  lemma GainOver(x: real, h: real, d: real)
    requires d != 0.0
    ensures (x * h) / d == h / d * x
    ensures -(x * h) / d == -(h / d * x)
  {
  }

  lemma GainsOpposite(h: real, h': real, reg: real)
    requires h * h + reg > 0.0 && h' * h' + reg > 0.0
    ensures h' / (h' * h' + reg) == -(h / (h * h + reg)) <==> OddPair(h, h', reg)
  {
    var d, d' := h * h + reg, h' * h' + reg;
    assert h' * d + h * d' == (h + h') * (h * h' + reg);
    CrossMultiply(h, d, h', d');
    if (h + h') * (h * h' + reg) == 0.0 {
      RealNoZeroDivisors(h + h', h * h' + reg);
    }
  }

  lemma CrossMultiply(a: real, d: real, b: real, e: real)
    requires d > 0.0 && e > 0.0
    ensures b / e == -(a / d) <==> b * d + a * e == 0.0
  {
    var x, y := a / d, b / e;
    assert x * d == a && y * e == b;
    assert b * d + a * e == (y + x) * (d * e);
    assert d * e > 0.0;
    if (y + x) * (d * e) == 0.0 {
      RealNoZeroDivisors(y + x, d * e);
    }
  }

  predicate OddAt(t0: RealFrame, t1: RealFrame, reg: real, n: nat, k: int, l: int)
    requires Rect(t0, n, n) && Rect(t1, n, n) && 0 <= k < n && 0 <= l < n
  {
    OddPair(Transfer(t0, t1, n, k, l), Transfer(t0, t1, n, (-k) % n, (-l) % n), reg)
  }

  /** The transfer functions of opposite frequencies pair up. */
  ghost predicate OddTransfer(t0: RealFrame, t1: RealFrame, reg: real, n: nat)
    requires Rect(t0, n, n) && Rect(t1, n, n) && 0 < n
  {
    forall k, l :: 0 <= k < n && 0 <= l < n ==> OddAt(t0, t1, reg, n, k, l)
  }

  /** Real images and paired transfer functions give a real phase image: dropping its second plane loses nothing. */
  lemma PhaseIsReal(lib: Library, d0: RealFrame, d1: RealFrame, t0: RealFrame, t1: RealFrame, reg: real, n: nat)
    requires lib.Valid() && 0 < n && reg > 0.0
    requires Rect(d0, n, n) && Rect(d1, n, n) && Rect(t0, n, n) && Rect(t1, n, n)
    requires OddTransfer(t0, t1, reg, n)
    ensures Regular(t0, t1, reg, n)
    ensures IsReal(ComplexPhase(lib, d0, d1, t0, t1, reg, n), n)
  {
    hide IsPhase, FilterValue, Fft, UnscaledIfft, OddPair, Add, Conj, Transfer;
    PositiveRegular(t0, t1, reg, n);
    var f0, f1 := Fft(lib, Complexified(d0, n, n), n, n), Fft(lib, Complexified(d1, n, n), n, n);
    RealToHermitian(lib, Complexified(d0, n, n), n);
    RealToHermitian(lib, Complexified(d1, n, n), n);
    var f := Filtered(f0, f1, t0, t1, reg, n);
    forall k, l | 0 <= k < n && 0 <= l < n ensures f[(-k) % n][(-l) % n] == Conj(f[k][l]) {
      ConjAdd(f0[k][l], f1[k][l]);
      assert OddAt(t0, t1, reg, n, k, l);
      OddPairFilters(Add(f0[k][l], f1[k][l]), Transfer(t0, t1, n, k, l), Transfer(t0, t1, n, (-k) % n, (-l) % n), reg);
    }
    HermitianToReal(lib, f, n);
  }

  lemma ConjAdd(a: Complex, b: Complex)
    ensures Conj(Add(a, b)) == Add(Conj(a), Conj(b))
  {
  }

  /** An image that is one at its top left pixel when `one` holds, and zero otherwise. */
  function Dot(one: bool, n: nat): (g: RealFrame)
    ensures Rect(g, n, n)
    ensures forall i, j :: 0 <= i < n && 0 <= j < n ==> g[i][j] == if one && i == 0 && j == 0 then 1.0 else 0.0
  {
    seq(n, i => seq(n, j => if one && i == 0 && j == 0 then 1.0 else 0.0))
  }

  lemma DotSpectrum(lib: Library, one: bool, n: nat, k: nat, l: nat)
    requires lib.Valid() && k < n && l < n
    ensures Fft(lib, Complexified(Dot(one, n), n, n), n, n)[k][l] == if one then ONE else ZERO
  {
    hide IsPhase, IsRoot, Dft2, Forward;
    ForwardRoot(lib.cis, lib.pi, n);
    var tw, m := Forward(lib.cis, lib.pi, n), AsPlane(Complexified(Dot(one, n), n, n), n, n);
    Dft2Single(tw, tw, m, n, n, k, l);
  }

  /** An image without negative values and with a positive one has a positive coefficient at frequency zero. */
  lemma BrightCoefficient(lib: Library, d: RealFrame, n: nat, i: nat, j: nat)
    requires lib.Valid() && Rect(d, n, n) && i < n && j < n && d[i][j] > 0.0
    requires forall r, c :: 0 <= r < n && 0 <= c < n ==> d[r][c] >= 0.0
    ensures Fft(lib, Complexified(d, n, n), n, n)[0][0].im == 0.0 && Fft(lib, Complexified(d, n, n), n, n)[0][0].re > 0.0
  {
    hide IsPhase, IsRoot, Dft2, Forward;
    var tw, m := Forward(lib.cis, lib.pi, n), AsPlane(Complexified(d, n, n), n, n);
    ForwardRoot(lib.cis, lib.pi, n);
    Dft2Zero(tw, tw, m, n, n);
    forall r | 0 <= r < n
      ensures RowSums(m, n)(r).im == 0.0 && RowSums(m, n)(r).re >= 0.0
      ensures r == i ==> RowSums(m, n)(r).re >= d[i][j]
    {
      SumReal(RowOf(m, r), n);
      if r == i {
        assert Sum(RowOf(m, i), n).re >= RowOf(m, i)(j).re;
      }
    }
    SumReal(RowSums(m, n), n);
    assert Sum(RowSums(m, n), n).re >= RowSums(m, n)(i).re;
  }

  /** The phase image is real for all pairs of images exactly when the transfer functions pair up. */
  lemma PhaseIsRealExactly(lib: Library, t0: RealFrame, t1: RealFrame, reg: real, n: nat)
    requires lib.Valid() && 0 < n && reg > 0.0 && Rect(t0, n, n) && Rect(t1, n, n)
    ensures Regular(t0, t1, reg, n)
    ensures (forall d0: RealFrame, d1: RealFrame | Rect(d0, n, n) && Rect(d1, n, n) ::
               IsReal(ComplexPhase(lib, d0, d1, t0, t1, reg, n), n))
            <==> OddTransfer(t0, t1, reg, n)
  {
    hide IsPhase, ComplexPhase, IsReal;
    PositiveRegular(t0, t1, reg, n);
    if OddTransfer(t0, t1, reg, n) {
      forall d0: RealFrame, d1: RealFrame | Rect(d0, n, n) && Rect(d1, n, n)
        ensures IsReal(ComplexPhase(lib, d0, d1, t0, t1, reg, n), n)
      {
        PhaseIsReal(lib, d0, d1, t0, t1, reg, n);
      }
    }
    if IsReal(ComplexPhase(lib, Dot(true, n), Dot(false, n), t0, t1, reg, n), n) {
      DotDetects(lib, t0, t1, reg, n);
    }
  }

  /** The dot image alone detects transfer functions that do not pair up. */
  lemma DotDetects(lib: Library, t0: RealFrame, t1: RealFrame, reg: real, n: nat)
    requires lib.Valid() && 0 < n && reg > 0.0 && Rect(t0, n, n) && Rect(t1, n, n) && Regular(t0, t1, reg, n)
    requires IsReal(ComplexPhase(lib, Dot(true, n), Dot(false, n), t0, t1, reg, n), n)
    ensures OddTransfer(t0, t1, reg, n)
  {
    hide IsPhase, Fft, UnscaledIfft, FilterValue, OddPair, Transfer, IsReal, Conj, Add;
    var f0, f1 := Fft(lib, Complexified(Dot(true, n), n, n), n, n), Fft(lib, Complexified(Dot(false, n), n, n), n, n);
    var f := Filtered(f0, f1, t0, t1, reg, n);
    RealExactlyHermitian(lib, f, n);
    AddOneZero();
    forall k, l | 0 <= k < n && 0 <= l < n
      ensures OddAt(t0, t1, reg, n, k, l)
    {
      var k', l' := (-k) % n, (-l) % n;
      DotSpectrum(lib, true, n, k, l);
      DotSpectrum(lib, false, n, k, l);
      DotSpectrum(lib, true, n, k', l');
      DotSpectrum(lib, false, n, k', l');
      assert f[k'][l'] == Conj(f[k][l]);
      OddPairFilters(ONE, Transfer(t0, t1, n, k, l), Transfer(t0, t1, n, k', l'), reg);
    }
  }

  lemma AddOneZero()
    ensures Add(ONE, ZERO) == ONE
  {
  }
}
