/** The spectrum vector of jni_illparameter.cpp: the shifted spectrum of an image, packed into one column. */
module FftVector {
  import opened Modulo
  import opened Grids
  import opened CircularShifts
  import opened ComplexField
  import opened Fourier
  import opened Dft
  import opened Spectra
  import opened Fresnel
  import opened QuantDpcTheory
  import opened PhaseReality
  import opened PlaneWaves

  /** The image placed in both planes of a complex matrix. */
  function Doubled(g: RealFrame, h: nat, w: nat): (f: Frame)
    requires Rect(g, h, w)
    ensures Rect(f, h, w)
    ensures forall i, j :: 0 <= i < h && 0 <= j < w ==> f[i][j] == Complex(g[i][j], g[i][j])
  {
    seq(h, i requires 0 <= i < h => seq(w, j requires 0 <= j < w => Complex(g[i][j], g[i][j])))
  }

  /** The entry of a packed vector at flat position k of a plane of width w. */
  function Flat(f: Frame, h: nat, w: nat, k: nat): Complex
    requires Rect(f, h, w) && 0 < w && k < h * w
  {
    FlatInside(h, w, k);
    f[k / w][k % w]
  }

  lemma FlatInside(h: nat, w: nat, k: nat)
    requires 0 < w && k < h * w
    ensures k / w < h && k % w < w
  {
    assert k == (k / w) * w + k % w;
    RowsOrdered(h, k / w, w);
  }

  lemma RowsOrdered(h: nat, q: nat, w: nat)
    ensures h <= q ==> h * w <= q * w
  {
    assert h <= q ==> (q - h) * w >= 0;
    assert (q - h) * w == q * w - h * w;
  }

  lemma FlatIndex(h: nat, w: nat, r: nat, c: nat)
    requires r < h && c < w
    ensures r * w + c < h * w && (r * w + c) / w == r && (r * w + c) % w == c
  {
    RowFits(h, w, r);
    DivModUnique(r * w + c, w, r, c);
  }

  lemma RowFits(h: nat, w: nat, r: nat)
    requires r < h
    ensures r * w + w <= h * w
  {
    var m := h - 1 - r;
    assert m * w >= 0;
    assert h == m + 1 + r;
    assert (m + 1 + r) * w == m * w + w + r * w;
  }

  /** All real parts row by row, then all imaginary parts row by row. */
  function Packed(f: Frame, h: nat, w: nat): (v: seq<real>)
    requires Rect(f, h, w) && 0 < w
    ensures |v| == h * w + h * w
  {
    var size := h * w;
    seq(size, k requires 0 <= k < size => Flat(f, h, w, k).re) + seq(size, k requires 0 <= k < size => Flat(f, h, w, k).im)
  }

  /** The frame whose parts a vector lists. */
  function Unpacked(v: seq<real>, h: nat, w: nat): (f: Frame)
    requires |v| == h * w + h * w && 0 < w
    ensures Rect(f, h, w)
  {
    seq(h, i requires 0 <= i < h => seq(w, j requires 0 <= j < w =>
      FlatIndex(h, w, i, j);
      Complex(v[i * w + j], v[h * w + (i * w + j)])))
  }

  /** Entry (r, c) of the spectrum is found at r w + c and, for its imaginary part, h w entries further. */
  lemma PackedEntry(f: Frame, h: nat, w: nat, r: nat, c: nat)
    requires Rect(f, h, w) && r < h && c < w
    ensures r * w + c < h * w
    ensures Packed(f, h, w)[r * w + c] == f[r][c].re
    ensures Packed(f, h, w)[h * w + (r * w + c)] == f[r][c].im
  {
    FlatIndex(h, w, r, c);
    assert Flat(f, h, w, r * w + c) == f[r][c];
  }

  /** Packing loses nothing. */
  lemma UnpackedPacked(f: Frame, h: nat, w: nat)
    requires Rect(f, h, w) && 0 < w
    ensures Unpacked(Packed(f, h, w), h, w) == f
  {
    var u: Frame := Unpacked(Packed(f, h, w), h, w);
    forall i, j | 0 <= i < h && 0 <= j < w ensures u[i][j] == f[i][j] {
      PackedEntry(f, h, w, i, j);
    }
    GridEqual(u, f, h, w);
  }

  /** The packed planes are the difference and the sum of the parts of the image's own spectrum. */
  lemma DoubledSpectrum(lib: Library, g: RealFrame, h: nat, w: nat, k: nat, l: nat)
    requires Rect(g, h, w) && k < h && l < w
    ensures var x: Complex := Fft(lib, Complexified(g, h, w), h, w)[k][l];
      Fft(lib, Doubled(g, h, w), h, w)[k][l] == Complex(x.re - x.im, x.re + x.im)
  {
    var unit := Complex(1.0, 1.0);
    var tr, tc, m := Forward(lib.cis, lib.pi, h), Forward(lib.cis, lib.pi, w), AsPlane(Complexified(g, h, w), h, w);
    forall i, j | 0 <= i < h && 0 <= j < w
      ensures AsPlane(Doubled(g, h, w), h, w)(i, j) == ScaledPlane(unit, m)(i, j)
    {
      TimesUnit(Complex(g[i][j], 0.0));
    }
    hide Dft2, Forward, Mul;
    Dft2Agree(tr, tc, AsPlane(Doubled(g, h, w), h, w), ScaledPlane(unit, m), h, w, k, l);
    Dft2Scaled(tr, tc, unit, m, h, w, k, l);
    TimesUnit(Dft2(tr, tc, m, h, w, k, l));
  }

  lemma TimesUnit(a: Complex)
    ensures Mul(Complex(1.0, 1.0), a) == Complex(a.re - a.im, a.re + a.im)
  {
  }

  /** The shifted spectrum of an image padded by zeros to m by n. */
  function ShiftedSpectrum(lib: Library, g: RealFrame, h: nat, w: nat, m: nat, n: nat): (f: Frame)
    requires Rect(g, h, w) && 0 < h <= m && 0 < w <= n
    ensures Rect(f, m, n)
  {
    FftShifted(Fft(lib, Padded(Doubled(g, h, w), h, w, m, n), m, n), m, n)
  }

  /** The padded pair of planes is the padded image times 1 + i. */
  lemma PaddedDoubled(g: RealFrame, h: nat, w: nat, m: nat, n: nat)
    requires Rect(g, h, w) && h <= m && w <= n
    ensures Padded(Doubled(g, h, w), h, w, m, n)
            == Times(Complex(1.0, 1.0), Padded(Complexified(g, h, w), h, w, m, n), m, n)
  {
    var x, y: Frame := Padded(Doubled(g, h, w), h, w, m, n),
      Times(Complex(1.0, 1.0), Padded(Complexified(g, h, w), h, w, m, n), m, n);
    forall i, j | 0 <= i < m && 0 <= j < n ensures x[i][j] == y[i][j] {
      TimesUnit(Padded(Complexified(g, h, w), h, w, m, n)[i][j]);
    }
    GridEqual(x, y, m, n);
  }

  /** Where the vector holds frequency (k, l) of the padded image: half a frame further, rounded up, the difference
      of its parts in the first half and their sum in the second. */
  lemma VectorEntry(lib: Library, g: RealFrame, h: nat, w: nat, m: nat, n: nat, k: nat, l: nat)
    requires Rect(g, h, w) && 0 < h <= m && 0 < w <= n && k < m && l < n
    ensures var v := Packed(ShiftedSpectrum(lib, g, h, w, m, n), m, n);
      var x := Fft(lib, Padded(Complexified(g, h, w), h, w, m, n), m, n)[k][l];
      var at := (k + (m + 1) / 2) % m * n + (l + (n + 1) / 2) % n;
      0 <= at < m * n && v[at] == x.re - x.im && v[m * n + at] == x.re + x.im
  {
    hide Fft, Packed, FftShifted, Doubled, Complexified;
    PaddedCoefficient(lib, g, h, w, m, n, k, l);
    ShiftedEntry(Fft(lib, Padded(Doubled(g, h, w), h, w, m, n), m, n), m, n, k, l);
  }

  lemma PaddedCoefficient(lib: Library, g: RealFrame, h: nat, w: nat, m: nat, n: nat, k: nat, l: nat)
    requires Rect(g, h, w) && h <= m && w <= n && k < m && l < n
    ensures var x := Fft(lib, Padded(Complexified(g, h, w), h, w, m, n), m, n)[k][l];
      Fft(lib, Padded(Doubled(g, h, w), h, w, m, n), m, n)[k][l] == Complex(x.re - x.im, x.re + x.im)
  {
    hide Fft, Mul, Padded;
    PaddedDoubled(g, h, w, m, n);
    var f := Padded(Complexified(g, h, w), h, w, m, n);
    TimesSpectrum(lib, Complex(1.0, 1.0), f, m, n, k, l);
    TimesUnit(Fft(lib, f, m, n)[k][l]);
  }

  lemma ShiftedEntry(s: Frame, m: nat, n: nat, k: nat, l: nat)
    requires Rect(s, m, n) && k < m && l < n
    ensures var v := Packed(FftShifted(s, m, n), m, n);
      var at := (k + (m + 1) / 2) % m * n + (l + (n + 1) / 2) % n;
      0 <= at < m * n && v[at] == s[k][l].re && v[m * n + at] == s[k][l].im
  {
    hide Packed, FftShifted;
    var i, j := (k + (m + 1) / 2) % m, (l + (n + 1) / 2) % n;
    ShiftedAt(s, m, n, k, l, i, j);
    PackedEntry(FftShifted(s, m, n), m, n, i, j);
    NextPlane(m, n, i, j);
  }

  lemma NextPlane(m: nat, n: nat, i: nat, j: nat)
    requires i < m && j < n
    ensures 0 <= i * n + j < m * n
  {
    FlatIndex(m, n, i, j);
  }

  lemma ShiftedAt(s: Frame, m: nat, n: nat, k: nat, l: nat, i: int, j: int)
    requires Rect(s, m, n) && k < m && l < n && i == (k + (m + 1) / 2) % m && j == (l + (n + 1) / 2) % n
    ensures 0 <= i < m && 0 <= j < n && FftShifted(s, m, n)[i][j] == s[k][l]
  {
    hide Rotate;
    RotateLands(s, m, n, CeilHalf(m), CeilHalf(n), k, l);
  }

  /** The frame read back from a vector: unpack, undo the shift, transform back. */
  function Recovered(lib: Library, v: seq<real>, m: nat, n: nat): (f: Frame)
    requires |v| == m * n + m * n && 0 < m && 0 < n
    ensures Rect(f, m, n)
  {
    Ifft(lib, IfftShifted(Unpacked(v, m, n), m, n), m, n)
  }

  /** The first plane of the top left corner of a frame. */
  function Corner(f: Frame, m: nat, n: nat, h: nat, w: nat): (g: RealFrame)
    requires Rect(f, m, n) && h <= m && w <= n
    ensures Rect(g, h, w)
  {
    seq(h, i requires 0 <= i < h => seq(w, j requires 0 <= j < w => f[i][j].re))
  }

  /** Before its logarithm is taken, the vector determines the image: reading it back gives the padded
      pair of planes, in whose corner the image stands. */
  lemma VectorDeterminesImage(lib: Library, g: RealFrame, h: nat, w: nat, m: nat, n: nat)
    requires lib.Valid() && Rect(g, h, w) && 0 < h <= m && 0 < w <= n
    ensures var v := Packed(ShiftedSpectrum(lib, g, h, w, m, n), m, n);
      Recovered(lib, v, m, n) == Padded(Doubled(g, h, w), h, w, m, n) &&
      Corner(Recovered(lib, v, m, n), m, n, h, w) == g
  {
    hide Fft, Ifft, IsPhase, Packed, Unpacked, FftShifted, IfftShifted;
    var padded := Padded(Doubled(g, h, w), h, w, m, n);
    UnpackedPacked(ShiftedSpectrum(lib, g, h, w, m, n), m, n);
    ShiftsInvert(Fft(lib, padded, m, n), m, n);
    IfftUndoesFft(lib, padded, m, n);
    GridEqual(Corner(padded, m, n, h, w), g, h, w);
  }

  /** The vector of an image, up to the logarithm. It fails exactly when padding leaves the spectrum not square. */
  method GetFFTVector(lib: Library, img: array2<real>) returns (ok: bool, vec: seq<real>)
    requires lib.Valid() && 0 < img.Length0 && 0 < img.Length1
    ensures ok <==> lib.optimalSize(img.Length0) == lib.optimalSize(img.Length1)
    ensures ok ==> var m := lib.optimalSize(img.Length0);
      vec == Packed(ShiftedSpectrum(lib, View(img), img.Length0, img.Length1, m, m), m, m)
  {
    hide IsPhase, Fft, FftShifted, Packed;
    var h, w := img.Length0, img.Length1;
    var complexImg := new Mat<Complex>(0, 0);
    complexImg.data := new Complex[h, w]((i, j) requires 0 <= i < h && 0 <= j < w reads img =>
      Complex(img[i, j], img[i, j]));
    GridEqual(View(complexImg.data), Doubled(View(img), h, w), h, w);
    var spectrum := new Mat<Complex>(0, 0);
    Fft2(lib, complexImg, spectrum);
    ok := FftShift(spectrum, spectrum);
    vec := Packed(View(spectrum.data), spectrum.data.Length0, spectrum.data.Length1);
  }
}
