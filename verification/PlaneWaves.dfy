/** Plane waves: what fixes the direction of the transforms and the frequencies of Fresnel propagation. */
module PlaneWaves {
  import opened Modulo
  import opened Grids
  import opened ComplexField
  import opened Sums
  import opened Fourier
  import opened Dft
  import opened Spectra
  import opened CircularShifts
  import opened FresnelTheory

  /** The phase of the wave with p periods down and q periods across an h by w frame. */
  function WaveAngle(pi: real, p: int, q: int, h: nat, w: nat, r: int, c: int): real
    requires 0 < h && 0 < w
  {
    2.0 * pi * ((p * r) as real / h as real + (q * c) as real / w as real)
  }

  /** The plane wave exp(2 pi i (p r / h + q c / w)). */
  function Wave(lib: Library, p: int, q: int, h: nat, w: nat): (g: Frame)
    requires 0 < h && 0 < w
    ensures Rect(g, h, w)
    ensures forall r, c :: 0 <= r < h && 0 <= c < w ==> g[r][c] == lib.cis(WaveAngle(lib.pi, p, q, h, w, r, c))
  {
    seq(h, r => seq(w, c => lib.cis(WaveAngle(lib.pi, p, q, h, w, r, c))))
  }

  /** The frame with a value at one pixel and zero elsewhere. */
  function Marked(a: Complex, p: int, q: int, h: nat, w: nat): (g: Frame)
    ensures Rect(g, h, w)
    ensures forall r, c :: 0 <= r < h && 0 <= c < w ==> g[r][c] == if r == p && c == q then a else ZERO
  {
    seq(h, r => seq(w, c => if r == p && c == q then a else ZERO))
  }

  /** A wave as a product of powers of the roots of the forward transform. */
  lemma WaveFactors(lib: Library, p: int, q: int, h: nat, w: nat, r: int, c: int)
    requires lib.Valid() && 0 < h && 0 < w
    ensures lib.cis(WaveAngle(lib.pi, p, q, h, w, r, c))
            == Mul(Forward(lib.cis, lib.pi, h)(-(r * p)), Forward(lib.cis, lib.pi, w)(-(c * q)))
  {
    hide Mul, Norm2;
    var a, b := Angle(lib.pi, h, -(r * p)), Angle(lib.pi, w, -(c * q));
    var x, y := (p * r) as real / h as real, (q * c) as real / w as real;
    AngleOfPart(lib.pi, p, h, r, x);
    AngleOfPart(lib.pi, q, w, c, y);
    WaveParts(lib.pi, x, y);
    hide Angle;
    assert WaveAngle(lib.pi, p, q, h, w, r, c) == a + b;
    assert Cue(a, b);
  }

  lemma WaveParts(pi: real, x: real, y: real)
    ensures 2.0 * pi * (x + y) == 2.0 * pi * x + 2.0 * pi * y
  {
  }

  lemma AngleOfPart(pi: real, p: int, n: nat, r: int, x: real)
    requires 0 < n && x == (p * r) as real / n as real
    ensures Angle(pi, n, -(r * p)) == 2.0 * pi * x
  {
    assert -(r * p) == -(p * r);
    TurnedFraction(pi, (p * r) as real, n as real, x);
  }

  lemma TurnedFraction(pi: real, m: real, n: real, x: real)
    requires n != 0.0 && x == m / n
    ensures -2.0 * pi / n * -m == 2.0 * pi * x
  {
    var u, t := 1.0 / n, 2.0 * pi;
    assert -2.0 * pi / n == -t * u && m / n == m * u;
  }

  /** The transform of a character has its one coefficient at the character's frequency. */
  lemma DftCharacter(tw: Signal, n: nat, p: int, k: int)
    requires IsRoot(tw, n)
    ensures Dft1(tw, Character(tw, -p), n, k) == if (k - p) % n == 0 then Complex(n as real, 0.0) else ZERO
  {
    hide Mul, Norm2;
    var e, x := Product(Character(tw, k), Character(tw, -p)), Character(tw, k - p);
    forall j | 0 <= j < n ensures e(j) == x(j) {
      assert IntCue(j * k, j * -p);
      assert j * k + j * -p == j * (k - p);
    }
    SumAgree(e, x, n);
    CharacterSum(tw, n, k - p);
  }

  function ProductPlane(f: Signal, g: Signal): Plane { (r, c) => Mul(f(r), g(c)) }

  /** The transform of a product of two signals is the product of their transforms. */
  lemma Dft2Product(tr: Signal, tc: Signal, f: Signal, g: Signal, h: nat, w: nat, k: int, l: int)
    ensures Dft2(tr, tc, ProductPlane(f, g), h, w, k, l) == Mul(Dft1(tr, f, h, k), Dft1(tc, g, w, l))
  {
    hide Dft1, Mul;
    var d := Dft1(tc, g, w, l);
    var rows := TransformedRows(tc, ProductPlane(f, g), w, l);
    forall r | 0 <= r < h ensures rows(r) == Scaled(d, f)(r) {
      DftAgree(tc, RowOf(ProductPlane(f, g), r), Scaled(f(r), g), w, l);
      DftScaled(tc, f(r), g, w, l);
      MulCommutes(f(r), d);
    }
    DftAgree(tr, rows, Scaled(d, f), h, k);
    DftScaled(tr, d, f, h, k);
    MulCommutes(Dft1(tr, f, h, k), d);
  }

  lemma SizeProduct(h: nat, w: nat)
    ensures Mul(Complex(h as real, 0.0), Complex(w as real, 0.0)) == Complex(h as real * w as real, 0.0)
    ensures Mul(Complex(h as real, 0.0), ZERO) == Mul(ZERO, Complex(w as real, 0.0)) == Mul(ZERO, ZERO) == ZERO
  {
  }

  /** The forward transform of a plane wave is h w at the wave's own frequency and zero elsewhere. */
  lemma WaveSpectrum(lib: Library, p: int, q: int, h: nat, w: nat)
    requires lib.Valid() && 0 < h && 0 < w
    ensures Fft(lib, Wave(lib, p, q, h, w), h, w) == Marked(Complex(h as real * w as real, 0.0), p % h, q % w, h, w)
  {
    hide Dft1, Dft2, Mul, IsPhase, IsRoot, Forward, WaveAngle;
    var tr, tc := Forward(lib.cis, lib.pi, h), Forward(lib.cis, lib.pi, w);
    ForwardRoot(lib.cis, lib.pi, h);
    ForwardRoot(lib.cis, lib.pi, w);
    var m := AsPlane(Wave(lib, p, q, h, w), h, w);
    var e := ProductPlane(Character(tr, -p), Character(tc, -q));
    forall r, c | 0 <= r < h && 0 <= c < w ensures m(r, c) == e(r, c) {
      WaveFactors(lib, p, q, h, w, r, c);
      assert -(r * p) == r * -p && -(c * q) == c * -q;
    }
    var f, want: Frame := Fft(lib, Wave(lib, p, q, h, w), h, w), Marked(Complex(h as real * w as real, 0.0), p % h, q % w, h, w);
    forall k, l | 0 <= k < h && 0 <= l < w ensures f[k][l] == want[k][l] {
      Dft2Agree(tr, tc, m, e, h, w, k, l);
      Dft2Product(tr, tc, Character(tr, -p), Character(tc, -q), h, w, k, l);
      DftCharacter(tr, h, p, k);
      DftCharacter(tc, w, q, l);
      OwnFrequency(k, p, h);
      OwnFrequency(l, q, w);
      SizeProduct(h, w);
    }
    GridEqual(f, want, h, w);
  }

  lemma OwnFrequency(k: int, p: int, n: nat)
    requires 0 <= k < n
    ensures (k - p) % n == 0 <==> k == p % n
  {
    ModDifference(k, p, n);
    DivModUnique(k, n, 0, k);
  }

  lemma DftAt(tw: Signal, f: Signal, n: nat, p: int, k: int)
    requires 0 <= p < n && forall j :: 0 <= j < n && j != p ==> f(j) == ZERO
    ensures Dft1(tw, f, n, k) == Mul(tw(p * k), f(p))
  {
    var e := Product(Character(tw, k), f);
    forall j | 0 <= j < n && j != p ensures e(j) == ZERO {
      MulReal(tw(j * k), 0.0);
    }
    SumSingle(e, n, p);
  }

  /** The unscaled backward transform of a single coefficient is the plane wave of its frequency. */
  lemma MarkTransformsBack(lib: Library, p: nat, q: nat, h: nat, w: nat)
    requires lib.Valid() && p < h && q < w
    ensures UnscaledIfft(lib, Marked(ONE, p, q, h, w), h, w) == Wave(lib, p, q, h, w)
  {
    hide Dft1, Mul, IsPhase, Forward, WaveAngle;
    var tr, tc := Forward(lib.cis, lib.pi, h), Forward(lib.cis, lib.pi, w);
    var m := AsPlane(Marked(ONE, p, q, h, w), h, w);
    var u, want: Frame := UnscaledIfft(lib, Marked(ONE, p, q, h, w), h, w), Wave(lib, p, q, h, w);
    forall r, c | 0 <= r < h && 0 <= c < w ensures u[r][c] == want[r][c] {
      WaveFactors(lib, p, q, h, w, r, c);
      MarkedPlane(Backward(tr), Backward(tc), m, h, w, p, q, r, c);
      assert -(p * r) == -(r * p) && -(q * c) == -(c * q);
    }
    GridEqual(u, want, h, w);
  }

  lemma MarkedPlane(tr: Signal, tc: Signal, m: Plane, h: nat, w: nat, p: nat, q: nat, k: int, l: int)
    requires p < h && q < w && m(p, q) == ONE
    requires forall i, j :: 0 <= i < h && 0 <= j < w && (i != p || j != q) ==> m(i, j) == ZERO
    ensures Dft2(tr, tc, m, h, w, k, l) == Mul(tr(p * k), tc(q * l))
  {
    hide Dft1, Mul;
    var rows := TransformedRows(tc, m, w, l);
    forall r | 0 <= r < h ensures rows(r) == if r == p then tc(q * l) else ZERO {
      DftAt(tc, RowOf(m, r), w, q, l);
      TimesConstants(tc(q * l));
    }
    DftAt(tr, rows, h, p, k);
  }

  lemma TimesConstants(a: Complex)
    ensures Mul(a, ONE) == a && Mul(a, ZERO) == ZERO
  {
  }

  // ---- propagation

  /** The frequency in periods per frame for which index k of a spectrum stands. */
  function SignedIndex(k: int, n: nat): int { if 2 * k < n then k else k - n }

  /** The phase pi z (2 / lambda - lambda f f) that a wave of a periods down and b periods across an h by w frame
      gains over z: f f is the sum of the squares of a / (h pixel) and b / (w pixel). */
  function ParaxialAngle(pi: real, s: Setup, z: real, h: nat, w: nat, a: int, b: int): real
    requires Usable(s) && 0 < h && 0 < w
  {
    LengthNotZero(h, s.pixel);
    LengthNotZero(w, s.pixel);
    var x, y := a as real / (h as real * s.pixel), b as real / (w as real * s.pixel);
    pi * z * (2.0 / s.lambda - s.lambda * (x * x + y * y))
  }

  /** Every entry of a kernel is the phase of the frequency as far from its centre. */
  lemma KernelEntry(lib: Library, s: Setup, h: nat, w: nat, z: real, i: nat, j: nat)
    requires lib.Valid() && Usable(s) && i < h && j < w
    ensures Kernels(lib, s, h, w, z)[i][j] == lib.cis(ParaxialAngle(lib.pi, s, z, h, w, i - h / 2, j - w / 2))
  {
    hide IsPhase, KernelValue, Conj, DispersionAngle, ParaxialAngle, SquaredFrequency;
    var q := SquaredFrequency(i, j, h, w, s.pixel);
    KernelPhase(lib, s, z, q);
    EntrySquares(lib.pi, s, z, h, w, i, j, q);
  }

  lemma EntrySquares(pi: real, s: Setup, z: real, h: nat, w: nat, i: int, j: int, q: real)
    requires Usable(s) && 0 < h && 0 < w && q == SquaredFrequency(i, j, h, w, s.pixel)
    ensures DispersionAngle(pi, s, z, q) == ParaxialAngle(pi, s, z, h, w, i - h / 2, j - w / 2)
  {
    LengthNotZero(h, s.pixel);
    LengthNotZero(w, s.pixel);
    FrequencyOf(i - h / 2, h, s.pixel);
    FrequencyOf(j - w / 2, w, s.pixel);
    hide Frequency;
    var x, y := (i - h / 2) as real / (h as real * s.pixel), (j - w / 2) as real / (w as real * s.pixel);
    assert q == x * x + y * y;
  }

  lemma LengthNotZero(n: nat, pixel: real)
    requires 0 < n && pixel != 0.0
    ensures n as real * pixel != 0.0
  {
    if n as real * pixel == 0.0 {
      RealNoZeroDivisors(n as real, pixel);
    }
  }

  /** The kernel meets coefficient k at the frequency for which index k + n mod 2 stands. */
  lemma MetIndex(n: nat, k: nat)
    requires k < n
    ensures MetOffset(n, k) == SignedIndex((k + n % 2) % n, n)
  {
    var c := CeilHalf(n);
    assert c - FloorHalf(n) == n % 2 && c + FloorHalf(n) == n;
    if c < n {
      ModWrap(k, c, n);
      if 1 < n {
        ModWrap(k, n % 2, n);
      }
    }
  }

  lemma MetAngle(lib: Library, s: Setup, z: real, n: nat, k: nat, l: nat)
    requires lib.Valid() && Usable(s) && k < n && l < n
    ensures KernelValue(lib, s, z, MetFrequency(n, k, l, s.pixel))
            == lib.cis(ParaxialAngle(lib.pi, s, z, n, n, SignedIndex((k + n % 2) % n, n), SignedIndex((l + n % 2) % n, n)))
  {
    hide IsPhase, KernelValue, SignedIndex, Conj, DispersionAngle, MetOffset, ParaxialAngle, SquaredFrequency;
    var q := MetFrequency(n, k, l, s.pixel);
    KernelPhase(lib, s, z, q);
    MetIndex(n, k);
    MetIndex(n, l);
    assert FloorHalf(n) == n / 2;
    EntrySquares(lib.pi, s, z, n, n, MetOffset(n, k) + FloorHalf(n), MetOffset(n, l) + FloorHalf(n), q);
  }

  lemma FrequencyOf(a: int, n: nat, pixel: real)
    requires 0 < n && pixel != 0.0 && n as real * pixel != 0.0
    ensures Frequency(a + FloorHalf(n), n, pixel) == a as real / (n as real * pixel)
  {
    Reciprocal(a as real, n as real * pixel);
  }

  lemma Reciprocal(x: real, d: real)
    requires d != 0.0
    ensures x * (1.0 / d) == x / d
  {
  }

  /** What propagation does to any field: the coefficient of frequency (k, l) gains the paraxial phase of the
      frequency for which its new index (k + n mod 2, l + n mod 2) stands: its own frequency for even n. */
  lemma PropagationWeighs(lib: Library, s: Setup, g: Frame, n: nat, z: real, k: nat, l: nat)
    requires lib.Valid() && Usable(s) && Rect(g, n, n) && k < n && l < n
    ensures var i, j := (k + n % 2) % n, (l + n % 2) % n;
      Fft(lib, Propagated(lib, s, g, n, z), n, n)[i][j]
        == Mul(Fft(lib, g, n, n)[k][l], lib.cis(ParaxialAngle(lib.pi, s, z, n, n, SignedIndex(i, n), SignedIndex(j, n))))
  {
    hide Fft, Propagated, Mul, IsPhase, KernelValue, MetFrequency, ParaxialAngle, SignedIndex;
    PropagationFilters(lib, s, g, n, z, k, l);
    MetAngle(lib, s, z, n, k, l);
  }

  /** Every value of a frame multiplied by a constant. */
  function Times(a: Complex, g: Frame, h: nat, w: nat): (r: Frame)
    requires Rect(g, h, w)
    ensures Rect(r, h, w)
    ensures forall i, j :: 0 <= i < h && 0 <= j < w ==> r[i][j] == Mul(a, g[i][j])
  {
    seq(h, i requires 0 <= i < h => seq(w, j requires 0 <= j < w => Mul(a, g[i][j])))
  }

  lemma TimesSpectrum(lib: Library, a: Complex, g: Frame, h: nat, w: nat, k: nat, l: nat)
    requires Rect(g, h, w) && k < h && l < w
    ensures Fft(lib, Times(a, g, h, w), h, w)[k][l] == Mul(a, Fft(lib, g, h, w)[k][l])
  {
    hide Dft2, Mul, Forward;
    var tr, tc, m := Forward(lib.cis, lib.pi, h), Forward(lib.cis, lib.pi, w), AsPlane(g, h, w);
    Dft2Agree(tr, tc, AsPlane(Times(a, g, h, w), h, w), ScaledPlane(a, m), h, w, k, l);
    Dft2Scaled(tr, tc, a, m, h, w, k, l);
  }

  /** A field is determined by its spectrum. */
  lemma SameSpectrum(lib: Library, f: Frame, g: Frame, h: nat, w: nat)
    requires lib.Valid() && Rect(f, h, w) && Rect(g, h, w) && 0 < h && 0 < w
    requires forall k, l :: 0 <= k < h && 0 <= l < w ==> Fft(lib, f, h, w)[k][l] == Fft(lib, g, h, w)[k][l]
    ensures f == g
  {
    hide Fft, Ifft, IsPhase;
    GridEqual(Fft(lib, f, h, w), Fft(lib, g, h, w), h, w);
    IfftUndoesFft(lib, f, h, w);
    IfftUndoesFft(lib, g, h, w);
  }

  /** A plane wave propagates to itself times its paraxial phase on even sizes. On odd sizes the wave of the
      next frequency in each direction comes out, times that one's phase. */
  lemma WavePropagates(lib: Library, s: Setup, n: nat, z: real, p: int, q: int)
    requires lib.Valid() && Usable(s) && 0 < n
    ensures var a, b := SignedIndex((p + n % 2) % n, n), SignedIndex((q + n % 2) % n, n);
      Propagated(lib, s, Wave(lib, p, q, n, n), n, z)
        == Times(lib.cis(ParaxialAngle(lib.pi, s, z, n, n, a, b)), Wave(lib, p + n % 2, q + n % 2, n, n), n, n)
  {
    hide Fft, Propagated, Mul, IsPhase, ParaxialAngle, SignedIndex, Wave, WaveAngle, Times;
    var o := n % 2;
    var c := lib.cis(ParaxialAngle(lib.pi, s, z, n, n, SignedIndex((p + o) % n, n), SignedIndex((q + o) % n, n)));
    var before, after := Wave(lib, p, q, n, n), Wave(lib, p + o, q + o, n, n);
    forall i, j | 0 <= i < n && 0 <= j < n
      ensures Fft(lib, Propagated(lib, s, before, n, z), n, n)[i][j] == Fft(lib, Times(c, after, n, n), n, n)[i][j]
    {
      WaveCoefficient(lib, s, n, z, p, q, o, i, j, c);
    }
    SameSpectrum(lib, Propagated(lib, s, before, n, z), Times(c, after, n, n), n, n);
  }

  /** One coefficient of the propagated wave: the only one there is comes from the wave's frequency. */
  lemma WaveCoefficient(lib: Library, s: Setup, n: nat, z: real, p: int, q: int, o: nat, i: nat, j: nat, c: Complex)
    requires lib.Valid() && Usable(s) && i < n && j < n && o == n % 2
    requires c == lib.cis(ParaxialAngle(lib.pi, s, z, n, n, SignedIndex((p + o) % n, n), SignedIndex((q + o) % n, n)))
    ensures Fft(lib, Propagated(lib, s, Wave(lib, p, q, n, n), n, z), n, n)[i][j]
            == Fft(lib, Times(c, Wave(lib, p + o, q + o, n, n), n, n), n, n)[i][j]
  {
    hide Fft, Propagated, Mul, IsPhase, ParaxialAngle, SignedIndex, Wave, Times;
    var k, l := (i - o) % n, (j - o) % n;
    var d := lib.cis(ParaxialAngle(lib.pi, s, z, n, n, SignedIndex(i, n), SignedIndex(j, n)));
    IndexBack(i, o, p, n);
    IndexBack(j, o, q, n);
    WaveAt(lib, p, q, n, k, l);
    WaveAt(lib, p + o, q + o, n, i, j);
    PropagationWeighs(lib, s, Wave(lib, p, q, n, n), n, z, k, l);
    TimesSpectrum(lib, c, Wave(lib, p + o, q + o, n, n), n, n, i, j);
    PhaseMoves(WavePeak(n, i == (p + o) % n && j == (q + o) % n), c, d);
  }

  /** The coefficient of a wave on n by n pixels at its own frequency, and at any other. */
  function WavePeak(n: nat, own: bool): Complex { if own then Complex(n as real * n as real, 0.0) else ZERO }

  lemma WaveAt(lib: Library, p: int, q: int, n: nat, k: nat, l: nat)
    requires lib.Valid() && k < n && l < n
    ensures Fft(lib, Wave(lib, p, q, n, n), n, n)[k][l] == WavePeak(n, k == p % n && l == q % n)
  {
    hide Fft, IsPhase, Wave;
    WaveSpectrum(lib, p, q, n, n);
  }

  lemma PhaseMoves(peak: Complex, c: Complex, d: Complex)
    ensures peak == ZERO || c == d ==> Mul(peak, d) == Mul(c, peak)
  {
    MulCommutes(peak, c);
  }

  /** Index i comes from i - o, and it is the wave's index after the shift exactly if that was before it. */
  lemma IndexBack(i: int, o: int, p: int, n: nat)
    requires 0 <= i < n
    ensures ((i - o) % n + o) % n == i
    ensures (i - o) % n == p % n <==> i == (p + o) % n
  {
    ModEarly(i - o, o, n);
    DivModUnique(i, n, 0, i);
    ModDifference(i - o, p, n);
    ModDifference(i, p + o, n);
    assert i - o - p == i - (p + o);
  }

  /** A constant field on an even size gains the carrier phase 2 pi z / lambda and nothing else. */
  lemma ConstantPropagates(lib: Library, s: Setup, n: nat, z: real, i: nat, j: nat)
    requires lib.Valid() && Usable(s) && i < n && j < n && n % 2 == 0
    ensures Wave(lib, 0, 0, n, n)[i][j] == ONE
    ensures Propagated(lib, s, Wave(lib, 0, 0, n, n), n, z)[i][j] == lib.cis(2.0 * lib.pi * z / s.lambda)
  {
    hide IsPhase, Mul, Propagated, ParaxialAngle, WaveAngle;
    WavePropagates(lib, s, n, z, 0, 0);
    DivModUnique(0, n, 0, 0);
    var t := 2.0 * lib.pi * z / s.lambda;
    ZeroAngles(lib.pi, s, z, n, i, j, t);
    PhaseZero(lib.cis, lib.pi);
    TimesConstants(lib.cis(t));
  }

  lemma ZeroAngles(pi: real, s: Setup, z: real, n: nat, i: int, j: int, t: real)
    requires Usable(s) && 0 < n && t == 2.0 * pi * z / s.lambda
    ensures WaveAngle(pi, 0, 0, n, n, i, j) == 0.0
    ensures ParaxialAngle(pi, s, z, n, n, 0, 0) == t
  {
    LengthNotZero(n, s.pixel);
    assert 0 * i == 0 && 0 * j == 0;
    var u := 1.0 / s.lambda;
    assert 2.0 / s.lambda == 2.0 * u && 2.0 * pi * z / s.lambda == 2.0 * pi * z * u;
  }
}
