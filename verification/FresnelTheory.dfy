/** Fresnel propagation as a function on square frames, and what it promises about distances. */
module FresnelTheory {
  import opened Modulo
  import opened Grids
  import opened CircularShifts
  import opened ComplexField
  import opened Sums
  import opened Fourier
  import opened Dft
  import opened Spectra

  /** Wavelength and effective pixel size. */
  datatype Setup = Setup(lambda: real, pixel: real)

  predicate Usable(s: Setup) { s.lambda != 0.0 && s.pixel != 0.0 }

  function CarrierAngle(pi: real, s: Setup, z: real): real
    requires Usable(s)
  {
    2.0 * pi / s.lambda * z
  }

  function ChirpAngle(pi: real, s: Setup, z: real, q: real): real { -(pi * s.lambda * z * q) }

  /** The spatial frequency of kernel index i in a frame of n samples spaced `pixel` apart. */
  function Frequency(i: int, n: nat, pixel: real): real
    requires 0 < n && pixel != 0.0
  {
    (i - FloorHalf(n)) as real * (1.0 / (n as real * pixel))
  }

  function KernelValue(lib: Library, s: Setup, z: real, q: real): Complex
    requires Usable(s)
  {
    Mul(lib.cis(CarrierAngle(lib.pi, s, z)), lib.cis(ChirpAngle(lib.pi, s, z, q)))
  }

  /** The squared frequency at entry (i, j) of an h by w kernel. */
  function SquaredFrequency(i: int, j: int, h: nat, w: nat, pixel: real): real
    requires 0 < h && 0 < w && pixel != 0.0
  {
    Frequency(i, h, pixel) * Frequency(i, h, pixel) + Frequency(j, w, pixel) * Frequency(j, w, pixel)
  }

  function Kernels(lib: Library, s: Setup, h: nat, w: nat, z: real): (k: Frame)
    requires Usable(s) && 0 < h && 0 < w
    ensures Rect(k, h, w)
    ensures forall i, j :: 0 <= i < h && 0 <= j < w ==>
      k[i][j] == KernelValue(lib, s, z, SquaredFrequency(i, j, h, w, s.pixel))
  {
    seq(h, i requires 0 <= i < h => seq(w, j requires 0 <= j < w =>
      KernelValue(lib, s, z, SquaredFrequency(i, j, h, w, s.pixel))))
  }

  /** The pixelwise product of two frames. */
  function Multiplied(a: Frame, b: Frame, h: nat, w: nat): (r: Frame)
    requires Rect(a, h, w) && Rect(b, h, w)
    ensures Rect(r, h, w)
    ensures forall i, j :: 0 <= i < h && 0 <= j < w ==> r[i][j] == Mul(a[i][j], b[i][j])
  {
    seq(h, i requires 0 <= i < h => seq(w, j requires 0 <= j < w => Mul(a[i][j], b[i][j])))
  }

  /** The shifted spectrum of a frame: where the kernel is applied. */
  function CentredFft(lib: Library, g: Frame, n: nat): (r: Frame)
    requires Rect(g, n, n) && 0 < n
    ensures Rect(r, n, n)
  {
    FftShifted(Fft(lib, g, n, n), n, n)
  }

  /** What `fresnelProp` leaves in its output. */
  function Propagated(lib: Library, s: Setup, g: Frame, n: nat, z: real): (r: Frame)
    requires Usable(s) && Rect(g, n, n) && 0 < n
    ensures Rect(r, n, n)
  {
    Ifft(lib, FftShifted(Multiplied(CentredFft(lib, g, n), Kernels(lib, s, n, n, z), n, n), n, n), n, n)
  }

  /** Sizes on which two `fftShift`s cancel. */
  predicate Aligned(n: nat) { n % 2 == 0 || n == 1 }

  lemma KernelAdds(lib: Library, s: Setup, z1: real, z2: real, q: real)
    requires lib.Valid() && Usable(s)
    ensures Mul(KernelValue(lib, s, z1, q), KernelValue(lib, s, z2, q)) == KernelValue(lib, s, z1 + z2, q)
  {
    hide Mul, Norm2;
    var a1, a2 := CarrierAngle(lib.pi, s, z1), CarrierAngle(lib.pi, s, z2);
    var b1, b2 := ChirpAngle(lib.pi, s, z1, q), ChirpAngle(lib.pi, s, z2, q);
    AnglesAddUp(lib.pi, s, z1, z2, q);
    hide CarrierAngle, ChirpAngle;
    assert Cue(a1, a2) && Cue(b1, b2);
    MulSwapsPairs(lib.cis(a1), lib.cis(b1), lib.cis(a2), lib.cis(b2));
  }

  /** The angle of the kernel: the carrier less the quadratic dispersion of the paraxial approximation. */
  function DispersionAngle(pi: real, s: Setup, z: real, q: real): real
    requires Usable(s)
  {
    pi * z * (2.0 / s.lambda - s.lambda * q)
  }

  /** The product of two exponentials that the source computes is one phase, and distance -z conjugates it. */
  lemma KernelPhase(lib: Library, s: Setup, z: real, q: real)
    requires lib.Valid() && Usable(s)
    ensures KernelValue(lib, s, z, q) == lib.cis(DispersionAngle(lib.pi, s, z, q))
    ensures KernelValue(lib, s, -z, q) == Conj(KernelValue(lib, s, z, q))
  {
    AngleSum(lib.pi, s, z, q);
    AngleSum(lib.pi, s, -z, q);
    assert DispersionAngle(lib.pi, s, -z, q) == -DispersionAngle(lib.pi, s, z, q);
    hide CarrierAngle, ChirpAngle, DispersionAngle, Mul, Norm2, Conj;
    assert Cue(CarrierAngle(lib.pi, s, z), ChirpAngle(lib.pi, s, z, q));
    assert Cue(CarrierAngle(lib.pi, s, -z), ChirpAngle(lib.pi, s, -z, q));
    PhaseNegated(lib.cis, lib.pi, DispersionAngle(lib.pi, s, z, q));
  }

  lemma AngleSum(pi: real, s: Setup, z: real, q: real)
    requires Usable(s)
    ensures CarrierAngle(pi, s, z) + ChirpAngle(pi, s, z, q) == DispersionAngle(pi, s, z, q)
  {
    var u := 1.0 / s.lambda;
    assert 2.0 * pi / s.lambda == 2.0 * pi * u && 2.0 / s.lambda == 2.0 * u;
    assert 2.0 * pi * u * z - pi * s.lambda * z * q == pi * z * (2.0 * u - s.lambda * q);
  }

  lemma MulSwapsPairs(a: Complex, b: Complex, c: Complex, d: Complex)
    ensures Mul(Mul(a, b), Mul(c, d)) == Mul(Mul(a, c), Mul(b, d))
  {
    MulAssociates(a, b, Mul(c, d));
    MulSwap(b, c, d);
    MulAssociates(a, c, Mul(b, d));
    hide *;
  }

  lemma AnglesAddUp(pi: real, s: Setup, z1: real, z2: real, q: real)
    requires Usable(s)
    ensures CarrierAngle(pi, s, z1 + z2) == CarrierAngle(pi, s, z1) + CarrierAngle(pi, s, z2)
    ensures ChirpAngle(pi, s, z1 + z2, q) == ChirpAngle(pi, s, z1, q) + ChirpAngle(pi, s, z2, q)
    ensures CarrierAngle(pi, s, 0.0) == 0.0 && ChirpAngle(pi, s, 0.0, q) == 0.0
  {
    var u, v := 2.0 * pi / s.lambda, pi * s.lambda;
    assert u * (z1 + z2) == u * z1 + u * z2;
    assert v * (z1 + z2) * q == v * z1 * q + v * z2 * q;
  }

  lemma KernelUnit(lib: Library, s: Setup, z: real, q: real)
    requires lib.Valid() && Usable(s)
    ensures Norm2(KernelValue(lib, s, z, q)) == 1.0
    ensures KernelValue(lib, s, 0.0, q) == ONE
  {
    hide Mul, Norm2;
    var a, b := CarrierAngle(lib.pi, s, z), ChirpAngle(lib.pi, s, z, q);
    AnglesAddUp(lib.pi, s, 0.0, 0.0, q);
    hide CarrierAngle, ChirpAngle;
    assert Cue(a, a) && Cue(b, b) && Cue(0.0, 0.0);
    Norm2Mul(lib.cis(a), lib.cis(b));
    PhaseZero(lib.cis, lib.pi);
  }

  /** Applying the kernels of two distances is applying the kernel of their sum. */
  lemma KernelsAdd(lib: Library, s: Setup, x: Frame, n: nat, z1: real, z2: real)
    requires lib.Valid() && Usable(s) && 0 < n && Rect(x, n, n)
    ensures Multiplied(Multiplied(x, Kernels(lib, s, n, n, z1), n, n), Kernels(lib, s, n, n, z2), n, n)
            == Multiplied(x, Kernels(lib, s, n, n, z1 + z2), n, n)
  {
    hide Mul, KernelValue, SquaredFrequency, IsPhase;
    var lhs := Multiplied(Multiplied(x, Kernels(lib, s, n, n, z1), n, n), Kernels(lib, s, n, n, z2), n, n);
    var rhs := Multiplied(x, Kernels(lib, s, n, n, z1 + z2), n, n);
    forall i, j | 0 <= i < n && 0 <= j < n ensures lhs[i][j] == rhs[i][j] {
      var q := SquaredFrequency(i, j, n, n, s.pixel);
      KernelAdds(lib, s, z1, z2, q);
      MulAssociates(x[i][j], KernelValue(lib, s, z1, q), KernelValue(lib, s, z2, q));
    }
    GridEqual(lhs, rhs, n, n);
  }

  /** The spectrum after propagation: the filtered one, shifted once more than it was. */
  lemma SpectrumAfter(lib: Library, s: Setup, g: Frame, n: nat, z: real)
    requires lib.Valid() && Usable(s) && Rect(g, n, n) && 0 < n
    ensures CentredFft(lib, Propagated(lib, s, g, n, z), n)
            == Rotate(Multiplied(CentredFft(lib, g, n), Kernels(lib, s, n, n, z), n, n), n, n, n % 2, n % 2)
  {
    hide Fft, Ifft, Multiplied, Kernels, IsPhase, FftShifted, Rotate;
    var y := Multiplied(CentredFft(lib, g, n), Kernels(lib, s, n, n, z), n, n);
    FftUndoesIfft(lib, FftShifted(y, n, n), n, n);
    FftShiftTwice(y, n, n);
  }

  /** On sizes where the shifts cancel, propagation is an additive action of the distances. */
  lemma PropagationAdds(lib: Library, s: Setup, g: Frame, n: nat, z1: real, z2: real)
    requires lib.Valid() && Usable(s) && Rect(g, n, n) && 0 < n && Aligned(n)
    ensures Propagated(lib, s, Propagated(lib, s, g, n, z1), n, z2) == Propagated(lib, s, g, n, z1 + z2)
  {
    hide Fft, Ifft, Multiplied, Kernels, IsPhase, FftShifted, Rotate, CentredFft;
    var x, k1 := CentredFft(lib, g, n), Kernels(lib, s, n, n, z1);
    SpectrumAfter(lib, s, g, n, z1);
    TwiceHalf(n);
    RotateTurns(Multiplied(x, k1, n, n), n, n, n % 2, n % 2);
    KernelsAdd(lib, s, x, n, z1, z2);
  }

  /** Propagation over no distance changes nothing, and propagation back undoes propagation. */
  lemma PropagationUndone(lib: Library, s: Setup, g: Frame, n: nat, z: real)
    requires lib.Valid() && Usable(s) && Rect(g, n, n) && 0 < n && Aligned(n)
    ensures Propagated(lib, s, g, n, 0.0) == g
    ensures Propagated(lib, s, Propagated(lib, s, g, n, z), n, -z) == g
  {
    hide Fft, Ifft, IsPhase, Rotate, KernelValue;
    var x := CentredFft(lib, g, n);
    var y := Multiplied(x, Kernels(lib, s, n, n, 0.0), n, n);
    forall i, j | 0 <= i < n && 0 <= j < n ensures y[i][j] == x[i][j] {
      KernelUnit(lib, s, 0.0, SquaredFrequency(i, j, n, n, s.pixel));
    }
    GridEqual(y, x, n, n);
    hide Multiplied, Kernels, FftShifted;
    FftShiftTwice(Fft(lib, g, n, n), n, n);
    TwiceHalf(n);
    RotateTurns(Fft(lib, g, n, n), n, n, n % 2, n % 2);
    IfftUndoesFft(lib, g, n, n);
    PropagationAdds(lib, s, g, n, z, -z);
  }

  /** The kernel offset that meets coefficient k of the spectrum once `fftShift` has moved it. */
  function MetOffset(n: nat, k: nat): int
    requires k < n
  {
    (k + CeilHalf(n)) % n - FloorHalf(n)
  }

  /** Coefficient (k, l) is weighed at the offsets that `MetOffset` gives; up to whole turns these are
      the coefficient's own frequencies for even n, and one too many in each direction for odd n. */
  lemma OffsetMet(g: Frame, n: nat, k: nat, l: nat)
    requires Rect(g, n, n) && k < n && l < n
    ensures FftShifted(g, n, n)[MetOffset(n, k) + FloorHalf(n)][MetOffset(n, l) + FloorHalf(n)] == g[k][l]
    ensures MetOffset(n, k) % n == (k + n % 2) % n
    ensures n % 2 == 0 ==> MetOffset(n, k) == if k < n / 2 then k else k - n
  {
    RotateLands(g, n, n, CeilHalf(n), CeilHalf(n), k, l);
    ModEarly(k + CeilHalf(n), FloorHalf(n), n);
    assert CeilHalf(n) - FloorHalf(n) == n % 2;
    if n % 2 == 0 {
      ModWrap(k, CeilHalf(n), n);
    }
  }

  /** Spectrum and kernel line up at every frequency exactly on the aligned sizes. */
  lemma OffsetsAligned(n: nat)
    requires 0 < n
    ensures (forall k: nat | k < n :: MetOffset(n, k) % n == k) <==> Aligned(n)
  {
    var g := Impulse(n, n);
    forall k: nat | k < n ensures MetOffset(n, k) % n == (k + n % 2) % n {
      OffsetMet(g, n, k, k);
    }
    if Aligned(n) {
      forall k: nat | k < n ensures MetOffset(n, k) % n == k {
        DivModUnique(k, n, 0, k);
        if n == 1 {
          DivModUnique(k + 1, 1, 1, 0);
        }
      }
    } else {
      DivModUnique(1, n, 0, 1);
      assert MetOffset(n, 0) % n == 1;
    }
  }

  /** The squared frequency at which coefficient (k, l) is weighed. */
  function MetFrequency(n: nat, k: nat, l: nat, pixel: real): real
    requires k < n && l < n && pixel != 0.0
  {
    SquaredFrequency(MetOffset(n, k) + FloorHalf(n), MetOffset(n, l) + FloorHalf(n), n, n, pixel)
  }

  lemma ShiftIndex(n: nat, k: nat)
    requires k < n
    ensures ((k + CeilHalf(n)) % n + CeilHalf(n)) % n == (k + n % 2) % n
  {
    ModEarly(k + CeilHalf(n), CeilHalf(n), n);
    TwiceHalf(n);
    ModTurns(k + n % 2, n, 1);
  }

  /** What propagation does to the spectrum: coefficient (k, l) is multiplied by the kernel at the frequency
      it meets, and moves by n mod 2. For even n it stays, and by `OffsetMet` the frequency is its own. */
  lemma PropagationFilters(lib: Library, s: Setup, g: Frame, n: nat, z: real, k: nat, l: nat)
    requires lib.Valid() && Usable(s) && Rect(g, n, n) && k < n && l < n
    ensures Fft(lib, Propagated(lib, s, g, n, z), n, n)[(k + n % 2) % n][(l + n % 2) % n]
            == Mul(Fft(lib, g, n, n)[k][l], KernelValue(lib, s, z, MetFrequency(n, k, l, s.pixel)))
  {
    hide Fft, Ifft, IsPhase, KernelValue, SquaredFrequency, Rotate, Mul;
    var y := Multiplied(CentredFft(lib, g, n), Kernels(lib, s, n, n, z), n, n);
    FftUndoesIfft(lib, FftShifted(y, n, n), n, n);
    var p, q := (k + CeilHalf(n)) % n, (l + CeilHalf(n)) % n;
    MovedTwice(Fft(lib, g, n, n), y, n, k, l, p, q);
    hide FftShifted, Multiplied;
    assert y[p][q] == Mul(Fft(lib, g, n, n)[k][l], KernelValue(lib, s, z, SquaredFrequency(p, q, n, n, s.pixel)));
  }

  /** Where one shift and a second one take an index. */
  lemma MovedTwice(f: Frame, y: Frame, n: nat, k: nat, l: nat, p: int, q: int)
    requires Rect(f, n, n) && Rect(y, n, n) && k < n && l < n && p == (k + CeilHalf(n)) % n && q == (l + CeilHalf(n)) % n
    ensures 0 <= p < n && 0 <= q < n && FftShifted(f, n, n)[p][q] == f[k][l]
    ensures FftShifted(y, n, n)[(k + n % 2) % n][(l + n % 2) % n] == y[p][q]
  {
    hide Rotate;
    var c := CeilHalf(n);
    RotateLands(f, n, n, c, c, k, l);
    RotateLands(y, n, n, c, c, p, q);
    ShiftIndex(n, k);
    ShiftIndex(n, l);
  }

  /** The frame that is one at the top left pixel and zero elsewhere. */
  function Impulse(h: nat, w: nat): (g: Frame)
    ensures Rect(g, h, w)
    ensures forall i, j :: 0 <= i < h && 0 <= j < w ==> g[i][j] == if i == 0 && j == 0 then ONE else ZERO
  {
    seq(h, i => seq(w, j => if i == 0 && j == 0 then ONE else ZERO))
  }

  /** A frame whose shifted spectrum is the impulse. */
  function Probe(lib: Library, n: nat): (g: Frame)
    requires 0 < n
    ensures Rect(g, n, n)
  {
    Ifft(lib, IfftShifted(Impulse(n, n), n, n), n, n)
  }

  lemma ProbeSpectrum(lib: Library, n: nat)
    requires lib.Valid() && 0 < n
    ensures CentredFft(lib, Probe(lib, n), n) == Impulse(n, n)
  {
    hide Fft, Ifft, IsPhase, FftShifted, IfftShifted;
    FftUndoesIfft(lib, IfftShifted(Impulse(n, n), n, n), n, n);
    ShiftsInvert(Impulse(n, n), n, n);
  }

  /** On odd sizes above one, two propagations put the probe's spectrum where one does not. */
  lemma PropagationDrifts(lib: Library, s: Setup, n: nat, z1: real, z2: real)
    requires lib.Valid() && Usable(s) && !Aligned(n) && 0 < n
    ensures Propagated(lib, s, Propagated(lib, s, Probe(lib, n), n, z1), n, z2)
            != Propagated(lib, s, Probe(lib, n), n, z1 + z2)
  {
    hide IsPhase, KernelValue, Norm2, SquaredFrequency, Propagated, CentredFft, Probe, Mul;
    var g := Probe(lib, n);
    var once, twice := Propagated(lib, s, g, n, z1 + z2), Propagated(lib, s, Propagated(lib, s, g, n, z1), n, z2);
    ProbeSpectrum(lib, n);
    DriftedOnce(lib, s, g, n, z1 + z2);
    DriftedTwice(lib, s, g, n, z1, z2);
  }

  /** One propagation of the probe leaves nothing at (2, 2) of the spectrum. */
  lemma DriftedOnce(lib: Library, s: Setup, g: Frame, n: nat, z: real)
    requires lib.Valid() && Usable(s) && n % 2 == 1 && n >= 3 && Rect(g, n, n) && CentredFft(lib, g, n) == Impulse(n, n)
    ensures CentredFft(lib, Propagated(lib, s, g, n, z), n)[2][2] == ZERO
  {
    hide IsPhase, KernelValue, Mul, SquaredFrequency, Propagated, CentredFft;
    SpectrumAfter(lib, s, g, n, z);
    DivModUnique(1, n, 0, 1);
    MulReal(KernelValue(lib, s, z, SquaredFrequency(1, 1, n, n, s.pixel)), 0.0);
    MulCommutes(KernelValue(lib, s, z, SquaredFrequency(1, 1, n, n, s.pixel)), ZERO);
  }

  /** Two propagations leave something there. */
  lemma DriftedTwice(lib: Library, s: Setup, g: Frame, n: nat, z1: real, z2: real)
    requires lib.Valid() && Usable(s) && n % 2 == 1 && n >= 3 && Rect(g, n, n) && CentredFft(lib, g, n) == Impulse(n, n)
    ensures CentredFft(lib, Propagated(lib, s, Propagated(lib, s, g, n, z1), n, z2), n)[2][2] != ZERO
  {
    hide IsPhase, KernelValue, Mul, Norm2, SquaredFrequency, Propagated, CentredFft;
    SpectrumAfter(lib, s, g, n, z1);
    SpectrumAfter(lib, s, Propagated(lib, s, g, n, z1), n, z2);
    DivModUnique(1, n, 0, 1);
    DivModUnique(0, n, 0, 0);
    var k1 := KernelValue(lib, s, z1, SquaredFrequency(0, 0, n, n, s.pixel));
    var k2 := KernelValue(lib, s, z2, SquaredFrequency(1, 1, n, n, s.pixel));
    KernelUnit(lib, s, z1, SquaredFrequency(0, 0, n, n, s.pixel));
    KernelUnit(lib, s, z2, SquaredFrequency(1, 1, n, n, s.pixel));
    UnitProduct(k1, k2);
    assert CentredFft(lib, Propagated(lib, s, g, n, z1), n)[1][1] == Mul(ONE, k1);
  }

  lemma UnitProduct(a: Complex, b: Complex)
    requires Norm2(a) == 1.0 && Norm2(b) == 1.0
    ensures Mul(Mul(ONE, a), b) != ZERO
  {
    Norm2Mul(ONE, a);
    Norm2Mul(Mul(ONE, a), b);
    NormsOfConstants();
    hide Mul, Norm2;
  }

  lemma NormsOfConstants()
    ensures Norm2(ONE) == 1.0 && Norm2(ZERO) == 0.0
  {
  }

  /** Propagation is an additive action of the distances exactly on even sizes and on size one. */
  lemma PropagationAddsExactly(lib: Library, s: Setup, n: nat, z1: real, z2: real)
    requires lib.Valid() && Usable(s) && 0 < n
    ensures (forall g: Frame | Rect(g, n, n) ::
               Propagated(lib, s, Propagated(lib, s, g, n, z1), n, z2) == Propagated(lib, s, g, n, z1 + z2))
            <==> Aligned(n)
  {
    hide IsPhase, Propagated, Probe;
    if Aligned(n) {
      forall g: Frame | Rect(g, n, n)
        ensures Propagated(lib, s, Propagated(lib, s, g, n, z1), n, z2) == Propagated(lib, s, g, n, z1 + z2)
      {
        PropagationAdds(lib, s, g, n, z1, z2);
      }
    } else {
      PropagationDrifts(lib, s, n, z1, z2);
    }
  }

  lemma EnergyAgrees(m: Plane, m': Plane, h: nat, w: nat)
    requires forall i, j :: 0 <= i < h && 0 <= j < w ==> Power2(m)(i, j) == Power2(m')(i, j)
    ensures Energy(m, h, w) == Energy(m', h, w)
  {
    forall i | 0 <= i < h ensures RowSums(Power2(m), w)(i) == RowSums(Power2(m'), w)(i) {
      SumAgree(RowOf(Power2(m), i), RowOf(Power2(m'), i), w);
    }
    SumAgree(RowSums(Power2(m), w), RowSums(Power2(m'), w), h);
  }

  lemma RotatedPower(g: Frame, h: nat, w: nat, dy: int, dx: int, i: int, j: int)
    requires Rect(g, h, w) && 0 <= i < h && 0 <= j < w
    ensures Power2(AsPlane(Rotate(g, h, w, dy, dx), h, w))(i, j)
            == Power2(AsPlane(g, h, w))((i + -dy) % h, (j + -dx) % w)
  {
    hide Mul, Conj;
    assert i + -dy == i - dy && j + -dx == j - dx;
  }

  lemma RotatedRowEnergy(g: Frame, h: nat, w: nat, dy: int, dx: int, i: int)
    requires Rect(g, h, w) && 0 <= i < h && 0 < w
    ensures RowSums(Power2(AsPlane(Rotate(g, h, w, dy, dx), h, w)), w)(i)
            == RowSums(Power2(AsPlane(g, h, w)), w)((i + -dy) % h)
  {
    hide AsPlane, Rotate, Power2;
    var before, after := Power2(AsPlane(g, h, w)), Power2(AsPlane(Rotate(g, h, w, dy, dx), h, w));
    var r := (i + -dy) % h;
    forall j | 0 <= j < w ensures RowOf(after, i)(j) == Turned(RowOf(before, r), w, -dx)(j) {
      RotatedPower(g, h, w, dy, dx, i, j);
    }
    SumAgree(RowOf(after, i), Turned(RowOf(before, r), w, -dx), w);
    SumTurned(RowOf(before, r), w, -dx);
  }

  /** Rotating a frame keeps its energy. */
  lemma RotationKeepsEnergy(g: Frame, h: nat, w: nat, dy: int, dx: int)
    requires Rect(g, h, w) && 0 < h && 0 < w
    ensures Energy(AsPlane(Rotate(g, h, w, dy, dx), h, w), h, w) == Energy(AsPlane(g, h, w), h, w)
  {
    hide AsPlane, Rotate, Power2, RowSums;
    var before, after := Power2(AsPlane(g, h, w)), Power2(AsPlane(Rotate(g, h, w, dy, dx), h, w));
    forall i | 0 <= i < h ensures RowSums(after, w)(i) == Turned(RowSums(before, w), h, -dy)(i) {
      RotatedRowEnergy(g, h, w, dy, dx, i);
    }
    SumAgree(RowSums(after, w), Turned(RowSums(before, w), h, -dy), h);
    SumTurned(RowSums(before, w), h, -dy);
  }

  lemma UnitFactor(a: Complex, k: Complex)
    requires Norm2(k) == 1.0
    ensures Mul(Mul(a, k), Conj(Mul(a, k))) == Mul(a, Conj(a))
  {
    Norm2Conj(Mul(a, k));
    Norm2Mul(a, k);
    Norm2Conj(a);
    hide *;
  }

  lemma KernelKeepsEnergy(lib: Library, s: Setup, x: Frame, n: nat, z: real)
    requires lib.Valid() && Usable(s) && 0 < n && Rect(x, n, n)
    ensures Energy(AsPlane(Multiplied(x, Kernels(lib, s, n, n, z), n, n), n, n), n, n) == Energy(AsPlane(x, n, n), n, n)
  {
    hide Mul, KernelValue, SquaredFrequency, IsPhase, Conj, Norm2;
    var y := Multiplied(x, Kernels(lib, s, n, n, z), n, n);
    forall i, j | 0 <= i < n && 0 <= j < n
      ensures Power2(AsPlane(y, n, n))(i, j) == Power2(AsPlane(x, n, n))(i, j)
    {
      var q := SquaredFrequency(i, j, n, n, s.pixel);
      KernelUnit(lib, s, z, q);
      UnitFactor(x[i][j], KernelValue(lib, s, z, q));
    }
    EnergyAgrees(AsPlane(y, n, n), AsPlane(x, n, n), n, n);
  }

  /** The forward transform multiplies the energy by the number of pixels. */
  lemma FftEnergy(lib: Library, g: Frame, h: nat, w: nat)
    requires lib.Valid() && Rect(g, h, w) && 0 < h && 0 < w
    ensures Energy(AsPlane(Fft(lib, g, h, w), h, w), h, w)
            == Scale(h as real, Scale(w as real, Energy(AsPlane(g, h, w), h, w)))
  {
    hide Dft2, Mul, Scale, Forward, IsRoot, IsPhase, Energy;
    var tr, tc, m := Forward(lib.cis, lib.pi, h), Forward(lib.cis, lib.pi, w), AsPlane(g, h, w);
    ForwardRoot(lib.cis, lib.pi, h);
    ForwardRoot(lib.cis, lib.pi, w);
    EnergyAgrees(AsPlane(Fft(lib, g, h, w), h, w), Spectrum2(tr, tc, m, h, w), h, w);
    Parseval2(tr, tc, m, h, w);
  }

  /** Propagation keeps the energy of the field, on every square size. */
  lemma PropagationKeepsEnergy(lib: Library, s: Setup, g: Frame, n: nat, z: real)
    requires lib.Valid() && Usable(s) && Rect(g, n, n) && 0 < n
    ensures Energy(AsPlane(Propagated(lib, s, g, n, z), n, n), n, n) == Energy(AsPlane(g, n, n), n, n)
  {
    hide Fft, Ifft, Multiplied, Kernels, IsPhase, Rotate, Energy, Mul, Scale, Share;
    var y := Multiplied(CentredFft(lib, g, n), Kernels(lib, s, n, n, z), n, n);
    var out := Propagated(lib, s, g, n, z);
    FftUndoesIfft(lib, FftShifted(y, n, n), n, n);
    RotationKeepsEnergy(y, n, n, CeilHalf(n), CeilHalf(n));
    KernelKeepsEnergy(lib, s, CentredFft(lib, g, n), n, z);
    RotationKeepsEnergy(Fft(lib, g, n, n), n, n, CeilHalf(n), CeilHalf(n));
    FftEnergy(lib, out, n, n);
    FftEnergy(lib, g, n, n);
    ShareUndoes(n, n, Energy(AsPlane(out, n, n), n, n));
    ShareUndoes(n, n, Energy(AsPlane(g, n, n), n, n));
  }
}
