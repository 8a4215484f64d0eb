/** The quantitative phase pipeline of jni_qDPC.cpp, from four intensity images to a rescaled phase image. */
module Qdpc {
  import opened Modulo
  import opened Grids
  import opened ComplexField
  import opened Fourier
  import opened Spectra
  import opened QuantDpcTheory
  import opened PhaseReality
  import opened QuantDpc
  import opened Rescaling
  import opened DpcImages
  import opened PhaseLaws

  /** `normalize` with NORM_MINMAX from a matrix into itself. */
  method NormalizeInPlace(a: array2<real>, alpha: real, beta: real, eps: real)
    requires 0 < a.Length0 && 0 < a.Length1 && eps >= 0.0
    modifies a
    ensures View(a) == old(Normalized(View(a), a.Length0, a.Length1, alpha, beta, eps))
  {
    var h, w := a.Length0, a.Length1;
    var r := Normalized(View(a), h, w, alpha, beta, eps);
    hide Normalized;
    forall i, j | 0 <= i < h && 0 <= j < w {
      a[i, j] := r[i][j];
    }
    GridEqual(View(a), r, h, w);
  }

  /** An eight-bit image as doubles. */
  function Widened(px: seq<seq<int>>, n: nat): (g: RealFrame)
    requires Rect(px, n, n)
    ensures Rect(g, n, n)
    ensures forall i, j :: 0 <= i < n && 0 <= j < n ==> g[i][j] == px[i][j] as real
  {
    seq(n, i requires 0 <= i < n => seq(n, j requires 0 <= j < n => px[i][j] as real))
  }

  method Render(g: RealFrame, n: nat) returns (a: array2<real>)
    requires Rect(g, n, n)
    ensures fresh(a) && Square(a, n) && View(a) == g
  {
    a := new real[n, n]((i, j) requires 0 <= i < n && 0 <= j < n => g[i][j]);
    GridEqual(View(a), g, n, n);
  }

  /** The differential image of two square intensity images. */
  function DpcLevels(a: RealFrame, b: RealFrame, mask: Mask, n: nat): (r: Rescaled)
    requires 0 < n && Rect(a, n, n) && Rect(b, n, n) && Rect(mask, n, n)
    ensures r.Levels? ==> Rect(r.px, n, n)
  {
    ToLevels(ContrastImage(a, b, mask, n, n), n, n)
  }

  /** The phase before rescaling, for given differential images and transfer functions as delivered. */
  ghost function RawPhase(lib: Library, x: Rescaled, y: Rescaled, t1: RealFrame, t2: RealFrame, n: nat, eps: real)
    : (p: RealFrame)
    requires 0 < n && eps >= 0.0 && x.Levels? && y.Levels? && Rect(x.px, n, n) && Rect(y.px, n, n)
    requires Rect(t1, n, n) && Rect(t2, n, n)
    ensures Rect(p, n, n)
  {
    var u1, u2 := Normalized(t1, n, n, -1.0, 1.0, eps), Normalized(t2, n, n, -1.0, 1.0, eps);
    PositiveRegular(u1, u2, 1.0, n);
    RealPart(ComplexPhase(lib, Widened(x.px, n), Widened(y.px, n), u1, u2, 1.0, n), n)
  }

  /** The inversion of two eight-bit differential images, before rescaling. */
  method Inverted(lib: Library, x: Rescaled, y: Rescaled, trans1: array2<real>, trans2: array2<real>, n: nat)
    returns (phase: array2<real>)
    requires 0 < n && x.Levels? && y.Levels? && Rect(x.px, n, n) && Rect(y.px, n, n)
    requires Square(trans1, n) && Square(trans2, n)
    ensures fresh(phase) && Square(phase, n)
    ensures Regular(View(trans1), View(trans2), 1.0, n)
    ensures View(phase) ==
      RealPart(ComplexPhase(lib, Widened(x.px, n), Widened(y.px, n), View(trans1), View(trans2), 1.0, n), n)
  {
    hide ComplexPhase;
    var dpc1 := Render(Widened(x.px, n), n);
    var dpc2 := Render(Widened(y.px, n), n);
    PositiveRegular(View(trans1), View(trans2), 1.0, n);
    phase := QdpcLoop(lib, [dpc1, dpc2], [trans1, trans2], 1.0, n);
  }

  /** The final image: the phase rescaled for the colour map and then to the range of a byte. */
  ghost function PhaseImage(lib: Library, x: Rescaled, y: Rescaled, t1: RealFrame, t2: RealFrame, n: nat, eps: real)
    : (p: RealFrame)
    requires 0 < n && eps >= 0.0 && x.Levels? && y.Levels? && Rect(x.px, n, n) && Rect(y.px, n, n)
    requires Rect(t1, n, n) && Rect(t2, n, n)
    ensures Rect(p, n, n)
  {
    Normalized(Normalized(RawPhase(lib, x, y, t1, t2, n, eps), n, n, -0.3, 1.4, eps), n, n, 0.0, 255.0, eps)
  }

  /** What the pipeline promises of its answer p for two pairs of images and two rescaled transfer functions u1
      and u2: there are differential images of the two pairs and a complex image that solves the inversion for
      their sum with regularisation one, and p spreads its real part over [0, 255]. */
  ghost predicate Recovered(lib: Library, a11: RealFrame, a12: RealFrame, a21: RealFrame, a22: RealFrame,
                            u1: RealFrame, u2: RealFrame, mask: Mask, n: nat, eps: real, p: RealFrame)
    requires 0 < n && Rect(a11, n, n) && Rect(a12, n, n) && Rect(a21, n, n) && Rect(a22, n, n)
    requires Rect(u1, n, n) && Rect(u2, n, n) && Rect(mask, n, n)
  {
    exists x: seq<seq<int>>, y: seq<seq<int>>, f: Frame ::
      Rect(x, n, n) && Rect(y, n, n) &&
      Differential(Levels(x), a11, a12, mask, n, n) && Differential(Levels(y), a21, a22, mask, n, n) &&
      Inverts(lib, x, y, f, u1, u2, n, eps, p)
  }

  /** f solves the inversion for the sum of two eight-bit images, and p spreads its real part over [0, 255]. */
  ghost predicate Inverts(lib: Library, x: seq<seq<int>>, y: seq<seq<int>>, f: Frame, u1: RealFrame, u2: RealFrame,
                          n: nat, eps: real, p: RealFrame)
    requires 0 < n && Rect(x, n, n) && Rect(y, n, n) && Rect(u1, n, n) && Rect(u2, n, n)
  {
    Solves(lib, f, Together(Widened(x, n), Widened(y, n), n), u1, u2, 1.0, n) &&
    Spread(p, RealPart(f, n), n, n, 0.0, 255.0, eps)
  }

  /** The final image is the one that this promise describes. */
  lemma PipelineRecovers(lib: Library, a11: RealFrame, a12: RealFrame, a21: RealFrame, a22: RealFrame,
                         t1: RealFrame, t2: RealFrame, mask: Mask, n: nat, eps: real, p: RealFrame)
    requires lib.Valid() && 0 < n && 0.0 <= eps < 1.7 && Rect(mask, n, n) && Rect(t1, n, n) && Rect(t2, n, n)
    requires Rect(a11, n, n) && Rect(a12, n, n) && Rect(a21, n, n) && Rect(a22, n, n)
    requires DpcLevels(a11, a12, mask, n).Levels? && DpcLevels(a21, a22, mask, n).Levels?
    ensures Recovered(lib, a11, a12, a21, a22, Normalized(t1, n, n, -1.0, 1.0, eps), Normalized(t2, n, n, -1.0, 1.0, eps),
                      mask, n, eps, p)
            <==> p == PhaseImage(lib, DpcLevels(a11, a12, mask, n), DpcLevels(a21, a22, mask, n), t1, t2, n, eps)
  {
    hide IsPhase, Normalized, Differential, ContrastImage, ToLevels, Inverts, ComplexPhase, PhaseImage, Widened, Spread, Regular;
    var x, y := DpcLevels(a11, a12, mask, n), DpcLevels(a21, a22, mask, n);
    var u1, u2 := Normalized(t1, n, n, -1.0, 1.0, eps), Normalized(t2, n, n, -1.0, 1.0, eps);
    PositiveRegular(u1, u2, 1.0, n);
    var f := ComplexPhase(lib, Widened(x.px, n), Widened(y.px, n), u1, u2, 1.0, n);
    ImageSpreads(lib, x, y, t1, t2, n, eps, f, p);
    if p == PhaseImage(lib, x, y, t1, t2, n, eps) {
      DifferentialExactly(Levels(x.px), a11, a12, mask, n, n);
      DifferentialExactly(Levels(y.px), a21, a22, mask, n, n);
      OwnSolution(lib, x.px, y.px, f, u1, u2, n, eps, p);
    }
    if Recovered(lib, a11, a12, a21, a22, u1, u2, mask, n, eps, p) {
      OnlyRecovery(lib, a11, a12, a21, a22, u1, u2, mask, n, eps, p, x.px, y.px, f);
    }
  }

  /** The two rescalings are one. */
  lemma ImageSpreads(lib: Library, x: Rescaled, y: Rescaled, t1: RealFrame, t2: RealFrame, n: nat, eps: real,
                     f: Frame, p: RealFrame)
    requires 0 < n && 0.0 <= eps < 1.7 && x.Levels? && y.Levels? && Rect(x.px, n, n) && Rect(y.px, n, n)
    requires Rect(t1, n, n) && Rect(t2, n, n)
    requires var u1, u2 := Normalized(t1, n, n, -1.0, 1.0, eps), Normalized(t2, n, n, -1.0, 1.0, eps);
      Regular(u1, u2, 1.0, n) && f == ComplexPhase(lib, Widened(x.px, n), Widened(y.px, n), u1, u2, 1.0, n)
    ensures Spread(p, RealPart(f, n), n, n, 0.0, 255.0, eps) <==> p == PhaseImage(lib, x, y, t1, t2, n, eps)
  {
    hide Normalized, ComplexPhase, Widened, Spread, Range, Regular;
    NormalizedTwice(RealPart(f, n), n, n, -0.3, 1.4, 0.0, 255.0, eps);
    SpreadExactly(p, RealPart(f, n), n, n, 0.0, 255.0, eps);
  }

  lemma OwnSolution(lib: Library, x: seq<seq<int>>, y: seq<seq<int>>, f: Frame, u1: RealFrame, u2: RealFrame,
                    n: nat, eps: real, p: RealFrame)
    requires lib.Valid() && 0 < n && Rect(x, n, n) && Rect(y, n, n) && Rect(u1, n, n) && Rect(u2, n, n)
    requires Regular(u1, u2, 1.0, n) && f == ComplexPhase(lib, Widened(x, n), Widened(y, n), u1, u2, 1.0, n)
    requires Spread(p, RealPart(f, n), n, n, 0.0, 255.0, eps)
    ensures Inverts(lib, x, y, f, u1, u2, n, eps, p)
  {
    hide IsPhase, Solves, Spread, ComplexPhase, Together, Widened;
    PhaseSolves(lib, Widened(x, n), Widened(y, n), u1, u2, 1.0, n);
  }

  lemma OnlyRecovery(lib: Library, a11: RealFrame, a12: RealFrame, a21: RealFrame, a22: RealFrame,
                     u1: RealFrame, u2: RealFrame, mask: Mask, n: nat, eps: real, p: RealFrame,
                     x: seq<seq<int>>, y: seq<seq<int>>, f: Frame)
    requires lib.Valid() && 0 < n && Rect(u1, n, n) && Rect(u2, n, n) && Rect(mask, n, n) && Regular(u1, u2, 1.0, n)
    requires Rect(a11, n, n) && Rect(a12, n, n) && Rect(a21, n, n) && Rect(a22, n, n) && Rect(x, n, n) && Rect(y, n, n)
    requires DpcLevels(a11, a12, mask, n) == Levels(x) && DpcLevels(a21, a22, mask, n) == Levels(y)
    requires f == ComplexPhase(lib, Widened(x, n), Widened(y, n), u1, u2, 1.0, n)
    requires Recovered(lib, a11, a12, a21, a22, u1, u2, mask, n, eps, p)
    ensures Spread(p, RealPart(f, n), n, n, 0.0, 255.0, eps)
  {
    hide IsPhase, Differential, ContrastImage, ToLevels, Inverts, ComplexPhase, Widened, Spread, Regular;
    var x', y', f' :| Rect(x', n, n) && Rect(y', n, n) &&
      Differential(Levels(x'), a11, a12, mask, n, n) && Differential(Levels(y'), a21, a22, mask, n, n) &&
      Inverts(lib, x', y', f', u1, u2, n, eps, p);
    DifferentialExactly(Levels(x'), a11, a12, mask, n, n);
    DifferentialExactly(Levels(y'), a21, a22, mask, n, n);
    OnlySolution(lib, x, y, f', u1, u2, n, eps, p);
  }

  lemma OnlySolution(lib: Library, x: seq<seq<int>>, y: seq<seq<int>>, f: Frame, u1: RealFrame, u2: RealFrame,
                     n: nat, eps: real, p: RealFrame)
    requires lib.Valid() && 0 < n && Rect(x, n, n) && Rect(y, n, n) && Rect(u1, n, n) && Rect(u2, n, n)
    requires Regular(u1, u2, 1.0, n) && Inverts(lib, x, y, f, u1, u2, n, eps, p)
    ensures f == ComplexPhase(lib, Widened(x, n), Widened(y, n), u1, u2, 1.0, n)
    ensures Spread(p, RealPart(f, n), n, n, 0.0, 255.0, eps)
  {
    hide IsPhase, Solves, Spread, ComplexPhase, Together, Widened;
    PhaseSolvesExactly(lib, f, Widened(x, n), Widened(y, n), u1, u2, 1.0, n);
  }

  /** No pixel of the array is shared with one of the four images. */
  predicate Apart(a: array2<real>, b: array2<real>, c: array2<real>, d: array2<real>, e: array2<real>) {
    a != b && a != c && a != d && a != e
  }

  /** Both transfer functions rescaled to [-1, 1], each in its own buffer. */
  method RescaleTransfers(trans1: array2<real>, trans2: array2<real>, n: nat, eps: real)
    requires 0 < n && eps >= 0.0 && Square(trans1, n) && Square(trans2, n) && trans1 != trans2
    modifies trans1, trans2
    ensures View(trans1) == old(Normalized(View(trans1), n, n, -1.0, 1.0, eps))
    ensures View(trans2) == old(Normalized(View(trans2), n, n, -1.0, 1.0, eps))
  {
    hide Normalized;
    NormalizeInPlace(trans1, -1.0, 1.0, eps);
    NormalizeInPlace(trans2, -1.0, 1.0, eps);
  }

  /** The two differential images. */
  method DpcPair(dpc11: array2<real>, dpc12: array2<real>, dpc21: array2<real>, dpc22: array2<real>, mask: Mask, n: nat)
    returns (dpc1: Rescaled, dpc2: Rescaled)
    requires 0 < n && Rect(mask, n, n)
    requires Square(dpc11, n) && Square(dpc12, n) && Square(dpc21, n) && Square(dpc22, n)
    ensures dpc1 == DpcLevels(View(dpc11), View(dpc12), mask, n)
    ensures dpc2 == DpcLevels(View(dpc21), View(dpc22), mask, n)
  {
    hide ContrastImage, ToLevels;
    dpc1 := CalcDPC(dpc11, dpc12, mask);
    dpc2 := CalcDPC(dpc21, dpc22, mask);
  }

  /** The phase rescaled for the colour map and then to the range of a byte. */
  method RescalePhase(phase: array2<real>, n: nat, eps: real)
    requires 0 < n && eps >= 0.0 && Square(phase, n)
    modifies phase
    ensures View(phase) == old(Normalized(Normalized(View(phase), n, n, -0.3, 1.4, eps), n, n, 0.0, 255.0, eps))
  {
    hide Normalized;
    NormalizeInPlace(phase, -0.3, 1.4, eps);
    NormalizeInPlace(phase, 0.0, 255.0, eps);
  }

  /** The pipeline on square frames. The transfer functions are rescaled in place; a differential image
      without contrast stops it, since its rescaling is not a number. */
  method QDPC(lib: Library, dpc11: array2<real>, dpc12: array2<real>, dpc21: array2<real>, dpc22: array2<real>,
              trans1: array2<real>, trans2: array2<real>, mask: Mask, n: nat, eps: real)
    returns (ok: bool, phase: array2<real>)
    requires 0 < n && eps >= 0.0 && Rect(mask, n, n)
    requires Square(dpc11, n) && Square(dpc12, n) && Square(dpc21, n) && Square(dpc22, n)
    requires Square(trans1, n) && Square(trans2, n) && trans1 != trans2
    requires Apart(trans1, dpc11, dpc12, dpc21, dpc22) && Apart(trans2, dpc11, dpc12, dpc21, dpc22)
    modifies trans1, trans2
    ensures Square(phase, n)
    ensures View(trans1) == old(Normalized(View(trans1), n, n, -1.0, 1.0, eps))
    ensures View(trans2) == old(Normalized(View(trans2), n, n, -1.0, 1.0, eps))
    ensures ok <==> old(DpcLevels(View(dpc11), View(dpc12), mask, n).Levels? && DpcLevels(View(dpc21), View(dpc22), mask, n).Levels?)
    ensures ok ==> View(phase) == PhaseImage(lib,
      old(DpcLevels(View(dpc11), View(dpc12), mask, n)), old(DpcLevels(View(dpc21), View(dpc22), mask, n)),
      old(View(trans1)), old(View(trans2)), n, eps)
    ensures ok && lib.Valid() && eps < 1.7 ==> Recovered(lib, View(dpc11), View(dpc12), View(dpc21), View(dpc22),
      View(trans1), View(trans2), mask, n, eps, View(phase))
  {
    hide Normalized, ContrastImage, ToLevels, ComplexPhase, DpcLevels, Recovered;
    ghost var t1, t2 := View(trans1), View(trans2);
    RescaleTransfers(trans1, trans2, n, eps);
    var dpc1, dpc2 := DpcPair(dpc11, dpc12, dpc21, dpc22, mask, n);
    if dpc1.Constant? || dpc2.Constant? {
      phase := new real[n, n];
      ok := false;
    } else {
      phase := Inverted(lib, dpc1, dpc2, trans1, trans2, n);
      assert View(phase) == RawPhase(lib, dpc1, dpc2, t1, t2, n, eps);
      hide RawPhase;
      RescalePhase(phase, n, eps);
      ok := true;
      if lib.Valid() && eps < 1.7 {
        PipelineRecovers(lib, View(dpc11), View(dpc12), View(dpc21), View(dpc22), t1, t2, mask, n, eps, View(phase));
      }
    }
  }

  /** The scaled and the unscaled phase lie on the same side of the threshold below which there is no range. */
  ghost predicate SameSide(lib: Library, f: Frame, n: nat, eps: real)
    requires 0 < n && Rect(f, n, n)
  {
    Range(RealPart(UnscaledIfft(lib, f, n, n), n), n, n) > eps <==> Range(RealPart(Ifft(lib, f, n, n), n), n, n) > eps
  }

  /** Leaving the backward transform unscaled and rescaling through [-0.3, 1.4] does not show in the final
      image, which is the scaled transform rescaled once, exactly if the scale does not decide on the range. */
  lemma FinalImageScaleFree(lib: Library, f: Frame, n: nat, eps: real)
    requires 0 < n && Rect(f, n, n) && 0.0 <= eps < 1.7
    ensures Normalized(Normalized(RealPart(UnscaledIfft(lib, f, n, n), n), n, n, -0.3, 1.4, eps), n, n, 0.0, 255.0, eps)
            == Normalized(RealPart(Ifft(lib, f, n, n), n), n, n, 0.0, 255.0, eps)
            <==> SameSide(lib, f, n, eps)
  {
    hide Normalized, UnscaledIfft, Ifft, Range, Share, Low, High;
    var p := RealPart(UnscaledIfft(lib, f, n, n), n);
    NormalizedTwice(p, n, n, -0.3, 1.4, 0.0, 255.0, eps);
    SharePositive(n);
    ScaledPart(lib, f, n);
    MappedRange(p, n, n, Share(n, n).re, 0.0);
    NormalizedAbsorbsExactly(p, n, n, Share(n, n).re, 0.0, 0.0, 255.0, eps);
  }

  /** An image of height x at its first pixel, zero elsewhere. */
  function Peak(x: real, n: nat): (g: RealFrame)
    ensures Rect(g, n, n)
    ensures forall i, j :: 0 <= i < n && 0 <= j < n ==> g[i][j] == if i == 0 && j == 0 then x else 0.0
  {
    seq(n, i => seq(n, j => if i == 0 && j == 0 then x else 0.0))
  }

  lemma PeakRange(x: real, n: nat)
    requires n >= 2 && x > 0.0
    ensures Range(Peak(x, n), n, n) == x
  {
    hide Low, High;
    var g := Peak(x, n);
    assert g[1][0] == 0.0 && g[0][0] == x;
    LowUnique(g, n, n, 0.0, 1, 0);
    HighUnique(g, n, n, x, 0, 0);
  }

  /** A spectrum whose unscaled phase has range eps n n, above the threshold, and whose scaled phase has range
      eps, which is not. */
  lemma ScaleDecides(lib: Library, n: nat, eps: real)
    requires lib.Valid() && n >= 2 && eps > 0.0
    ensures !SameSide(lib, Fft(lib, Complexified(Peak(eps, n), n, n), n, n), n, eps)
  {
    hide Fft, Ifft, UnscaledIfft, IsPhase, Range, Peak, Share;
    var g, f := Peak(eps, n), Fft(lib, Complexified(Peak(eps, n), n, n), n, n);
    IfftUndoesFft(lib, Complexified(g, n, n), n, n);
    GridEqual(RealPart(Ifft(lib, f, n, n), n), g, n, n);
    PeakRange(eps, n);
    SharePositive(n);
    ShareSmall(n);
    ScaledPart(lib, f, n);
    var p := RealPart(UnscaledIfft(lib, f, n, n), n);
    MappedRange(p, n, n, Share(n, n).re, 0.0);
    BelowShare(Range(p, n, n), Share(n, n).re, eps);
  }

  lemma ShareSmall(n: nat)
    requires 0 < n
    ensures n == 1 ==> Share(n, n).re == 1.0
    ensures n >= 2 ==> Share(n, n).re < 1.0
  {
    var m := n as real * n as real;
    if n >= 2 {
      assert m >= 2.0 * n as real;
      assert 1.0 / m * m == 1.0;
    }
  }

  lemma BelowShare(range: real, s: real, eps: real)
    requires s * range == eps && 0.0 < s < 1.0 && eps > 0.0
    ensures range > eps
  {
    ZeroOrOne(range, s);
    var t := 1.0 - s;
    ZeroOrOne(range, t);
    assert t * range == range - s * range;
  }

  /** The scale decides on no spectrum exactly when there is no scale or no threshold. */
  lemma ScaleNeverDecidesExactly(lib: Library, n: nat, eps: real)
    requires lib.Valid() && 0 < n && eps >= 0.0
    ensures (forall f: Frame | Rect(f, n, n) :: SameSide(lib, f, n, eps)) <==> n == 1 || eps == 0.0
  {
    hide SameSide, IsPhase, Fft;
    if n == 1 || eps == 0.0 {
      forall f: Frame | Rect(f, n, n) ensures SameSide(lib, f, n, eps) {
        ScaleHarmless(lib, f, n, eps);
      }
    } else {
      ScaleDecides(lib, n, eps);
    }
  }

  lemma ScaleHarmless(lib: Library, f: Frame, n: nat, eps: real)
    requires 0 < n && Rect(f, n, n) && (n == 1 || eps == 0.0)
    ensures SameSide(lib, f, n, eps)
  {
    hide Ifft, UnscaledIfft, Range, Share;
    SharePositive(n);
    ShareSmall(n);
    ScaledPart(lib, f, n);
    var p := RealPart(UnscaledIfft(lib, f, n, n), n);
    MappedRange(p, n, n, Share(n, n).re, 0.0);
    ZeroOrOne(Range(p, n, n), Share(n, n).re);
  }

  lemma ZeroOrOne(range: real, s: real)
    requires s > 0.0
    ensures s * range > 0.0 <==> range > 0.0
    ensures s == 1.0 ==> s * range == range
  {
    if range <= 0.0 {
      ProductNonNegative(s, -range);
    }
  }

  /** The first plane of the scaled transform is the scaled first plane. */
  lemma ScaledPart(lib: Library, f: Frame, n: nat)
    requires 0 < n && Rect(f, n, n)
    ensures RealPart(Ifft(lib, f, n, n), n)
            == Mapped(RealPart(UnscaledIfft(lib, f, n, n), n), n, n, Share(n, n).re, 0.0)
  {
    hide UnscaledIfft, Share, Mul, Affine;
    SharePositive(n);
    var u := UnscaledIfft(lib, f, n, n);
    var q, m := RealPart(Ifft(lib, f, n, n), n), Mapped(RealPart(u, n), n, n, Share(n, n).re, 0.0);
    forall i, j | 0 <= i < n && 0 <= j < n ensures q[i][j] == m[i][j] {
      PartOfProduct(Share(n, n).re, u[i][j]);
    }
    GridEqual(q, m, n, n);
  }

  lemma PartOfProduct(s: real, a: Complex)
    ensures Mul(Complex(s, 0.0), a).re == Affine(s, 0.0, a.re)
  {
  }

  lemma SharePositive(n: nat)
    requires 0 < n
    ensures Share(n, n) == Complex(Share(n, n).re, 0.0) && Share(n, n).re > 0.0
  {
    assert n as real * n as real > 0.0;
  }

  /** A transfer function that changes sign under index negation. */
  ghost predicate Odd(t: RealFrame, n: nat)
    requires Rect(t, n, n) && 0 < n
  {
    forall k, l :: 0 <= k < n && 0 <= l < n ==> NegatedAt(t, n, k, l)
  }

  predicate NegatedAt(t: RealFrame, n: nat, k: int, l: int)
    requires Rect(t, n, n) && 0 <= k < n && 0 <= l < n
  {
    t[(-k) % n][(-l) % n] == -t[k][l]
  }

  /** Rescaling to [-1, 1] keeps odd symmetry where there is contrast. */
  lemma NormalizedStaysOdd(t: RealFrame, n: nat, eps: real)
    requires 0 < n && Rect(t, n, n) && eps >= 0.0 && Odd(t, n) && Range(t, n, n) > eps
    ensures Odd(Normalized(t, n, n, -1.0, 1.0, eps), n)
  {
    hide Low, High, Affine;
    var lo, hi := Low(t, n, n), High(t, n, n);
    OddExtremes(t, n);
    var k := Factor(hi - lo, -1.0, 1.0, eps);
    FactorSpan(hi - lo, -1.0, 1.0, eps);
    var b := Offset(k, lo, -1.0, 1.0);
    assert b == 0.0 by {
      assert k * (hi - lo) == 2.0;
      assert hi == -lo;
      assert k * (hi - lo) == -2.0 * (k * lo);
    }
    hide Factor, Offset;
    var r := Normalized(t, n, n, -1.0, 1.0, eps);
    forall i, j | 0 <= i < n && 0 <= j < n ensures NegatedAt(r, n, i, j) {
      assert NegatedAt(t, n, i, j);
      AffineOdd(k, t[i][j]);
    }
  }

  lemma AffineOdd(k: real, x: real)
    ensures Affine(k, 0.0, -x) == -Affine(k, 0.0, x)
  {
  }

  lemma OddExtremes(t: RealFrame, n: nat)
    requires 0 < n && Rect(t, n, n) && Odd(t, n)
    ensures High(t, n, n) == -Low(t, n, n)
  {
    hide Low, High;
    var lo, hi := Low(t, n, n), High(t, n, n);
    var i, j :| 0 <= i < n && 0 <= j < n && t[i][j] == lo;
    var k, l :| 0 <= k < n && 0 <= l < n && t[k][l] == hi;
    assert NegatedAt(t, n, i, j) && NegatedAt(t, n, k, l);
    assert -lo == t[(-i) % n][(-j) % n] <= hi;
    assert lo <= t[(-k) % n][(-l) % n] == -hi;
  }

  /** A rescaled odd transfer function is zero at frequency zero, and -1 there if it had no contrast. */
  lemma NormalizedAtZero(t: RealFrame, n: nat, eps: real)
    requires 0 < n && Rect(t, n, n) && eps >= 0.0 && Odd(t, n)
    ensures Normalized(t, n, n, -1.0, 1.0, eps)[0][0] == if Range(t, n, n) > eps then 0.0 else -1.0
  {
    hide Normalized, Range;
    DivModUnique(0, n, 0, 0);
    if Range(t, n, n) > eps {
      NormalizedStaysOdd(t, n, eps);
      assert NegatedAt(Normalized(t, n, n, -1.0, 1.0, eps), n, 0, 0);
    } else {
      NormalizedFlat(t, n, n, -1.0, 1.0, eps, 0, 0);
    }
  }

  /** Rescaling to [-1, 1] keeps an odd transfer function odd exactly if it has contrast. */
  lemma NormalizedOdd(t: RealFrame, n: nat, eps: real)
    requires 0 < n && Rect(t, n, n) && eps >= 0.0 && Odd(t, n)
    ensures Odd(Normalized(t, n, n, -1.0, 1.0, eps), n) <==> Range(t, n, n) > eps
  {
    hide Normalized, Range;
    if Range(t, n, n) > eps {
      NormalizedStaysOdd(t, n, eps);
    } else {
      NormalizedAtZero(t, n, eps);
      DivModUnique(0, n, 0, 0);
      assert !NegatedAt(Normalized(t, n, n, -1.0, 1.0, eps), n, 0, 0);
    }
  }

  /** A rescaled image has values between 0 and 255, and reaches 255. */
  lemma LevelsReach(g: RealFrame, n: nat) returns (i: nat, j: nat)
    requires 0 < n && Rect(g, n, n) && ToLevels(g, n, n).Levels?
    ensures i < n && j < n && ToLevels(g, n, n).px[i][j] == 255
    ensures forall r, c :: 0 <= r < n && 0 <= c < n ==> 0 <= ToLevels(g, n, n).px[r][c] <= 255
  {
    hide Level, Low, High, ToLevels;
    var k, l :| 0 <= k < n && 0 <= l < n && g[k][l] == High(g, n, n);
    LevelBounded(High(g, n, n), Low(g, n, n), High(g, n, n));
    assert Round(255.0) == 255;
    i, j := k, l;
  }

  /** A frequency where a positive real measurement meets a transfer value other than zero. */
  lemma FilteredNotReal(a: Complex, h: real)
    requires a.im == 0.0 && a.re > 0.0 && h != 0.0
    ensures h * h + 1.0 != 0.0 && FilterValue(a, h, 1.0).im != 0.0
  {
    RegularisedPositive(h, 1.0);
    FilterSolves(a, h, 1.0);
    hide FilterValue;
    if FilterValue(a, h, 1.0).im == 0.0 {
      RealNoZeroDivisors(a.re, h);
    }
  }

  /** For odd transfer functions, the phase that the pipeline recovers from any two differential images is
      real exactly when both transfer functions have contrast: one without is rescaled to -1 everywhere. */
  lemma PipelinePhaseRealExactly(lib: Library, g1: RealFrame, g2: RealFrame, t1: RealFrame, t2: RealFrame, n: nat, eps: real)
    requires lib.Valid() && 0 < n && eps >= 0.0 && Rect(g1, n, n) && Rect(g2, n, n) && Rect(t1, n, n) && Rect(t2, n, n)
    requires ToLevels(g1, n, n).Levels? && ToLevels(g2, n, n).Levels? && Odd(t1, n) && Odd(t2, n)
    ensures var x, y := Widened(ToLevels(g1, n, n).px, n), Widened(ToLevels(g2, n, n).px, n);
      var u1, u2 := Normalized(t1, n, n, -1.0, 1.0, eps), Normalized(t2, n, n, -1.0, 1.0, eps);
      Regular(u1, u2, 1.0, n) &&
      (IsReal(ComplexPhase(lib, x, y, u1, u2, 1.0, n), n) <==> Range(t1, n, n) > eps && Range(t2, n, n) > eps)
  {
    hide Normalized, Range, ComplexPhase, IsReal, IsPhase, ToLevels;
    var x, y := Widened(ToLevels(g1, n, n).px, n), Widened(ToLevels(g2, n, n).px, n);
    var u1, u2 := Normalized(t1, n, n, -1.0, 1.0, eps), Normalized(t2, n, n, -1.0, 1.0, eps);
    PositiveRegular(u1, u2, 1.0, n);
    if Range(t1, n, n) > eps && Range(t2, n, n) > eps {
      NormalizedStaysOdd(t1, n, eps);
      NormalizedStaysOdd(t2, n, eps);
      forall k, l | 0 <= k < n && 0 <= l < n ensures OddAt(u1, u2, 1.0, n, k, l) {
        assert NegatedAt(u1, n, k, l) && NegatedAt(u2, n, k, l);
      }
      PhaseIsReal(lib, x, y, u1, u2, 1.0, n);
    } else {
      NormalizedAtZero(t1, n, eps);
      NormalizedAtZero(t2, n, eps);
      var i, j := LevelsReach(g1, n);
      var k, l := LevelsReach(g2, n);
      BiasedPhase(lib, x, y, u1, u2, n, i, j, k, l);
    }
  }

  /** Two images with light and a transfer value other than zero at frequency zero give a phase that is not real. */
  lemma BiasedPhase(lib: Library, x: RealFrame, y: RealFrame, u1: RealFrame, u2: RealFrame, n: nat,
                    i: nat, j: nat, k: nat, l: nat)
    requires lib.Valid() && Rect(x, n, n) && Rect(y, n, n) && Rect(u1, n, n) && Rect(u2, n, n)
    requires i < n && j < n && x[i][j] > 0.0 && k < n && l < n && y[k][l] > 0.0
    requires forall r, c :: 0 <= r < n && 0 <= c < n ==> x[r][c] >= 0.0 && y[r][c] >= 0.0
    requires Regular(u1, u2, 1.0, n) && u1[0][0] + u2[0][0] != 0.0
    ensures !IsReal(ComplexPhase(lib, x, y, u1, u2, 1.0, n), n)
  {
    hide IsPhase, Fft, UnscaledIfft, FilterValue, IsReal;
    var f0, f1 := Fft(lib, Complexified(x, n, n), n, n), Fft(lib, Complexified(y, n, n), n, n);
    BrightCoefficient(lib, x, n, i, j);
    BrightCoefficient(lib, y, n, k, l);
    var f: Frame := Filtered(f0, f1, u1, u2, 1.0, n);
    RealExactlyHermitian(lib, f, n);
    FilteredNotReal(Add(f0[0][0], f1[0][0]), Transfer(u1, u2, n, 0, 0));
    DivModUnique(0, n, 0, 0);
    RealIsSelfConjugate(f[0][0]);
  }
}
