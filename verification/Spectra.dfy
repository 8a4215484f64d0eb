/** The two-dimensional transforms of image frames, as fft2, ifft2 and dft compute them. */
module Spectra {
  import opened Grids
  import opened ComplexField
  import opened Sums
  import opened Fourier
  import opened Dft

  type Frame = seq<seq<Complex>>

  /** The library functions whose bodies are not part of this model: t -> exp(i t), the constant pi,
      and the length to which a transform pads. */
  datatype Library = Library(cis: real -> Complex, pi: real, optimalSize: nat -> nat) {
    ghost predicate Valid() {
      && IsPhase(cis, pi)
      && forall n: nat :: n <= optimalSize(n)
    }
  }

  /** A frame as a function of its indices, zero outside. */
  function AsPlane(g: Frame, h: nat, w: nat): Plane
    requires Rect(g, h, w)
  {
    (i, j) => if 0 <= i < h && 0 <= j < w then g[i][j] else ZERO
  }

  /** The frame of a plane's first h rows and w columns. */
  function Sampled(m: Plane, h: nat, w: nat): (g: Frame)
    ensures Rect(g, h, w)
    ensures forall i, j :: 0 <= i < h && 0 <= j < w ==> g[i][j] == m(i, j)
  {
    seq(h, i => seq(w, j => m(i, j)))
  }

  /** The forward transform. */
  function Fft(lib: Library, g: Frame, h: nat, w: nat): (r: Frame)
    requires Rect(g, h, w) && 0 < h && 0 < w
    ensures Rect(r, h, w)
  {
    Sampled(Spectrum2(Forward(lib.cis, lib.pi, h), Forward(lib.cis, lib.pi, w), AsPlane(g, h, w), h, w), h, w)
  }

  /** The backward transform without its scale factor. */
  function UnscaledIfft(lib: Library, g: Frame, h: nat, w: nat): (r: Frame)
    requires Rect(g, h, w) && 0 < h && 0 < w
    ensures Rect(r, h, w)
  {
    Sampled(Spectrum2(Backward(Forward(lib.cis, lib.pi, h)), Backward(Forward(lib.cis, lib.pi, w)),
                      AsPlane(g, h, w), h, w), h, w)
  }

  /** The scale factor of an h by w transform. */
  function Share(h: nat, w: nat): Complex
    requires 0 < h && 0 < w
  {
    Complex(1.0 / (h as real * w as real), 0.0)
  }

  /** The backward transform with its scale factor. */
  function Ifft(lib: Library, g: Frame, h: nat, w: nat): (r: Frame)
    requires Rect(g, h, w) && 0 < h && 0 < w
    ensures Rect(r, h, w)
    ensures forall i, j :: 0 <= i < h && 0 <= j < w ==>
      r[i][j] == Mul(Share(h, w), UnscaledIfft(lib, g, h, w)[i][j])
  {
    var u := UnscaledIfft(lib, g, h, w);
    seq(h, i requires 0 <= i < h => seq(w, j requires 0 <= j < w => Mul(Share(h, w), u[i][j])))
  }

  lemma ShareUndoes(h: nat, w: nat, a: Complex)
    requires 0 < h && 0 < w
    ensures Mul(Share(h, w), Scale(h as real, Scale(w as real, a))) == a
  {
    var s, x, y := 1.0 / (h as real * w as real), h as real, w as real;
    assert s * (x * y) == 1.0;
    assert s * (x * (y * a.re)) == (s * (x * y)) * a.re;
    assert s * (x * (y * a.im)) == (s * (x * y)) * a.im;
  }

  /** `ifft2` undoes `fft2`. */
  lemma IfftUndoesFft(lib: Library, g: Frame, h: nat, w: nat)
    requires lib.Valid() && Rect(g, h, w) && 0 < h && 0 < w
    ensures Ifft(lib, Fft(lib, g, h, w), h, w) == g
  {
    hide Dft2, Mul, Scale, Forward, Share, IsRoot, IsPhase;
    var tr, tc, m := Forward(lib.cis, lib.pi, h), Forward(lib.cis, lib.pi, w), AsPlane(g, h, w);
    ForwardRoot(lib.cis, lib.pi, h);
    ForwardRoot(lib.cis, lib.pi, w);
    var r := Ifft(lib, Fft(lib, g, h, w), h, w);
    forall i, j | 0 <= i < h && 0 <= j < w ensures r[i][j] == g[i][j] {
      Dft2Agree(Backward(tr), Backward(tc), AsPlane(Fft(lib, g, h, w), h, w), Spectrum2(tr, tc, m, h, w), h, w, i, j);
      Dft2Inverse(tr, tc, m, h, w, i, j);
      ShareUndoes(h, w, m(i, j));
    }
    GridEqual(r, g, h, w);
  }

  /** `fft2` undoes `ifft2`. */
  lemma FftUndoesIfft(lib: Library, g: Frame, h: nat, w: nat)
    requires lib.Valid() && Rect(g, h, w) && 0 < h && 0 < w
    ensures Fft(lib, Ifft(lib, g, h, w), h, w) == g
  {
    hide Dft2, Mul, Scale, Forward, Share, IsRoot, IsPhase;
    var tr, tc, m := Forward(lib.cis, lib.pi, h), Forward(lib.cis, lib.pi, w), AsPlane(g, h, w);
    ForwardRoot(lib.cis, lib.pi, h);
    ForwardRoot(lib.cis, lib.pi, w);
    BackwardRoot(tr, h);
    BackwardRoot(tc, w);
    var x := Ifft(lib, g, h, w);
    var u := Spectrum2(Backward(tr), Backward(tc), m, h, w);
    var r := Fft(lib, x, h, w);
    forall i, j | 0 <= i < h && 0 <= j < w ensures r[i][j] == g[i][j] {
      Dft2Agree(tr, tc, AsPlane(x, h, w), ScaledPlane(Share(h, w), u), h, w, i, j);
      Dft2Scaled(tr, tc, Share(h, w), u, h, w, i, j);
      Dft2Backward(tr, tc, u, h, w, -i, -j);
      Dft2Backward(Backward(tr), Backward(tc), u, h, w, i, j);
      Dft2Inverse(Backward(tr), Backward(tc), m, h, w, i, j);
      ShareUndoes(h, w, m(i, j));
    }
    GridEqual(r, g, h, w);
  }
}
