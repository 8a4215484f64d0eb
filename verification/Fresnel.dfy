/** The transforms and the Fresnel propagation of cvComplex.cpp, as they update matrix headers and buffers. */
module Fresnel {
  import opened Grids
  import opened CircularShifts
  import opened ComplexField
  import opened Fourier
  import opened Spectra
  import opened ComplexMats
  import opened FresnelTheory
  import opened PlaneWaves

  /** Writes a value to an output header: into its buffer when the size fits, into a new one otherwise. */
  method Store(value: array2<Complex>, output: Mat<Complex>)
    requires value != output.data
    modifies output, output.data
    ensures output.data.Length0 == value.Length0 && output.data.Length1 == value.Length1
    ensures View(output.data) == View(value)
    ensures output.data == old(output.data) || fresh(output.data)
  {
    if value.Length0 != output.data.Length0 || value.Length1 != output.data.Length1 {
      var copy := Clone(value);
      output.data := copy;
    } else {
      var o := output.data;
      forall i, j | 0 <= i < o.Length0 && 0 <= j < o.Length1 {
        o[i, j] := value[i, j];
      }
      GridEqual(View(o), View(value), o.Length0, o.Length1);
    }
  }

  /** A frame extended below and to the right by zeros. */
  function Padded(g: Frame, h: nat, w: nat, m: nat, n: nat): (p: Frame)
    requires Rect(g, h, w) && h <= m && w <= n
    ensures Rect(p, m, n)
    ensures forall i, j :: 0 <= i < m && 0 <= j < n ==> p[i][j] == if i < h && j < w then g[i][j] else ZERO
    ensures m == h && n == w ==> p == g
  {
    var p := seq(m, i requires 0 <= i < m => seq(n, j requires 0 <= j < n => if i < h && j < w then g[i][j] else ZERO));
    if m == h && n == w then GridEqual(p, g, h, w); p else p
  }

  /** A new buffer that holds a given frame. */
  method Render(g: Frame, h: nat, w: nat) returns (a: array2<Complex>)
    requires Rect(g, h, w)
    ensures fresh(a) && a.Length0 == h && a.Length1 == w && View(a) == g
  {
    a := new Complex[h, w]((i, j) requires 0 <= i < h && 0 <= j < w => g[i][j]);
    GridEqual(View(a), g, h, w);
  }

  /** Forward transform of the input, zero padded to the library's preferred size. */
  method Fft2(lib: Library, input: Mat<Complex>, output: Mat<Complex>)
    requires lib.Valid() && !input.Empty()
    modifies output, output.data
    ensures output.data == old(output.data) || fresh(output.data)
    ensures output.data.Length0 == lib.optimalSize(old(input.data.Length0))
    ensures output.data.Length1 == lib.optimalSize(old(input.data.Length1))
    ensures View(output.data) == old(Fft(lib, Padded(View(input.data), input.data.Length0, input.data.Length1,
      lib.optimalSize(input.data.Length0), lib.optimalSize(input.data.Length1)),
      lib.optimalSize(input.data.Length0), lib.optimalSize(input.data.Length1)))
  {
    var h, w := input.data.Length0, input.data.Length1;
    var m, n := lib.optimalSize(h), lib.optimalSize(w);
    var spectrum := Render(Fft(lib, Padded(View(input.data), h, w, m, n), m, n), m, n);
    Store(spectrum, output);
  }

  /** Backward transform with its scale factor, padded in the same way. */
  method Ifft2(lib: Library, input: Mat<Complex>, output: Mat<Complex>)
    requires lib.Valid() && !input.Empty()
    modifies output, output.data
    ensures output.data == old(output.data) || fresh(output.data)
    ensures output.data.Length0 == lib.optimalSize(old(input.data.Length0))
    ensures output.data.Length1 == lib.optimalSize(old(input.data.Length1))
    ensures View(output.data) == old(Ifft(lib, Padded(View(input.data), input.data.Length0, input.data.Length1,
      lib.optimalSize(input.data.Length0), lib.optimalSize(input.data.Length1)),
      lib.optimalSize(input.data.Length0), lib.optimalSize(input.data.Length1)))
  {
    var h, w := input.data.Length0, input.data.Length1;
    var m, n := lib.optimalSize(h), lib.optimalSize(w);
    var image := Render(Ifft(lib, Padded(View(input.data), h, w, m, n), m, n), m, n);
    Store(image, output);
  }

  /** The kernel for an input frame, entry by entry: `i` over its columns and `j` over its rows, so that the
      kernel has rows and columns exchanged. */
  method GenFresnelKernel(lib: Library, input: Mat<Complex>, s: Setup, z: real) returns (kernel: array2<Complex>)
    requires !input.Empty() && Usable(s)
    ensures fresh(kernel) && kernel.Length0 == input.data.Length1 && kernel.Length1 == input.data.Length0
    ensures View(kernel) == Kernels(lib, s, input.data.Length1, input.data.Length0, z)
    ensures lib.Valid() ==> forall i, j :: 0 <= i < kernel.Length0 && 0 <= j < kernel.Length1 ==>
      kernel[i, j] == lib.cis(ParaxialAngle(lib.pi, s, z, kernel.Length0, kernel.Length1,
        i - kernel.Length0 / 2, j - kernel.Length1 / 2))
  {
    hide KernelValue, Frequency, ParaxialAngle, IsPhase;
    var cols, rows := input.data.Length1, input.data.Length0;
    ghost var want := Kernels(lib, s, cols, rows, z);
    kernel := new Complex[cols, rows];
    for i := 0 to cols
      invariant forall r, c :: 0 <= r < i && 0 <= c < rows ==> kernel[r, c] == want[r][c]
    {
      for j := 0 to rows
        invariant forall r, c :: 0 <= r < i && 0 <= c < rows ==> kernel[r, c] == want[r][c]
        invariant forall c :: 0 <= c < j ==> kernel[i, c] == want[i][c]
      {
        var fx := Frequency(i, cols, s.pixel);
        var fy := Frequency(j, rows, s.pixel);
        var q := fx * fx + fy * fy;
        assert q == SquaredFrequency(i, j, cols, rows, s.pixel);
        kernel[i, j] := KernelValue(lib, s, z, q);
      }
    }
    GridEqual(View(kernel), want, cols, rows);
    if lib.Valid() {
      forall i, j | 0 <= i < cols && 0 <= j < rows
        ensures kernel[i, j] == lib.cis(ParaxialAngle(lib.pi, s, z, cols, rows, i - cols / 2, j - rows / 2))
      {
        KernelEntry(lib, s, cols, rows, z, i, j);
      }
    }
  }

  /** Propagates `input` over the distance `z` into `output`. It fails exactly on frames that are not
      square, because the in-place shift of the spectrum does. */
  method FresnelProp(lib: Library, input: Mat<Complex>, output: Mat<Complex>, s: Setup, z: real) returns (ok: bool)
    requires lib.Valid() && Usable(s) && !input.Empty()
    requires lib.optimalSize(input.data.Length0) == input.data.Length0
    requires lib.optimalSize(input.data.Length1) == input.data.Length1
    modifies output, output.data
    ensures ok <==> old(input.data.Length0 == input.data.Length1)
    ensures !ok ==> output.data == old(output.data) && View(output.data) == old(View(output.data))
    ensures ok ==> Rect(View(output.data), old(input.data.Length0), old(input.data.Length0))
    ensures ok ==> View(output.data) == old(Propagated(lib, s, View(input.data), input.data.Length0, z))
  {
    hide IsPhase, Fft, Ifft, FftShifted, Multiplied, Kernels;
    var n := input.data.Length0;
    ghost var g := View(input.data);
    var kernel := new Mat<Complex>(0, 0);
    kernel.data := GenFresnelKernel(lib, input, s, z);
    var spectrum := new Mat<Complex>(0, 0);
    Fft2(lib, input, spectrum);
    ok := FftShift(spectrum, spectrum);
    if !ok {
      return;
    }
    assert View(spectrum.data) == CentredFft(lib, g, n);
    var filtered := FilterSpectrum(spectrum, kernel, n);
    Ifft2(lib, filtered, output);
  }

  /** The centred spectrum times the kernel, shifted once more, in a matrix of its own. */
  method FilterSpectrum(spectrum: Mat<Complex>, kernel: Mat<Complex>, n: nat) returns (filtered: Mat<Complex>)
    requires 0 < n && spectrum.data.Length0 == spectrum.data.Length1 == kernel.data.Length0 == kernel.data.Length1 == n
    ensures fresh(filtered) && fresh(filtered.data) && filtered.data.Length0 == filtered.data.Length1 == n
    ensures View(filtered.data) == FftShifted(Multiplied(View(spectrum.data), View(kernel.data), n, n), n, n)
  {
    hide FftShifted, Multiplied, WrittenProduct;
    filtered := new Mat<Complex>(0, 0);
    ComplexMultiply(spectrum, kernel, filtered);
    ProductView(spectrum.data, kernel.data, filtered.data, n);
    var ok := FftShift(filtered, filtered);
  }

  lemma ProductView(a: array2<Complex>, b: array2<Complex>, o: array2<Complex>, n: nat)
    requires a.Length0 == b.Length0 == o.Length0 == n && a.Length1 == b.Length1 == o.Length1 == n
    requires forall r, c :: 0 <= r < n && 0 <= c < n ==> o[r, c] == WrittenProduct(a[r, c], b[r, c], false, false)
    ensures View(o) == Multiplied(View(a), View(b), n, n)
  {
    hide Mul, WrittenProduct;
    var want := Multiplied(View(a), View(b), n, n);
    forall r, c | 0 <= r < n && 0 <= c < n ensures View(o)[r][c] == want[r][c] {
      ProductInPlace(a[r, c], b[r, c]);
    }
    GridEqual(View(o), want, n, n);
  }
}
