/** The shift family of cvComplex.cpp: block copies that implement a two-dimensional rotation. */
module CircularShifts {
  import opened Modulo
  import opened Grids

  /** A matrix header. Headers share pixel buffers; assigning a header moves it to another buffer. */
  class Mat<T(0)> {
    var data: array2<T>

    constructor (rows: nat, cols: nat)
      ensures fresh(data) && data.Length0 == rows && data.Length1 == cols
    {
      data := new T[rows, cols];
    }

    predicate Empty()
      reads this
    {
      data.Length0 == 0 || data.Length1 == 0
    }
  }

  /** A region of interest: column and row of its top left corner, then its size. */
  datatype Roi = Roi(x: nat, y: nat, width: nat, height: nat)

  predicate Fits<T>(roi: Roi, a: array2<T>) {
    roi.x + roi.width <= a.Length1 && roi.y + roi.height <= a.Length0
  }

  predicate Inside(roi: Roi, i: int, j: int) {
    roi.y <= i < roi.y + roi.height && roi.x <= j < roi.x + roi.width
  }

  /** The remainder of C++: it takes the sign of the dividend. */
  function TruncatedRemainder(x: int, n: int): int
    requires 0 < n
  {
    if x >= 0 then x % n else -((-x) % n)
  }

  /** Adding one turn to a negative remainder gives the remainder in [0, n). */
  lemma FixedRemainder(x: int, n: int)
    requires 0 < n
    ensures x % n == if TruncatedRemainder(x, n) < 0 then TruncatedRemainder(x, n) + n else TruncatedRemainder(x, n)
  {
    if x < 0 {
      ModEarly(-x, 0, n);
      var t := (-x) % n;
      assert -x == ((-x) / n) * n + t;
      if t == 0 {
        DivModUnique(x, n, -((-x) / n), 0);
      } else {
        DivModUnique(x, n, -((-x) / n) - 1, n - t);
      }
    }
  }

  /** The frame `base` with region `gate` of `g` pasted over its region `out`. */
  ghost function Paste<T>(base: seq<seq<T>>, bh: nat, bw: nat, out: Roi, g: seq<seq<T>>, h: nat, w: nat, gate: Roi)
    : (r: seq<seq<T>>)
    requires Rect(base, bh, bw) && Rect(g, h, w)
    requires gate.x + gate.width <= w && gate.y + gate.height <= h
    requires gate.width == out.width && gate.height == out.height
    ensures Rect(r, bh, bw)
    ensures forall i, j :: 0 <= i < bh && 0 <= j < bw ==>
      r[i][j] == if Inside(out, i, j) then g[i - out.y + gate.y][j - out.x + gate.x] else base[i][j]
  {
    seq(bh, i requires 0 <= i < bh => seq(bw, j requires 0 <= j < bw =>
      if Inside(out, i, j) then g[i - out.y + gate.y][j - out.x + gate.x] else base[i][j]))
  }

  /** A buffer whose pixels are those of a pasted frame holds that frame. */
  lemma PasteView<T>(img: array2<T>, gate: Roi, result: array2<T>, out: Roi, base: seq<seq<T>>)
    requires Fits(gate, img) && gate.width == out.width && gate.height == out.height
    requires Rect(base, result.Length0, result.Length1)
    requires forall i, j :: 0 <= i < result.Length0 && 0 <= j < result.Length1 ==>
      result[i, j] == if Inside(out, i, j) then img[i - out.y + gate.y, j - out.x + gate.x] else base[i][j]
    ensures View(result) == Paste(base, result.Length0, result.Length1, out, View(img), img.Length0, img.Length1, gate)
  {
    GridEqual(View(result), Paste(base, result.Length0, result.Length1, out, View(img), img.Length0, img.Length1, gate),
              result.Length0, result.Length1);
  }

  /** Copies one region; a destination region outside its buffer is refused before anything is written. */
  method CopyTo<T>(img: array2<T>, gate: Roi, result: array2<T>, out: Roi) returns (ok: bool)
    requires img != result
    requires Fits(gate, img) && gate.width == out.width && gate.height == out.height
    modifies result
    ensures ok <==> Fits(out, result)
    ensures !ok ==> View(result) == old(View(result))
    ensures ok ==> View(result) == Paste(old(View(result)), result.Length0, result.Length1, out,
      View(img), img.Length0, img.Length1, gate)
  {
    if !Fits(out, result) {
      return false;
    }
    ghost var base := View(result);
    forall i, j | out.y <= i < out.y + out.height && out.x <= j < out.x + out.width {
      result[i, j] := img[i - out.y + gate.y, j - out.x + gate.x];
    }
    PasteView(img, gate, result, out, base);
    return true;
  }

  /** A shift reduced to the frame: the C++ remainder, with one turn added when it is negative. */
  function Turn(x: int, n: int): (shift: nat)
    requires 0 < n
    ensures shift < n && shift == x % n
  {
    var shift := TruncatedRemainder(x, n);
    FixedRemainder(x, n);
    if shift < 0 then shift + n else shift
  }

  /** Rotates `img` right by `x` and down by `y` into `result`, four blocks at a time. It fails, and
      writes nothing, exactly when the destination is smaller than the image. */
  method CircularShift<T>(img: array2<T>, result: array2<T>, x: int, y: int) returns (ok: bool)
    requires 0 < img.Length0 && 0 < img.Length1 && img != result
    modifies result
    ensures ok <==> img.Length0 <= result.Length0 && img.Length1 <= result.Length1
    ensures !ok ==> View(result) == old(View(result))
    ensures ok ==> View(result) == Overlay(old(View(result)), result.Length0, result.Length1,
      Rotate(View(img), img.Length0, img.Length1, y, x), img.Length0, img.Length1)
  {
    var w, h := img.Length1, img.Length0;
    var shiftR := Turn(x, w);
    var shiftD := Turn(y, h);
    var gate1, out1 := Roi(0, 0, w - shiftR, h - shiftD), Roi(shiftR, shiftD, w - shiftR, h - shiftD);
    var gate2, out2 := Roi(w - shiftR, 0, shiftR, h - shiftD), Roi(0, shiftD, shiftR, h - shiftD);
    var gate3, out3 := Roi(0, h - shiftD, w - shiftR, shiftD), Roi(shiftR, 0, w - shiftR, shiftD);
    var gate4, out4 := Roi(w - shiftR, h - shiftD, shiftR, shiftD), Roi(0, 0, shiftR, shiftD);
    ok := CopyTo(img, gate1, result, out1);
    if !ok {
      return;
    }
    ok := CopyTo(img, gate2, result, out2);
    ok := CopyTo(img, gate3, result, out3);
    ok := CopyTo(img, gate4, result, out4);
    assert View(result) == Blocks(old(View(result)), result.Length0, result.Length1, View(img), h, w, shiftD, shiftR);
    BlocksRotate(old(View(result)), result.Length0, result.Length1, View(img), h, w, y, x);
  }

  /** The four destination regions of a rotation by d rows and r columns. */
  function Outs(h: nat, w: nat, d: nat, r: nat): (outs: seq<Roi>)
    requires d <= h && r <= w
    ensures |outs| == 4
  {
    [Roi(r, d, w - r, h - d), Roi(0, d, r, h - d), Roi(r, 0, w - r, d), Roi(0, 0, r, d)]
  }

  /** Four block copies, in the order in which `CircularShift` makes them. */
  ghost function Blocks<T>(base: seq<seq<T>>, bh: nat, bw: nat, g: seq<seq<T>>, h: nat, w: nat, d: nat, r: nat)
    : (b: seq<seq<T>>)
    requires Rect(base, bh, bw) && Rect(g, h, w) && d <= h && r <= w
    ensures Rect(b, bh, bw)
  {
    var outs := Outs(h, w, d, r);
    var b1 := Paste(base, bh, bw, outs[0], g, h, w, Roi(0, 0, w - r, h - d));
    var b2 := Paste(b1, bh, bw, outs[1], g, h, w, Roi(w - r, 0, r, h - d));
    var b3 := Paste(b2, bh, bw, outs[2], g, h, w, Roi(0, h - d, w - r, d));
    Paste(b3, bh, bw, outs[3], g, h, w, Roi(w - r, h - d, r, d))
  }

  /** The four block copies together are one rotation. */
  lemma BlocksRotate<T>(base: seq<seq<T>>, bh: nat, bw: nat, g: seq<seq<T>>, h: nat, w: nat, y: int, x: int)
    requires Rect(base, bh, bw) && Rect(g, h, w) && 0 < h <= bh && 0 < w <= bw
    ensures Blocks(base, bh, bw, g, h, w, y % h, x % w) == Overlay(base, bh, bw, Rotate(g, h, w, y, x), h, w)
  {
    var d, r := y % h, x % w;
    var b4 := Blocks(base, bh, bw, g, h, w, d, r);
    var want := Overlay(base, bh, bw, Rotate(g, h, w, y, x), h, w);
    forall i, j | 0 <= i < bh && 0 <= j < bw ensures b4[i][j] == want[i][j] {
      Destinations(h, w, d, r, i, j);
      if i < h && j < w {
        Source(i, y, h);
        Source(j, x, w);
      }
    }
    GridEqual(b4, want, bh, bw);
  }

  /** Where the pixel that lands at index `i` comes from. */
  lemma Source(i: int, y: int, n: int)
    requires 0 <= i < n
    ensures (i - y) % n == if i >= y % n then i - y % n else i - y % n + n
  {
    ModEarly(y, i, n);
    ModWrap(i, y % n, n);
  }

  /** What the four destination regions contain. */
  lemma Destinations(h: nat, w: nat, d: nat, r: nat, i: nat, j: nat)
    requires d <= h && r <= w
    ensures Inside(Outs(h, w, d, r)[0], i, j) <==> d <= i < h && r <= j < w
    ensures Inside(Outs(h, w, d, r)[1], i, j) <==> d <= i < h && j < r
    ensures Inside(Outs(h, w, d, r)[2], i, j) <==> i < d && r <= j < w
    ensures Inside(Outs(h, w, d, r)[3], i, j) <==> i < d && j < r
  {
  }

  /** The destination regions that contain a pixel. */
  function Covering(h: nat, w: nat, d: nat, r: nat, i: nat, j: nat): set<nat>
    requires d <= h && r <= w
  {
    set k: nat | k < 4 && Inside(Outs(h, w, d, r)[k], i, j)
  }

  /** Exactly one of the four destination regions holds a pixel of the frame, and none a pixel outside it. */
  lemma Tiling(h: nat, w: nat, d: nat, r: nat, i: nat, j: nat)
    requires d <= h && r <= w
    ensures |Covering(h, w, d, r, i, j)| == if i < h && j < w then 1 else 0
  {
    Destinations(h, w, d, r, i, j);
    hide Outs, Inside;
    var k: nat := if i < d then (if j < r then 3 else 2) else (if j < r then 1 else 0);
    assert Covering(h, w, d, r, i, j) == if i < h && j < w then {k} else {};
  }

  /** Half of a length, rounded up as `fftShift` and rounded down as `ifftShift` round it. */
  function CeilHalf(n: nat): nat { (n + 1) / 2 }

  function FloorHalf(n: nat): nat { n / 2 }

  /** The branch in which a shift works through a scratch buffer. */
  predicate NeedsScratch<T(0)>(input: Mat<T>, output: Mat<T>)
    reads input, output
  {
    input.data == output.data || output.Empty()
  }

  /** The body that `fftShift` and `ifftShift` share: they differ in the shift only. In the scratch
      branch the buffer is allocated with rows and columns exchanged. */
  method ShiftThrough<T(0)>(input: Mat<T>, output: Mat<T>, x: nat, y: nat) returns (ok: bool)
    requires !input.Empty()
    modifies output, output.data
    ensures old(NeedsScratch(input, output)) ==> (ok <==> old(input.data.Length0 == input.data.Length1))
    ensures !old(NeedsScratch(input, output)) ==> (ok <==>
      old(input.data.Length0 <= output.data.Length0 && input.data.Length1 <= output.data.Length1))
    ensures !ok ==> output.data == old(output.data) && View(output.data) == old(View(output.data))
    ensures ok && old(NeedsScratch(input, output)) ==>
      fresh(output.data) &&
      output.data.Length0 == old(input.data.Length0) && output.data.Length1 == old(input.data.Length1) &&
      View(output.data) == old(Rotate(View(input.data), input.data.Length0, input.data.Length1, y, x))
    ensures old(NeedsScratch(input, output)) ==> View(old(output.data)) == old(View(output.data))
    ensures ok && !old(NeedsScratch(input, output)) ==>
      output.data == old(output.data) &&
      View(output.data) == old(Overlay(View(output.data), output.data.Length0, output.data.Length1,
        Rotate(View(input.data), input.data.Length0, input.data.Length1, y, x), input.data.Length0, input.data.Length1))
  {
    if input.data == output.data || output.Empty() {
      var shifted := new Mat<T>(input.data.Length1, input.data.Length0);
      ok := CircularShift(input.data, shifted.data, x, y);
      if ok {
        GridEqual(View(shifted.data), Rotate(View(input.data), input.data.Length0, input.data.Length1, y, x),
                  input.data.Length0, input.data.Length1);
        var copy := Clone(shifted.data);
        output.data := copy;
      }
    } else {
      ok := CircularShift(input.data, output.data, x, y);
    }
  }

  method Clone<T>(a: array2<T>) returns (b: array2<T>)
    ensures fresh(b) && b.Length0 == a.Length0 && b.Length1 == a.Length1 && View(b) == View(a)
  {
    b := new T[a.Length0, a.Length1]((i, j) requires 0 <= i < a.Length0 && 0 <= j < a.Length1 reads a => a[i, j]);
    GridEqual(View(b), View(a), a.Length0, a.Length1);
  }

  /** Moves the zero frequency of a spectrum to the centre of the frame. */
  method FftShift<T(0)>(input: Mat<T>, output: Mat<T>) returns (ok: bool)
    requires !input.Empty()
    modifies output, output.data
    ensures old(NeedsScratch(input, output)) ==> (ok <==> old(input.data.Length0 == input.data.Length1))
    ensures !old(NeedsScratch(input, output)) ==> (ok <==>
      old(input.data.Length0 <= output.data.Length0 && input.data.Length1 <= output.data.Length1))
    ensures !ok ==> output.data == old(output.data) && View(output.data) == old(View(output.data))
    ensures ok && old(NeedsScratch(input, output)) ==>
      fresh(output.data) &&
      output.data.Length0 == old(input.data.Length0) && output.data.Length1 == old(input.data.Length1) &&
      View(output.data) == old(FftShifted(View(input.data), input.data.Length0, input.data.Length1))
    ensures old(NeedsScratch(input, output)) ==> View(old(output.data)) == old(View(output.data))
    ensures ok && !old(NeedsScratch(input, output)) ==>
      output.data == old(output.data) &&
      View(output.data) == old(Overlay(View(output.data), output.data.Length0, output.data.Length1,
        FftShifted(View(input.data), input.data.Length0, input.data.Length1), input.data.Length0, input.data.Length1))
  {
    ok := ShiftThrough(input, output, CeilHalf(input.data.Length1), CeilHalf(input.data.Length0));
  }

  /** Moves the centre of the frame back to the top left corner. */
  method IfftShift<T(0)>(input: Mat<T>, output: Mat<T>) returns (ok: bool)
    requires !input.Empty()
    modifies output, output.data
    ensures old(NeedsScratch(input, output)) ==> (ok <==> old(input.data.Length0 == input.data.Length1))
    ensures !old(NeedsScratch(input, output)) ==> (ok <==>
      old(input.data.Length0 <= output.data.Length0 && input.data.Length1 <= output.data.Length1))
    ensures !ok ==> output.data == old(output.data) && View(output.data) == old(View(output.data))
    ensures ok && old(NeedsScratch(input, output)) ==>
      fresh(output.data) &&
      output.data.Length0 == old(input.data.Length0) && output.data.Length1 == old(input.data.Length1) &&
      View(output.data) == old(IfftShifted(View(input.data), input.data.Length0, input.data.Length1))
    ensures old(NeedsScratch(input, output)) ==> View(old(output.data)) == old(View(output.data))
    ensures ok && !old(NeedsScratch(input, output)) ==>
      output.data == old(output.data) &&
      View(output.data) == old(Overlay(View(output.data), output.data.Length0, output.data.Length1,
        IfftShifted(View(input.data), input.data.Length0, input.data.Length1), input.data.Length0, input.data.Length1))
  {
    ok := ShiftThrough(input, output, FloorHalf(input.data.Length1), FloorHalf(input.data.Length0));
  }

  function FftShifted<T>(g: seq<seq<T>>, h: nat, w: nat): (r: seq<seq<T>>)
    requires Rect(g, h, w) && 0 < h && 0 < w
    ensures Rect(r, h, w)
  {
    Rotate(g, h, w, CeilHalf(h), CeilHalf(w))
  }

  function IfftShifted<T>(g: seq<seq<T>>, h: nat, w: nat): (r: seq<seq<T>>)
    requires Rect(g, h, w) && 0 < h && 0 < w
    ensures Rect(r, h, w)
  {
    Rotate(g, h, w, FloorHalf(h), FloorHalf(w))
  }

  /** `ifftShift` undoes `fftShift`, and the other way round, whatever the shape. */
  lemma ShiftsInvert<T>(g: seq<seq<T>>, h: nat, w: nat)
    requires Rect(g, h, w) && 0 < h && 0 < w
    ensures IfftShifted(FftShifted(g, h, w), h, w) == g
    ensures FftShifted(IfftShifted(g, h, w), h, w) == g
  {
    HalvesAddUp(h);
    HalvesAddUp(w);
    RotateUndone(g, h, w, CeilHalf(h), CeilHalf(w), FloorHalf(h), FloorHalf(w));
    RotateUndone(g, h, w, FloorHalf(h), FloorHalf(w), CeilHalf(h), CeilHalf(w));
  }

  lemma HalvesAddUp(n: nat)
    requires 0 < n
    ensures CeilHalf(n) + FloorHalf(n) == n && n % n == 0
  {
    DivModUnique(n, n, 1, 0);
  }

  /** `fftShift` applied twice rotates each odd dimension by one. */
  lemma FftShiftTwice<T>(g: seq<seq<T>>, h: nat, w: nat)
    requires Rect(g, h, w) && 0 < h && 0 < w
    ensures FftShifted(FftShifted(g, h, w), h, w) == Rotate(g, h, w, h % 2, w % 2)
  {
    RotateCompose(g, h, w, CeilHalf(h), CeilHalf(w), CeilHalf(h), CeilHalf(w));
    TwiceHalf(h);
    TwiceHalf(w);
    RotateCongruent(g, h, w, 2 * CeilHalf(h), 2 * CeilHalf(w), h % 2, w % 2);
  }

  lemma TwiceHalf(n: nat)
    requires 0 < n
    ensures 2 * CeilHalf(n) == n + n % 2
    ensures (2 * CeilHalf(n)) % n == (n % 2) % n == if n % 2 == 0 || n == 1 then 0 else 1
  {
    ModTurns(n % 2, n, 1);
    if n > 1 {
      DivModUnique(n % 2, n, 0, n % 2);
    }
  }

  /** It is the identity on every frame exactly when each dimension is even or one. */
  lemma FftShiftTwiceIdentity(h: nat, w: nat)
    requires 0 < h && 0 < w
    ensures (forall g: seq<seq<bool>> | Rect(g, h, w) :: FftShifted(FftShifted(g, h, w), h, w) == g)
            <==> ((h % 2 == 0 || h == 1) && (w % 2 == 0 || w == 1))
  {
    TwiceHalf(h);
    TwiceHalf(w);
    RotateFaithful(h, w, h % 2, w % 2, 0, 0);
    forall g: seq<seq<bool>> | Rect(g, h, w)
      ensures FftShifted(FftShifted(g, h, w), h, w) == Rotate(g, h, w, h % 2, w % 2)
      ensures Rotate(g, h, w, 0, 0) == g
    {
      FftShiftTwice(g, h, w);
      RotateTurns(g, h, w, 0, 0);
    }
  }
}
