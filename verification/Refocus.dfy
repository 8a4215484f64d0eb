/** The refocusing loop of jni_qDPC.cpp over image buffers. */
module Refocus {
  import opened Grids
  import opened CircularShifts
  import opened Accumulators
  import opened Totals
  import opened OrderOfAddition
  import opened RefocusTheory
  import opened RefocusLaws
  import opened QuantDpcTheory
  import opened DpcImages

  /** One recorded image and the LED it was lit by. */
  class RImage {
    var image: array2<Pixel>
    var ledNum: int
    var tanX: real
    var tanY: real

    constructor (image: array2<Pixel>, ledNum: int, tanX: real, tanY: real)
      ensures this.image == image && this.ledNum == ledNum && this.tanX == tanX && this.tanY == tanY
    {
      this.image, this.ledNum, this.tanX, this.tanY := image, ledNum, tanX, tanY;
    }

    /** The record as a value. */
    ghost function AsShot(): Shot
      reads this, image
    {
      Shot(View(image), image.Length0, image.Length1, ledNum, tanX, tanY)
    }
  }

  /** The stack as values. */
  ghost function Shots(stack: seq<RImage>): (s: seq<Shot>)
    reads set k | 0 <= k < |stack| :: stack[k]
    reads set k | 0 <= k < |stack| :: stack[k].image
    ensures |s| == |stack| && forall k :: 0 <= k < |stack| ==> s[k] == stack[k].AsShot()
  {
    seq(|stack|, k requires 0 <= k < |stack| reads set k | 0 <= k < |stack| :: stack[k], set k | 0 <= k < |stack| :: stack[k].image =>
      stack[k].AsShot())
  }

  predicate Sized<T>(a: array2<T>, h: nat, w: nat) { a.Length0 == h && a.Length1 == w }

  /** `add` of an image into the brightfield accumulator, channel by channel. */
  method AddImage(acc: array2<Pixel>, v: array2<Pixel>)
    requires acc != v && Sized(v, acc.Length0, acc.Length1)
    modifies acc
    ensures forall i, j :: 0 <= i < acc.Length0 && 0 <= j < acc.Length1 ==>
      acc[i, j] == old(Pixel(SaturateU(acc[i, j].blue + v[i, j].blue),
                             SaturateU(acc[i, j].green + v[i, j].green),
                             SaturateU(acc[i, j].red + v[i, j].red)))
  {
    forall i, j | 0 <= i < acc.Length0 && 0 <= j < acc.Length1 {
      acc[i, j] := Pixel(SaturateU(acc[i, j].blue + v[i, j].blue),
                         SaturateU(acc[i, j].green + v[i, j].green),
                         SaturateU(acc[i, j].red + v[i, j].red));
    }
  }

  /** Channel 1 of an image, converted to signed sixteen bits. */
  method GreenPlane(v: array2<Pixel>) returns (c: array2<S16>)
    ensures fresh(c) && Sized(c, v.Length0, v.Length1)
    ensures forall i, j :: 0 <= i < v.Length0 && 0 <= j < v.Length1 ==> c[i, j] == SaturateS(v[i, j].green)
  {
    c := new S16[v.Length0, v.Length1]((i, j) requires 0 <= i < v.Length0 && 0 <= j < v.Length1 reads v =>
      SaturateS(v[i, j].green));
  }

  /** `add` or `subtract` of a plane into a differential accumulator. */
  method AddPlane(acc: array2<S16>, c: array2<S16>, plus: bool)
    requires acc != c && Sized(c, acc.Length0, acc.Length1)
    modifies acc
    ensures forall i, j :: 0 <= i < acc.Length0 && 0 <= j < acc.Length1 ==>
      acc[i, j] == old(SaturateS(if plus then acc[i, j] + c[i, j] else acc[i, j] - c[i, j]))
  {
    if plus {
      forall i, j | 0 <= i < acc.Length0 && 0 <= j < acc.Length1 {
        acc[i, j] := SaturateS(acc[i, j] + c[i, j]);
      }
    } else {
      forall i, j | 0 <= i < acc.Length0 && 0 <= j < acc.Length1 {
        acc[i, j] := SaturateS(acc[i, j] - c[i, j]);
      }
    }
  }

  /** The accumulators after k passes over the stack. */
  ghost predicate Accumulated(bf: array2<Pixel>, lr: array2<S16>, tb: array2<S16>, shots: seq<Shot>, z: real, k: nat, h: nat, w: nat)
    requires Sized(bf, h, w) && Sized(lr, h, w) && Sized(tb, h, w) && Fitting(shots, h, w) && k <= |shots|
    reads bf, lr, tb
  {
    forall i: nat, j: nat :: i < h && j < w ==>
      bf[i, j] == BrightPixel(shots, z, k, h, w, i, j) &&
      lr[i, j] == SignedPixel(shots, LEFT, z, k, h, w, i, j) &&
      tb[i, j] == SignedPixel(shots, TOP, z, k, h, w, i, j)
  }

  /** The additions of one pass, for an image already shifted into the scratch buffer. */
  method Pass(bf: array2<Pixel>, lr: array2<S16>, tb: array2<S16>, shifted: array2<Pixel>, holeNum: int,
              ghost shots: seq<Shot>, z: real, ghost k: nat, h: nat, w: nat)
    requires Sized(bf, h, w) && Sized(lr, h, w) && Sized(tb, h, w) && Sized(shifted, h, w)
    requires bf != shifted && lr != tb
    requires Fitting(shots, h, w) && k < |shots| && shots[k].led == holeNum
    requires View(shifted) == Scratch(shots, z, k + 1, h, w)
    requires Accumulated(bf, lr, tb, shots, z, k, h, w)
    modifies bf, lr, tb
    ensures Accumulated(bf, lr, tb, shots, z, k + 1, h, w)
    ensures View(shifted) == old(View(shifted))
  {
    hide Scratch, BrightPixel, SignedPixel, View;
    AddImage(bf, shifted);
    var channel1 := GreenPlane(shifted);
    AddPlane(lr, channel1, holeNum in LEFT);
    AddPlane(tb, channel1, holeNum in TOP);
    forall i: nat, j: nat | i < h && j < w
      ensures bf[i, j] == BrightPixel(shots, z, k + 1, h, w, i, j)
      ensures lr[i, j] == SignedPixel(shots, LEFT, z, k + 1, h, w, i, j)
      ensures tb[i, j] == SignedPixel(shots, TOP, z, k + 1, h, w, i, j)
    {
      assert shifted[i, j] == Scratch(shots, z, k + 1, h, w)[i][j];
      PassAtPixel(shots, LEFT, z, k, h, w, i, j);
      PassAtPixel(shots, TOP, z, k, h, w, i, j);
    }
  }

  /** The body of the loop: shift the image into the scratch buffer, then add. */
  method ShiftAndAdd(img: array2<Pixel>, holeNum: int, tanX: real, tanY: real, shifted: array2<Pixel>,
                     bf: array2<Pixel>, lr: array2<S16>, tb: array2<S16>,
                     ghost shots: seq<Shot>, z: real, ghost k: nat, h: nat, w: nat)
    requires Sized(bf, h, w) && Sized(lr, h, w) && Sized(tb, h, w) && Sized(shifted, h, w)
    requires bf != shifted && lr != tb && img != shifted
    requires Fitting(shots, h, w) && k < |shots|
    requires shots[k] == Shot(View(img), img.Length0, img.Length1, holeNum, tanX, tanY)
    requires View(shifted) == Scratch(shots, z, k, h, w)
    requires Accumulated(bf, lr, tb, shots, z, k, h, w)
    modifies shifted, bf, lr, tb
    ensures View(shifted) == Scratch(shots, z, k + 1, h, w)
    ensures Accumulated(bf, lr, tb, shots, z, k + 1, h, w)
  {
    hide BrightPixel, SignedPixel, View, Overlay, Rotate, Displacement;
    var xShift := Displacement(z, tanX);
    var yShift := Displacement(z, tanY);
    var fits := CircularShift(img, shifted, yShift, xShift);
    assert View(shifted) == Scratch(shots, z, k + 1, h, w);
    hide Scratch, Shifted;
    Pass(bf, lr, tb, shifted, holeNum, shots, z, k, h, w);
  }

  /** The loop over the stack, with its reused scratch buffer. */
  method Accumulate(stack: seq<RImage>, fileCount: nat, z: real, h: nat, w: nat)
    returns (bf: array2<Pixel>, lr: array2<S16>, tb: array2<S16>)
    requires fileCount <= |stack| && Fitting(Shots(stack)[..fileCount], h, w)
    ensures fresh(bf) && fresh(lr) && fresh(tb) && Sized(bf, h, w) && Sized(lr, h, w) && Sized(tb, h, w)
    ensures Accumulated(bf, lr, tb, Shots(stack)[..fileCount], z, fileCount, h, w)
  {
    hide Scratch, View, Accumulated;
    ghost var shots := Shots(stack)[..fileCount];
    var shifted;
    bf, lr, tb, shifted := NewBuffers(shots, z, h, w);
    for idx := 0 to fileCount
      invariant View(shifted) == Scratch(shots, z, idx, h, w)
      invariant Accumulated(bf, lr, tb, shots, z, idx, h, w)
    {
      var r := stack[idx];
      assert shots[idx] == r.AsShot();
      ShiftAndAdd(r.image, r.ledNum, r.tanX, r.tanY, shifted, bf, lr, tb, shots, z, idx, h, w);
    }
  }

  /** The accumulators and the scratch buffer before the loop: all zero. */
  method NewBuffers(ghost shots: seq<Shot>, ghost z: real, h: nat, w: nat)
    returns (bf: array2<Pixel>, lr: array2<S16>, tb: array2<S16>, shifted: array2<Pixel>)
    requires Fitting(shots, h, w)
    ensures fresh(bf) && fresh(lr) && fresh(tb) && fresh(shifted) && bf != shifted && lr != tb
    ensures Sized(bf, h, w) && Sized(lr, h, w) && Sized(tb, h, w) && Sized(shifted, h, w)
    ensures View(shifted) == Scratch(shots, z, 0, h, w) && Accumulated(bf, lr, tb, shots, z, 0, h, w)
  {
    bf := new Pixel[h, w]((i, j) => Pixel(0, 0, 0));
    lr := new S16[h, w]((i, j) => 0);
    tb := new S16[h, w]((i, j) => 0);
    shifted := new Pixel[h, w]((i, j) => Pixel(0, 0, 0));
    GridEqual(View(shifted), Blank(h, w), h, w);
  }

  /** The channels of an image side by side, as a scan over all channels sees them. */
  ghost function Interleaved(shots: seq<Shot>, z: real, k: nat, h: nat, w: nat): (g: RealFrame)
    requires Fitting(shots, h, w) && k <= |shots|
    ensures Rect(g, h, 3 * w)
  {
    seq(h, i requires 0 <= i < h => seq(3 * w, j requires 0 <= j < 3 * w =>
      ChannelAt(BrightPixel(shots, z, k, h, w, i, j / 3), j)))
  }

  function ChannelAt(p: Pixel, j: nat): real {
    Get(p, if j % 3 == 0 then Blue else if j % 3 == 1 then Green else Red) as real
  }

  function Reals(g: seq<seq<int>>, h: nat, w: nat): (r: RealFrame)
    requires Rect(g, h, w)
    ensures Rect(r, h, w)
    ensures forall i, j :: 0 <= i < h && 0 <= j < w ==> r[i][j] == g[i][j] as real
  {
    seq(h, i requires 0 <= i < h => seq(w, j requires 0 <= j < w => g[i][j] as real))
  }

  /** An accumulator rescaled to eight bits, or the report that it is constant. */
  method Rescale(plane: array2<S16>, ghost want: seq<seq<int>>) returns (r: Rescaled)
    requires 0 < plane.Length0 && 0 < plane.Length1 && Rect(want, plane.Length0, plane.Length1)
    requires forall i, j :: 0 <= i < plane.Length0 && 0 <= j < plane.Length1 ==> plane[i, j] == want[i][j]
    ensures r == ToLevels(Reals(want, plane.Length0, plane.Length1), plane.Length0, plane.Length1)
  {
    hide ToLevels;
    var h, w := plane.Length0, plane.Length1;
    var wide := new real[h, w]((i, j) requires 0 <= i < h && 0 <= j < w reads plane => plane[i, j] as real);
    GridEqual(View(wide), Reals(want, h, w), h, w);
    r := ToLevels(View(wide), h, w);
  }

  method RescaleColours(bf: array2<Pixel>, ghost shots: seq<Shot>, ghost z: real, ghost k: nat) returns (r: Rescaled)
    requires 0 < bf.Length0 && 0 < bf.Length1 && Fitting(shots, bf.Length0, bf.Length1) && k <= |shots|
    requires forall i: nat, j: nat :: i < bf.Length0 && j < bf.Length1 ==>
      bf[i, j] == BrightPixel(shots, z, k, bf.Length0, bf.Length1, i, j)
    ensures r == ToLevels(Interleaved(shots, z, k, bf.Length0, bf.Length1), bf.Length0, 3 * bf.Length1)
  {
    hide ToLevels, BrightPixel, ChannelAt;
    var h, w := bf.Length0, bf.Length1;
    var wide := new real[h, 3 * w]((i, j) requires 0 <= i < h && 0 <= j < 3 * w reads bf => ChannelAt(bf[i, j / 3], j));
    GridEqual(View(wide), Interleaved(shots, z, k, h, w), h, 3 * w);
    r := ToLevels(View(wide), h, 3 * w);
  }

  /** The three results after k passes: brightfield, left-right and top-bottom. */
  ghost function FocusResults(shots: seq<Shot>, z: real, k: nat, h: nat, w: nat): seq<Rescaled>
    requires Fitting(shots, h, w) && k <= |shots| && 0 < h && 0 < w
  {
    [ToLevels(Interleaved(shots, z, k, h, w), h, 3 * w),
     ToLevels(Reals(SignedFrame(shots, LEFT, z, k, h, w), h, w), h, w),
     ToLevels(Reals(SignedFrame(shots, TOP, z, k, h, w), h, w), h, w)]
  }

  /** g holds, channel by channel and cut off at 65535, the sums of the values that arrive at each pixel. */
  ghost predicate Colours(g: RealFrame, shots: seq<Shot>, xs: seq<int>, ys: seq<int>, h: nat, w: nat)
    requires Uniform(shots, h, w) && |xs| == |shots| && |ys| == |shots|
  {
    Rect(g, h, 3 * w) && forall i: nat, j: nat :: i < h && j < w ==> ColoursAt(g, shots, xs, ys, h, w, i, j)
  }

  ghost predicate ColoursAt(g: RealFrame, shots: seq<Shot>, xs: seq<int>, ys: seq<int>, h: nat, w: nat, i: nat, j: nat)
    requires Uniform(shots, h, w) && |xs| == |shots| && |ys| == |shots| && Rect(g, h, 3 * w) && i < h && j < w
  {
    g[i][3 * j] == SaturateU(Sum(Arriving(shots, xs, ys, h, w, Blue, i, j))) as real &&
    g[i][3 * j + 1] == SaturateU(Sum(Arriving(shots, xs, ys, h, w, Green, i, j))) as real &&
    g[i][3 * j + 2] == SaturateU(Sum(Arriving(shots, xs, ys, h, w, Red, i, j))) as real
  }

  /** g holds the saturating sums of the contributions under a list of LEDs. */
  ghost predicate Differences(g: RealFrame, shots: seq<Shot>, leds: set<int>, xs: seq<int>, ys: seq<int>, h: nat, w: nat)
    requires Uniform(shots, h, w) && |xs| == |shots| && |ys| == |shots|
  {
    Rect(g, h, w) && forall i: nat, j: nat :: i < h && j < w ==>
      g[i][j] == Fold(Contributions(shots, leds, xs, ys, h, w, i, j)) as real
  }

  ghost predicate ShowsColours(r: Rescaled, shots: seq<Shot>, xs: seq<int>, ys: seq<int>, h: nat, w: nat)
    requires Uniform(shots, h, w) && |xs| == |shots| && |ys| == |shots|
  {
    forall g: RealFrame | Colours(g, shots, xs, ys, h, w) :: Shows(r, g, h, 3 * w)
  }

  ghost predicate ShowsDifferences(r: Rescaled, shots: seq<Shot>, leds: set<int>, xs: seq<int>, ys: seq<int>, h: nat, w: nat)
    requires Uniform(shots, h, w) && |xs| == |shots| && |ys| == |shots|
  {
    forall g: RealFrame | Differences(g, shots, leds, xs, ys, h, w) :: Shows(r, g, h, w)
  }

  /** The first result shows the colours, the second the differences of left and right, the third those of top
      and bottom. */
  ghost predicate RefocusedBy(results: seq<Rescaled>, shots: seq<Shot>, xs: seq<int>, ys: seq<int>, h: nat, w: nat)
    requires Uniform(shots, h, w) && |xs| == |shots| && |ys| == |shots|
  {
    |results| == 3 && ShowsColours(results[0], shots, xs, ys, h, w) &&
    ShowsDifferences(results[1], shots, LEFT, xs, ys, h, w) && ShowsDifferences(results[2], shots, TOP, xs, ys, h, w)
  }

  /** They do so for the shifts that the lighting angles give at the distance z. */
  ghost predicate Refocused(results: seq<Rescaled>, shots: seq<Shot>, z: real, h: nat, w: nat)
    requires Uniform(shots, h, w)
  {
    forall xs: seq<int>, ys: seq<int> | Moves(shots, z, xs, ys) :: RefocusedBy(results, shots, xs, ys, h, w)
  }

  lemma ColoursInterleaved(g: RealFrame, shots: seq<Shot>, z: real, xs: seq<int>, ys: seq<int>, h: nat, w: nat)
    requires Uniform(shots, h, w) && Moves(shots, z, xs, ys)
    ensures Colours(g, shots, xs, ys, h, w) <==> g == Interleaved(shots, z, |shots|, h, w)
  {
    hide BrightPixel, MovesBy, Sum, ColoursAt, Get;
    var want := Interleaved(shots, z, |shots|, h, w);
    forall i: nat, j: nat | i < h && j < w ensures ColoursAt(want, shots, xs, ys, h, w, i, j) {
      PixelColours(shots, z, xs, ys, h, w, i, j);
    }
    if Colours(g, shots, xs, ys, h, w) {
      forall i, j | 0 <= i < h && 0 <= j < 3 * w ensures g[i][j] == want[i][j] {
        assert ColoursAt(g, shots, xs, ys, h, w, i, j / 3) && ColoursAt(want, shots, xs, ys, h, w, i, j / 3);
        SameColours(g, want, shots, xs, ys, h, w, i, j / 3, j % 3);
      }
      GridEqual(g, want, h, 3 * w);
    }
  }

  lemma SameColours(f: RealFrame, g: RealFrame, shots: seq<Shot>, xs: seq<int>, ys: seq<int>, h: nat, w: nat,
                    i: nat, j: nat, c: nat)
    requires Uniform(shots, h, w) && |xs| == |shots| && |ys| == |shots| && i < h && j < w && c < 3
    requires Rect(f, h, 3 * w) && Rect(g, h, 3 * w)
    requires ColoursAt(f, shots, xs, ys, h, w, i, j) && ColoursAt(g, shots, xs, ys, h, w, i, j)
    ensures f[i][3 * j + c] == g[i][3 * j + c]
  {
    hide Sum, SaturateU;
  }

  lemma PixelColours(shots: seq<Shot>, z: real, xs: seq<int>, ys: seq<int>, h: nat, w: nat, i: nat, j: nat)
    requires Uniform(shots, h, w) && Moves(shots, z, xs, ys) && i < h && j < w
    ensures ColoursAt(Interleaved(shots, z, |shots|, h, w), shots, xs, ys, h, w, i, j)
  {
    hide BrightPixel, Sum, MovesBy;
    forall ch: Channel
      ensures Get(BrightPixel(shots, z, |shots|, h, w, i, j), ch) == SaturateU(Sum(Arriving(shots, xs, ys, h, w, ch, i, j)))
    {
      BrightArrives(shots, z, xs, ys, h, w, ch, i, j);
      PixelsSum(Arriving(shots, xs, ys, h, w, ch, i, j));
    }
    assert 3 * j / 3 == j && (3 * j + 1) / 3 == j && (3 * j + 2) / 3 == j;
  }

  lemma DifferencesSigned(g: RealFrame, shots: seq<Shot>, leds: set<int>, z: real, xs: seq<int>, ys: seq<int>, h: nat, w: nat)
    requires Uniform(shots, h, w) && Moves(shots, z, xs, ys)
    ensures Differences(g, shots, leds, xs, ys, h, w) <==> g == Reals(SignedFrame(shots, leds, z, |shots|, h, w), h, w)
  {
    hide SignedPixel, Fold, Contributions, MovesBy;
    var want := Reals(SignedFrame(shots, leds, z, |shots|, h, w), h, w);
    forall i: nat, j: nat | i < h && j < w
      ensures want[i][j] == Fold(Contributions(shots, leds, xs, ys, h, w, i, j)) as real
    {
      SignedArrives(shots, leds, z, xs, ys, h, w, i, j);
    }
    if Differences(g, shots, leds, xs, ys, h, w) {
      GridEqual(g, want, h, w);
    }
  }

  /** The three results show those sums, and no other results do. */
  lemma RefocusedExactly(results: seq<Rescaled>, shots: seq<Shot>, z: real, h: nat, w: nat)
    requires Uniform(shots, h, w)
    ensures Refocused(results, shots, z, h, w) <==> results == FocusResults(shots, z, |shots|, h, w)
  {
    hide MovesBy, RefocusedBy, FocusResults;
    forall xs: seq<int>, ys: seq<int> | Moves(shots, z, xs, ys)
      ensures RefocusedBy(results, shots, xs, ys, h, w) <==> results == FocusResults(shots, z, |shots|, h, w)
    {
      RefocusedByExactly(results, shots, z, xs, ys, h, w);
    }
    var xs, ys := MovesExist(shots, z);
    assert Moves(shots, z, xs, ys);
  }

  lemma RefocusedByExactly(results: seq<Rescaled>, shots: seq<Shot>, z: real, xs: seq<int>, ys: seq<int>, h: nat, w: nat)
    requires Uniform(shots, h, w) && Moves(shots, z, xs, ys)
    ensures RefocusedBy(results, shots, xs, ys, h, w) <==> results == FocusResults(shots, z, |shots|, h, w)
  {
    hide Interleaved, Reals, SignedFrame, ToLevels, MovesBy, ShowsColours, ShowsDifferences, LEFT, TOP;
    hide FocusResults;
    var want := FocusResults(shots, z, |shots|, h, w);
    FocusParts(shots, z, h, w);
    Triples(results, want);
    if |results| == 3 {
      ColoursExactly(results[0], shots, z, xs, ys, h, w);
      DifferencesExactly(results[1], shots, LEFT, z, xs, ys, h, w);
      DifferencesExactly(results[2], shots, TOP, z, xs, ys, h, w);
    }
  }

  lemma FocusParts(shots: seq<Shot>, z: real, h: nat, w: nat)
    requires Uniform(shots, h, w)
    ensures var want := FocusResults(shots, z, |shots|, h, w);
      |want| == 3 &&
      want[0] == ToLevels(Interleaved(shots, z, |shots|, h, w), h, 3 * w) &&
      want[1] == ToLevels(Reals(SignedFrame(shots, LEFT, z, |shots|, h, w), h, w), h, w) &&
      want[2] == ToLevels(Reals(SignedFrame(shots, TOP, z, |shots|, h, w), h, w), h, w)
  {
    hide Interleaved, Reals, SignedFrame, ToLevels, LEFT, TOP;
  }

  lemma Triples<T>(a: seq<T>, b: seq<T>)
    requires |b| == 3
    ensures a == b <==> |a| == 3 && a[0] == b[0] && a[1] == b[1] && a[2] == b[2]
  {
  }

  lemma ColoursExactly(r: Rescaled, shots: seq<Shot>, z: real, xs: seq<int>, ys: seq<int>, h: nat, w: nat)
    requires Uniform(shots, h, w) && Moves(shots, z, xs, ys)
    ensures ShowsColours(r, shots, xs, ys, h, w) <==> r == ToLevels(Interleaved(shots, z, |shots|, h, w), h, 3 * w)
  {
    hide Interleaved, Shows, ToLevels, MovesBy, Colours;
    var c := Interleaved(shots, z, |shots|, h, w);
    LevelsShow(c, h, 3 * w, r);
    forall g: RealFrame ensures Colours(g, shots, xs, ys, h, w) <==> g == c {
      ColoursInterleaved(g, shots, z, xs, ys, h, w);
    }
  }

  lemma DifferencesExactly(r: Rescaled, shots: seq<Shot>, leds: set<int>, z: real, xs: seq<int>, ys: seq<int>, h: nat, w: nat)
    requires Uniform(shots, h, w) && Moves(shots, z, xs, ys)
    ensures ShowsDifferences(r, shots, leds, xs, ys, h, w)
            <==> r == ToLevels(Reals(SignedFrame(shots, leds, z, |shots|, h, w), h, w), h, w)
  {
    hide Reals, SignedFrame, Shows, ToLevels, MovesBy, Differences;
    var d: RealFrame := Reals(SignedFrame(shots, leds, z, |shots|, h, w), h, w);
    LevelsShow(d, h, w, r);
    hide Uniform, Fitting;
    forall g: RealFrame ensures Differences(g, shots, leds, xs, ys, h, w) <==> g == d {
      DifferencesSigned(g, shots, leds, z, xs, ys, h, w);
    }
  }

  /** A green value as a differential sum over one image holds it: cut off, and negative for an LED not listed. */
  function OneValue(v: int, listed: bool): int { Counted(if v <= 32767 then v else 32767, listed) }

  /** On a stack of one image, the second result shows its shifted green values, positive for an LED on the left and
      negative otherwise, and the third shows them in the same way for an LED at the top. */
  lemma OneShotResults(s: Shot, z: real, x: int, y: int, h: nat, w: nat, g: RealFrame, f: RealFrame)
    requires Rect(s.px, h, w) && 0 < h == s.h && 0 < w == s.w && MovesBy(s, z, x, y) && Rect(g, h, w) && Rect(f, h, w)
    requires forall i, j :: 0 <= i < h && 0 <= j < w ==>
      g[i][j] == OneValue(s.px[(i - x) % h][(j - y) % w].green, s.led in LEFT) as real
    requires forall i, j :: 0 <= i < h && 0 <= j < w ==>
      f[i][j] == OneValue(s.px[(i - x) % h][(j - y) % w].green, s.led in TOP) as real
    ensures Uniform([s], h, w)
    ensures Shows(FocusResults([s], z, 1, h, w)[1], g, h, w)
    ensures Shows(FocusResults([s], z, 1, h, w)[2], f, h, w)
  {
    hide FocusResults, Shows, LEFT, TOP, MovesBy, Fold, OneValue;
    OneDifference(s, x, y, h, w, LEFT, g);
    OneDifference(s, x, y, h, w, TOP, f);
    RefocusedExactly(FocusResults([s], z, 1, h, w), [s], z, h, w);
    assert Moves([s], z, [x], [y]);
    hide Differences;
    assert RefocusedBy(FocusResults([s], z, 1, h, w), [s], [x], [y], h, w);
  }

  lemma OneDifference(s: Shot, x: int, y: int, h: nat, w: nat, leds: set<int>, g: RealFrame)
    requires Rect(s.px, h, w) && 0 < h == s.h && 0 < w == s.w && Rect(g, h, w)
    requires forall i, j :: 0 <= i < h && 0 <= j < w ==>
      g[i][j] == OneValue(s.px[(i - x) % h][(j - y) % w].green, s.led in leds) as real
    ensures Uniform([s], h, w) && Differences(g, [s], leds, [x], [y], h, w)
  {
    forall i: nat, j: nat | i < h && j < w
      ensures g[i][j] == Fold(Contributions([s], leds, [x], [y], h, w, i, j)) as real
    {
      var t := Contributions([s], leds, [x], [y], h, w, i, j);
      assert t == [OneValue(s.px[(i - x) % h][(j - y) % w].green, s.led in leds)];
      FoldOne(t[0]);
    }
  }

  lemma FoldOne(v: int)
    ensures Fold([v]) == SaturateS(v)
  {
    assert [v][..0] == [];
    assert Fold([v][..0]) == 0;
  }

  /** At every pixel the two differential sums are safe from clipping that depends on the order. */
  ghost predicate AllSafe(shots: seq<Shot>, z: real, h: nat, w: nat) {
    forall i: nat, j: nat :: i < h && j < w ==> SafeAt(shots, LEFT, z, h, w, i, j) && SafeAt(shots, TOP, z, h, w, i, j)
  }

  /** The interleaved channels are those of the brightfield frames. */
  lemma InterleavedOrderFree(a: seq<Shot>, b: seq<Shot>, z: real, h: nat, w: nat)
    requires Uniform(a, h, w) && Uniform(b, h, w) && multiset(a) == multiset(b)
    ensures Interleaved(a, z, |a|, h, w) == Interleaved(b, z, |b|, h, w)
  {
    hide BrightPixel, ChannelAt;
    var x, y := Interleaved(a, z, |a|, h, w), Interleaved(b, z, |b|, h, w);
    forall i, j | 0 <= i < h && 0 <= j < 3 * w ensures x[i][j] == y[i][j] {
      SamePixel(a, b, z, h, w, i, j / 3);
    }
    GridEqual(x, y, h, 3 * w);
  }

  lemma SamePixel(a: seq<Shot>, b: seq<Shot>, z: real, h: nat, w: nat, i: nat, j: nat)
    requires Uniform(a, h, w) && Uniform(b, h, w) && multiset(a) == multiset(b) && i < h && j < w
    ensures BrightPixel(a, z, |a|, h, w, i, j) == BrightPixel(b, z, |b|, h, w, i, j)
  {
    hide Column, Bright;
    SameChannel(a, b, z, h, w, Blue, i, j);
    SameChannel(a, b, z, h, w, Green, i, j);
    SameChannel(a, b, z, h, w, Red, i, j);
  }

  lemma SameChannel(a: seq<Shot>, b: seq<Shot>, z: real, h: nat, w: nat, ch: Channel, i: nat, j: nat)
    requires Uniform(a, h, w) && Uniform(b, h, w) && multiset(a) == multiset(b) && i < h && j < w
    ensures Bright(Column(a, z, |a|, h, w, ch, i, j)) == Bright(Column(b, z, |b|, h, w, ch, i, j))
  {
    hide Column, Bright, LightOf;
    OrderFree(a, b, {}, z, h, w, ch);
    assert BrightFrame(a, z, |a|, h, w, ch)[i][j] == BrightFrame(b, z, |b|, h, w, ch)[i][j];
  }

  /** The three final images do not depend on the order of a stack that is safe at every pixel. */
  lemma ResultsOrderFree(a: seq<Shot>, b: seq<Shot>, z: real, h: nat, w: nat)
    requires Uniform(a, h, w) && Uniform(b, h, w) && multiset(a) == multiset(b) && AllSafe(a, z, h, w)
    ensures FocusResults(a, z, |a|, h, w) == FocusResults(b, z, |b|, h, w)
  {
    hide ToLevels, Interleaved, SignedPixel, Reals, SafeAt;
    InterleavedOrderFree(a, b, z, h, w);
    SafeOrders(a, b, LEFT, z, h, w);
    SafeOrders(a, b, TOP, z, h, w);
  }

  /** In particular they do not on stacks that are dim in green. */
  lemma DimResultsOrderFree(a: seq<Shot>, b: seq<Shot>, z: real, h: nat, w: nat, m: nat)
    requires Uniform(a, h, w) && Uniform(b, h, w) && multiset(a) == multiset(b)
    requires Dim(a, h, w, Green, m) && |a| * m <= 32767
    ensures FocusResults(a, z, |a|, h, w) == FocusResults(b, z, |b|, h, w)
  {
    hide FocusResults, SafeAt;
    forall i: nat, j: nat | i < h && j < w
      ensures SafeAt(a, LEFT, z, h, w, i, j)
      ensures SafeAt(a, TOP, z, h, w, i, j)
    {
      DimSafe(a, LEFT, z, h, w, m, i, j);
      DimSafe(a, TOP, z, h, w, m, i, j);
    }
    ResultsOrderFree(a, b, z, h, w);
  }

  method ScaleResults(bf: array2<Pixel>, lr: array2<S16>, tb: array2<S16>, ghost shots: seq<Shot>, ghost z: real, ghost k: nat,
                      h: nat, w: nat)
    returns (results: seq<Rescaled>)
    requires 0 < h && 0 < w && Sized(bf, h, w) && Sized(lr, h, w) && Sized(tb, h, w)
    requires Fitting(shots, h, w) && k <= |shots| && Accumulated(bf, lr, tb, shots, z, k, h, w)
    ensures results == FocusResults(shots, z, k, h, w)
  {
    hide ToLevels, BrightPixel, SignedPixel, Interleaved, Reals;
    var bf8 := RescaleColours(bf, shots, z, k);
    var lr8 := Rescale(lr, SignedFrame(shots, LEFT, z, k, h, w));
    var tb8 := Rescale(tb, SignedFrame(shots, TOP, z, k, h, w));
    results := [bf8, lr8, tb8];
  }

  /** The refocused brightfield, left-right and top-bottom images of the first `fileCount` shots. */
  method ComputeFocusDPC(stack: seq<RImage>, fileCount: nat, z: real, width: nat, height: nat)
    returns (results: seq<Rescaled>)
    requires 0 < width && 0 < height && 0 < |stack| && fileCount <= |stack|
    requires Sized(stack[0].image, height, width)
    requires Fitting(Shots(stack)[..fileCount], height, width)
    ensures results == FocusResults(Shots(stack)[..fileCount], z, fileCount, height, width)
    ensures Uniform(Shots(stack)[..fileCount], height, width) ==>
      Refocused(results, Shots(stack)[..fileCount], z, height, width)
  {
    hide FocusResults, Accumulated, Refocused;
    var bf, lr, tb := Accumulate(stack, fileCount, z, height, width);
    results := ScaleResults(bf, lr, tb, Shots(stack)[..fileCount], z, fileCount, height, width);
    if Uniform(Shots(stack)[..fileCount], height, width) {
      RefocusedExactly(results, Shots(stack)[..fileCount], z, height, width);
    }
  }
}
