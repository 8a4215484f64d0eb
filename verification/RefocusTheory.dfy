/** Shift-and-add refocusing as a function of the image stack, and what it conserves. */
module RefocusTheory {
  import opened Modulo
  import opened Grids
  import opened Totals
  import opened Accumulators
  import opened OrderOfAddition

  type U16 = x: int | 0 <= x <= 65535

  type S16 = x: int | -32768 <= x <= 32767

  datatype Pixel = Pixel(blue: U16, green: U16, red: U16)

  datatype Channel = Blue | Green | Red

  function Get(p: Pixel, ch: Channel): U16 {
    match ch
    case Blue => p.blue
    case Green => p.green
    case Red => p.red
  }

  /** One image of the stack: its pixels, its size, the LED it was lit by and the tangents of the lighting angle. */
  datatype Shot = Shot(px: seq<seq<Pixel>>, h: nat, w: nat, led: int, tanX: real, tanY: real)

  const LEFT: set<int> := {
    159, 160, 180, 181, 182, 201, 202, 203, 223, 224, 225, 226, 246, 247, 248,
    249, 270, 271, 272, 292, 293, 294, 295, 315, 316, 317, 338, 339, 340, 361}

  const TOP: set<int> := {
    270, 271, 272, 273, 274, 275, 276, 292, 293, 294, 295, 296, 297, 298, 299,
    315, 316, 317, 318, 319, 320, 321, 338, 339, 340, 341, 342, 343, 361, 362}

  /** Rounding to the nearest integer, halves away from zero. */
  function RoundAway(t: real): int {
    if t >= 0.0 then (t + 0.5).Floor else -((-t + 0.5).Floor)
  }

  /** The shift in pixels for the distance z at a lighting angle with tangent t. */
  function Displacement(z: real, t: real): int { RoundAway(z * t) }

  function XShift(s: Shot, z: real): int { Displacement(z, s.tanX) }

  function YShift(s: Shot, z: real): int { Displacement(z, s.tanY) }

  /** Every image is non-empty and fits into a scratch buffer of the given size. */
  ghost predicate Fitting(shots: seq<Shot>, h: nat, w: nat) {
    forall k :: 0 <= k < |shots| ==>
      Rect(shots[k].px, shots[k].h, shots[k].w) && 0 < shots[k].h <= h && 0 < shots[k].w <= w
  }

  /** Every image has the size of the scratch buffer. */
  ghost predicate Uniform(shots: seq<Shot>, h: nat, w: nat) {
    0 < h && 0 < w && Fitting(shots, h, w) && forall k :: 0 <= k < |shots| ==> shots[k].h == h && shots[k].w == w
  }

  function Blank(h: nat, w: nat): (g: seq<seq<Pixel>>)
    ensures Rect(g, h, w)
    ensures forall i, j :: 0 <= i < h && 0 <= j < w ==> g[i][j] == Pixel(0, 0, 0)
  {
    seq(h, i => seq(w, j => Pixel(0, 0, 0)))
  }

  /** A shot shifted for the distance z. The loop hands the vertical shift over as the horizontal one and
      the other way round. */
  ghost function Shifted(s: Shot, z: real): (g: seq<seq<Pixel>>)
    requires Rect(s.px, s.h, s.w) && 0 < s.h && 0 < s.w
    ensures Rect(g, s.h, s.w)
  {
    Rotate(s.px, s.h, s.w, XShift(s, z), YShift(s, z))
  }

  /** A frame of two colours. */
  function Painted(g: seq<seq<bool>>, h: nat, w: nat): (p: seq<seq<Pixel>>)
    requires Rect(g, h, w)
    ensures Rect(p, h, w)
    ensures forall i, j :: 0 <= i < h && 0 <= j < w ==> p[i][j] == Pixel(0, if g[i][j] then 1 else 0, 0)
  {
    seq(h, i requires 0 <= i < h => seq(w, j requires 0 <= j < w => Pixel(0, if g[i][j] then 1 else 0, 0)))
  }

  /** The shift with its two distances the other way round. */
  ghost function Unexchanged(s: Shot, z: real): (g: seq<seq<Pixel>>)
    requires Rect(s.px, s.h, s.w) && 0 < s.h && 0 < s.w
    ensures Rect(g, s.h, s.w)
  {
    Rotate(s.px, s.h, s.w, YShift(s, z), XShift(s, z))
  }

  /** For a given angle, exchanging the two shifts makes no difference to any image exactly when they agree
      modulo both dimensions. */
  lemma ExchangeShowsExactly(s: Shot, z: real)
    requires 0 < s.h && 0 < s.w
    ensures (forall px: seq<seq<Pixel>> | Rect(px, s.h, s.w) :: Shifted(s.(px := px), z) == Unexchanged(s.(px := px), z))
            <==> ((XShift(s, z) - YShift(s, z)) % s.h == 0 && (XShift(s, z) - YShift(s, z)) % s.w == 0)
  {
    hide Rotate;
    var h, w, x, y := s.h, s.w, XShift(s, z), YShift(s, z);
    ModDifference(x, y, h);
    ModDifference(x, y, w);
    if x % h == y % h && x % w == y % w {
      forall px: seq<seq<Pixel>> | Rect(px, h, w) ensures Shifted(s.(px := px), z) == Unexchanged(s.(px := px), z) {
        RotateCongruent(px, h, w, x, y, y, x);
      }
    } else {
      RotateFaithful(h, w, x, y, y, x);
      var g: seq<seq<bool>> :| Rect(g, h, w) && Rotate(g, h, w, x, y) != Rotate(g, h, w, y, x);
      PaintedDiffer(g, h, w, x, y, y, x);
      assert Shifted(s.(px := Painted(g, h, w)), z) != Unexchanged(s.(px := Painted(g, h, w)), z);
    }
  }

  /** Painting does not hide a difference between two shifts. */
  lemma PaintedDiffer(g: seq<seq<bool>>, h: nat, w: nat, a: int, b: int, c: int, d: int)
    requires Rect(g, h, w) && 0 < h && 0 < w && Rotate(g, h, w, a, b) != Rotate(g, h, w, c, d)
    ensures Rotate(Painted(g, h, w), h, w, a, b) != Rotate(Painted(g, h, w), h, w, c, d)
  {
    var x, y := Rotate(g, h, w, a, b), Rotate(g, h, w, c, d);
    var u, v := Rotate(Painted(g, h, w), h, w, a, b), Rotate(Painted(g, h, w), h, w, c, d);
    if u == v {
      forall i, j | 0 <= i < h && 0 <= j < w ensures x[i][j] == y[i][j] {
        assert u[i][j] == v[i][j];
      }
      GridEqual(x, y, h, w);
    }
  }

  /** A pixel lit under an angle that shifts it by one column moves down by one row instead. */
  lemma ExchangeSeen()
    ensures var p, q := Pixel(1, 1, 1), Pixel(0, 0, 0);
      var s := Shot([[p, q], [q, q]], 2, 2, 161, 1.0, 0.0);
      Shifted(s, 1.0) == [[q, q], [p, q]] && Unexchanged(s, 1.0) == [[q, p], [q, q]]
  {
    var p, q := Pixel(1, 1, 1), Pixel(0, 0, 0);
    var s := Shot([[p, q], [q, q]], 2, 2, 161, 1.0, 0.0);
    assert XShift(s, 1.0) == 1 && YShift(s, 1.0) == 0;
    GridEqual(Shifted(s, 1.0), [[q, q], [p, q]], 2, 2);
    GridEqual(Unexchanged(s, 1.0), [[q, p], [q, q]], 2, 2);
  }

  /** The reused scratch buffer after the first k passes of the loop. */
  ghost function Scratch(shots: seq<Shot>, z: real, k: nat, h: nat, w: nat): (g: seq<seq<Pixel>>)
    requires Fitting(shots, h, w) && k <= |shots|
    ensures Rect(g, h, w)
  {
    if k == 0 then Blank(h, w) else
    Overlay(Scratch(shots, z, k - 1, h, w), h, w, Shifted(shots[k - 1], z), shots[k - 1].h, shots[k - 1].w)
  }

  /** On stacks of equal images the scratch buffer never keeps a pixel of an earlier pass. */
  lemma ScratchFresh(shots: seq<Shot>, z: real, k: nat, h: nat, w: nat)
    requires Uniform(shots, h, w) && 0 < k <= |shots|
    ensures Scratch(shots, z, k, h, w) == Shifted(shots[k - 1], z)
  {
    GridEqual(Scratch(shots, z, k, h, w), Shifted(shots[k - 1], z), h, w);
  }

  /** The values of one channel that pixel (i, j) of the scratch buffer takes in the first k passes. */
  ghost function Column(shots: seq<Shot>, z: real, k: nat, h: nat, w: nat, ch: Channel, i: nat, j: nat): (c: seq<int>)
    requires Fitting(shots, h, w) && k <= |shots| && i < h && j < w
    ensures |c| == k && Pixels(c)
  {
    if k == 0 then [] else
    Column(shots, z, k - 1, h, w, ch, i, j) + [Get(Scratch(shots, z, k, h, w)[i][j], ch)]
  }

  /** Which of the first k images count positively under a list of LEDs. */
  function Flags(shots: seq<Shot>, leds: set<int>, k: nat): (f: seq<bool>)
    requires k <= |shots|
    ensures |f| == k && forall m :: 0 <= m < k ==> f[m] == (shots[m].led in leds)
  {
    seq(k, m requires 0 <= m < k => shots[m].led in leds)
  }

  /** The brightfield sum at a pixel after k passes. */
  ghost function BrightPixel(shots: seq<Shot>, z: real, k: nat, h: nat, w: nat, i: nat, j: nat): Pixel
    requires Fitting(shots, h, w) && k <= |shots| && i < h && j < w
  {
    Pixel(Bright(Column(shots, z, k, h, w, Blue, i, j)),
          Bright(Column(shots, z, k, h, w, Green, i, j)),
          Bright(Column(shots, z, k, h, w, Red, i, j)))
  }

  /** A differential sum at a pixel after k passes: green values, added for the listed LEDs and subtracted otherwise. */
  ghost function SignedPixel(shots: seq<Shot>, leds: set<int>, z: real, k: nat, h: nat, w: nat, i: nat, j: nat): S16
    requires Fitting(shots, h, w) && k <= |shots| && i < h && j < w
  {
    Signed(Column(shots, z, k, h, w, Green, i, j), Flags(shots, leds, k))
  }

  /** One pass of the loop at a pixel. */
  lemma PassAtPixel(shots: seq<Shot>, leds: set<int>, z: real, k: nat, h: nat, w: nat, i: nat, j: nat)
    requires Fitting(shots, h, w) && k < |shots| && i < h && j < w
    ensures var v := Scratch(shots, z, k + 1, h, w)[i][j];
      var p := BrightPixel(shots, z, k, h, w, i, j);
      BrightPixel(shots, z, k + 1, h, w, i, j)
        == Pixel(SaturateU(p.blue + v.blue), SaturateU(p.green + v.green), SaturateU(p.red + v.red)) &&
      SignedPixel(shots, leds, z, k + 1, h, w, i, j)
        == SignedStep(SignedPixel(shots, leds, z, k, h, w, i, j), v.green, shots[k].led in leds)
  {
    hide Scratch;
    forall ch: Channel
      ensures Column(shots, z, k + 1, h, w, ch, i, j)[..k] == Column(shots, z, k, h, w, ch, i, j)
    {
    }
    assert Flags(shots, leds, k + 1)[..k] == Flags(shots, leds, k);
  }

  /** The channel of an image as integers, with the sign under which the image counts. */
  function Weighted(px: seq<seq<Pixel>>, h: nat, w: nat, ch: Channel, plus: bool): (g: seq<seq<int>>)
    requires Rect(px, h, w)
    ensures Rect(g, h, w)
    ensures forall i, j :: 0 <= i < h && 0 <= j < w ==> g[i][j] == Counted(Get(px[i][j], ch), plus)
  {
    seq(h, i requires 0 <= i < h => seq(w, j requires 0 <= j < w => Counted(Get(px[i][j], ch), plus)))
  }

  /** The light that an image contributes to a sum: the total of its channel, negative if it is subtracted. */
  function Light(s: Shot, ch: Channel, leds: set<int>): int
    requires Rect(s.px, s.h, s.w)
  {
    Total(Weighted(s.px, s.h, s.w, ch, s.led in leds))
  }

  /** Shifting an image does not change its light. */
  lemma LightShifted(s: Shot, z: real, ch: Channel, plus: bool)
    requires Rect(s.px, s.h, s.w) && 0 < s.h && 0 < s.w
    ensures Total(Weighted(Shifted(s, z), s.h, s.w, ch, plus)) == Total(Weighted(s.px, s.h, s.w, ch, plus))
  {
    var g := Weighted(s.px, s.h, s.w, ch, plus);
    GridEqual(Weighted(Shifted(s, z), s.h, s.w, ch, plus), Rotate(g, s.h, s.w, XShift(s, z), YShift(s, z)), s.h, s.w);
    TotalRotated(g, s.h, s.w, XShift(s, z), YShift(s, z));
  }

  /** The true signed sum at one pixel after k passes, in integers without bounds. */
  ghost function TrueSum(shots: seq<Shot>, leds: set<int>, z: real, k: nat, h: nat, w: nat, ch: Channel, i: nat, j: nat)
    : int
    requires Fitting(shots, h, w) && k <= |shots| && i < h && j < w
  {
    Sum(WithSigns(Column(shots, z, k, h, w, ch, i, j), Flags(shots, leds, k)))
  }

  /** The true signed sum at every pixel after k passes, in integers without bounds. */
  ghost function TrueSums(shots: seq<Shot>, leds: set<int>, z: real, k: nat, h: nat, w: nat, ch: Channel)
    : (g: seq<seq<int>>)
    requires Fitting(shots, h, w) && k <= |shots|
    ensures Rect(g, h, w)
    ensures forall i: nat, j: nat :: i < h && j < w ==>
      g[i][j] == TrueSum(shots, leds, z, k, h, w, ch, i, j)
  {
    seq(h, i requires 0 <= i < h => seq(w, j requires 0 <= j < w => TrueSum(shots, leds, z, k, h, w, ch, i, j)))
  }

  /** The light of the first k images, summed. */
  ghost function LightOf(shots: seq<Shot>, leds: set<int>, k: nat, ch: Channel): int
    requires k <= |shots| && forall m :: 0 <= m < |shots| ==> Rect(shots[m].px, shots[m].h, shots[m].w)
  {
    if k == 0 then 0 else LightOf(shots, leds, k - 1, ch) + Light(shots[k - 1], ch, leds)
  }

  /** The total of the true sums is the light of the images: distance and shifts do not enter. */
  lemma {:induction false} TrueTotal(shots: seq<Shot>, leds: set<int>, z: real, k: nat, h: nat, w: nat, ch: Channel)
    requires Uniform(shots, h, w) && k <= |shots|
    ensures Total(TrueSums(shots, leds, z, k, h, w, ch)) == LightOf(shots, leds, k, ch)
  {
    if k == 0 {
      ZeroTotal(TrueSums(shots, leds, z, 0, h, w, ch), h, w);
    } else {
      TrueTotal(shots, leds, z, k - 1, h, w, ch);
      TotalStep(shots, leds, z, k, h, w, ch);
    }
  }

  lemma TotalStep(shots: seq<Shot>, leds: set<int>, z: real, k: nat, h: nat, w: nat, ch: Channel)
    requires Uniform(shots, h, w) && 0 < k <= |shots|
    ensures Total(TrueSums(shots, leds, z, k, h, w, ch))
            == Total(TrueSums(shots, leds, z, k - 1, h, w, ch)) + Light(shots[k - 1], ch, leds)
  {
    hide Total, Scratch, TrueSum, Shifted;
    var s := shots[k - 1];
    var before, now := TrueSums(shots, leds, z, k - 1, h, w, ch), TrueSums(shots, leds, z, k, h, w, ch);
    var added := Weighted(Shifted(s, z), h, w, ch, s.led in leds);
    ScratchFresh(shots, z, k, h, w);
    forall i: nat, j: nat | i < h && j < w ensures now[i][j] == before[i][j] + added[i][j] {
      TrueStep(shots, leds, z, k, h, w, ch, i, j);
    }
    TotalPointwise(before, added, now, h, w);
    LightShifted(s, z, ch, s.led in leds);
  }

  lemma ZeroTotal(g: seq<seq<int>>, h: nat, w: nat)
    requires Rect(g, h, w) && forall i, j :: 0 <= i < h && 0 <= j < w ==> g[i][j] == 0
    ensures Total(g) == 0
  {
    forall i | 0 <= i < h ensures RowTotals(g)[i] == 0 {
      SumZero(g[i]);
    }
    SumZero(RowTotals(g));
  }

  lemma TrueStep(shots: seq<Shot>, leds: set<int>, z: real, k: nat, h: nat, w: nat, ch: Channel, i: nat, j: nat)
    requires Fitting(shots, h, w) && 0 < k <= |shots| && i < h && j < w
    ensures TrueSum(shots, leds, z, k, h, w, ch, i, j) == TrueSum(shots, leds, z, k - 1, h, w, ch, i, j)
      + Counted(Get(Scratch(shots, z, k, h, w)[i][j], ch), shots[k - 1].led in leds)
  {
    hide Scratch;
    var c, f := Column(shots, z, k, h, w, ch, i, j), Flags(shots, leds, k);
    SignedSumStep(c, f);
    assert c[..k - 1] == Column(shots, z, k - 1, h, w, ch, i, j);
    assert f[..k - 1] == Flags(shots, leds, k - 1);
  }

  /** One channel of the brightfield result. */
  ghost function BrightFrame(shots: seq<Shot>, z: real, k: nat, h: nat, w: nat, ch: Channel): (g: seq<seq<int>>)
    requires Fitting(shots, h, w) && k <= |shots|
    ensures Rect(g, h, w)
    ensures forall i: nat, j: nat :: i < h && j < w ==> g[i][j] == Bright(Column(shots, z, k, h, w, ch, i, j))
  {
    seq(h, i requires 0 <= i < h => seq(w, j requires 0 <= j < w => Bright(Column(shots, z, k, h, w, ch, i, j))))
  }

  /** A differential result. */
  ghost function SignedFrame(shots: seq<Shot>, leds: set<int>, z: real, k: nat, h: nat, w: nat): (g: seq<seq<int>>)
    requires Fitting(shots, h, w) && k <= |shots|
    ensures Rect(g, h, w)
    ensures forall i: nat, j: nat :: i < h && j < w ==> g[i][j] == SignedPixel(shots, leds, z, k, h, w, i, j)
  {
    seq(h, i requires 0 <= i < h => seq(w, j requires 0 <= j < w => SignedPixel(shots, leds, z, k, h, w, i, j)))
  }

  /** The LEDs of a stack, under which every image counts positively. */
  function Lit(shots: seq<Shot>): set<int> { set s | s in shots :: s.led }

  lemma LitColumn(shots: seq<Shot>, z: real, k: nat, h: nat, w: nat, ch: Channel, i: nat, j: nat)
    requires Fitting(shots, h, w) && k <= |shots| && i < h && j < w
    ensures WithSigns(Column(shots, z, k, h, w, ch, i, j), Flags(shots, Lit(shots), k))
            == Column(shots, z, k, h, w, ch, i, j)
  {
    forall m | 0 <= m < k ensures shots[m].led in Lit(shots) {
      assert shots[m] in shots;
    }
  }

  /** No pixel's true sum exceeds unsigned sixteen bits. */
  ghost predicate Unsaturated(shots: seq<Shot>, z: real, h: nat, w: nat, ch: Channel)
    requires Fitting(shots, h, w)
  {
    forall i: nat, j: nat :: i < h && j < w ==> Sum(Column(shots, z, |shots|, h, w, ch, i, j)) <= 65535
  }

  /** Brightfield refocusing never gains light, and conserves it exactly when no pixel's true sum exceeds
      sixteen bits. */
  lemma BrightfieldConserves(shots: seq<Shot>, z: real, h: nat, w: nat, ch: Channel)
    requires Uniform(shots, h, w)
    ensures Total(BrightFrame(shots, z, |shots|, h, w, ch)) <= LightOf(shots, Lit(shots), |shots|, ch)
    ensures Total(BrightFrame(shots, z, |shots|, h, w, ch)) == LightOf(shots, Lit(shots), |shots|, ch)
            <==> Unsaturated(shots, z, h, w, ch)
  {
    hide Column, Total, Bright;
    var n := |shots|;
    var cut, full := BrightFrame(shots, z, n, h, w, ch), TrueSums(shots, Lit(shots), z, n, h, w, ch);
    forall i: nat, j: nat | i < h && j < w
      ensures cut[i][j] <= full[i][j]
      ensures cut[i][j] == full[i][j] <==> Sum(Column(shots, z, n, h, w, ch, i, j)) <= 65535
    {
      BrightExact(Column(shots, z, n, h, w, ch, i, j));
      LitColumn(shots, z, n, h, w, ch, i, j);
    }
    TotalCompared(cut, full, h, w);
    TrueTotal(shots, Lit(shots), z, n, h, w, ch);
    if Unsaturated(shots, z, h, w, ch) {
      GridEqual(cut, full, h, w);
    } else {
      var i: nat, j: nat :| i < h && j < w && Sum(Column(shots, z, n, h, w, ch, i, j)) > 65535;
      assert cut[i][j] != full[i][j];
    }
  }

  /** Without clipping, the total of a differential result is the light of the listed images minus the
      light of the others, at every distance. */
  lemma DifferentialConserves(shots: seq<Shot>, leds: set<int>, z: real, h: nat, w: nat)
    requires Uniform(shots, h, w)
    requires forall i: nat, j: nat :: i < h && j < w ==>
      NeverClips(Column(shots, z, |shots|, h, w, Green, i, j), Flags(shots, leds, |shots|))
    ensures Total(SignedFrame(shots, leds, z, |shots|, h, w)) == LightOf(shots, leds, |shots|, Green)
  {
    hide Column, Total, Signed;
    var n := |shots|;
    var result, full := SignedFrame(shots, leds, z, n, h, w), TrueSums(shots, leds, z, n, h, w, Green);
    forall i: nat, j: nat | i < h && j < w ensures result[i][j] == full[i][j] {
      SignedExact(Column(shots, z, n, h, w, Green, i, j), Flags(shots, leds, n));
    }
    GridEqual(result, full, h, w);
    TrueTotal(shots, leds, z, n, h, w, Green);
  }

  /** The value that a shot contributes to a pixel; zero if the shot is not of the given size. */
  ghost function Contribution(z: real, h: nat, w: nat, ch: Channel, i: nat, j: nat): Shot -> int
    requires i < h && j < w
  {
    (s: Shot) => if Rect(s.px, s.h, s.w) && s.h == h && s.w == w then Get(Shifted(s, z)[i][j], ch) else 0
  }

  /** On stacks of equal images, each pass contributes the shot's own shifted pixel. */
  lemma {:induction false} ColumnContributions(shots: seq<Shot>, z: real, k: nat, h: nat, w: nat, ch: Channel, i: nat, j: nat)
    requires Uniform(shots, h, w) && k <= |shots| && i < h && j < w
    ensures Column(shots, z, k, h, w, ch, i, j) == Image(Contribution(z, h, w, ch, i, j), shots[..k])
  {
    hide Scratch, Shifted;
    var f := Contribution(z, h, w, ch, i, j);
    if k > 0 {
      ColumnContributions(shots, z, k - 1, h, w, ch, i, j);
      ScratchFresh(shots, z, k, h, w);
      assert shots[..k] == shots[..k - 1] + [shots[k - 1]];
      ImageConcat(f, shots[..k - 1], [shots[k - 1]]);
      assert Image(f, [shots[k - 1]]) == [f(shots[k - 1])];
    }
  }

  /** The light of a shot, zero for malformed pixels. */
  ghost function LightFunction(ch: Channel, leds: set<int>): Shot -> int {
    (s: Shot) => if Rect(s.px, s.h, s.w) then Light(s, ch, leds) else 0
  }

  lemma {:induction false} LightSummed(shots: seq<Shot>, leds: set<int>, k: nat, ch: Channel)
    requires k <= |shots| && forall m :: 0 <= m < |shots| ==> Rect(shots[m].px, shots[m].h, shots[m].w)
    ensures LightOf(shots, leds, k, ch) == Sum(Image(LightFunction(ch, leds), shots[..k]))
  {
    hide Light;
    var f := LightFunction(ch, leds);
    if k > 0 {
      LightSummed(shots, leds, k - 1, ch);
      assert Image(f, shots[..k])[..k - 1] == Image(f, shots[..k - 1]);
    }
  }

  /** The brightfield image does not depend on the order of the stack, saturated or not, and neither does
      the light that any list of LEDs accounts for. */
  lemma OrderFree(a: seq<Shot>, b: seq<Shot>, leds: set<int>, z: real, h: nat, w: nat, ch: Channel)
    requires Uniform(a, h, w) && Uniform(b, h, w)
    requires multiset(a) == multiset(b)
    ensures BrightFrame(a, z, |a|, h, w, ch) == BrightFrame(b, z, |b|, h, w, ch)
    ensures LightOf(a, leds, |a|, ch) == LightOf(b, leds, |b|, ch)
  {
    hide Bright, Column, LightOf, Sum, Contribution, LightFunction;
    assert a[..|a|] == a && b[..|b|] == b;
    var x, y := BrightFrame(a, z, |a|, h, w, ch), BrightFrame(b, z, |b|, h, w, ch);
    forall i: nat, j: nat | i < h && j < w ensures x[i][j] == y[i][j] {
      ColumnContributions(a, z, |a|, h, w, ch, i, j);
      ColumnContributions(b, z, |b|, h, w, ch, i, j);
      ImagePermuted(Contribution(z, h, w, ch, i, j), a, b);
      BrightOrderFree(Column(a, z, |a|, h, w, ch, i, j), Column(b, z, |b|, h, w, ch, i, j));
    }
    GridEqual(x, y, h, w);
    LightSummed(a, leds, |a|, ch);
    LightSummed(b, leds, |b|, ch);
    ImagePermuted(LightFunction(ch, leds), a, b);
    SumPermuted(Image(LightFunction(ch, leds), a), Image(LightFunction(ch, leds), b));
  }

  lemma UniformPermuted(a: seq<Shot>, b: seq<Shot>, h: nat, w: nat)
    requires Uniform(a, h, w) && multiset(a) == multiset(b)
    ensures Uniform(b, h, w) && |b| == |a|
  {
    assert |multiset(a)| == |multiset(b)|;
    forall k | 0 <= k < |b| ensures Rect(b[k].px, h, w) && b[k].h == h && b[k].w == w {
      assert b[k] in multiset(b);
      var m :| 0 <= m < |a| && a[m] == b[k];
    }
  }

  /** The signed term that a shot contributes to a differential pixel. */
  ghost function Term(leds: set<int>, z: real, h: nat, w: nat, i: nat, j: nat): Shot -> int
    requires i < h && j < w
  {
    var green := Contribution(z, h, w, Green, i, j);
    (s: Shot) => Counted(SaturateS(green(s)), s.led in leds)
  }

  lemma SignedPixelFolds(shots: seq<Shot>, leds: set<int>, z: real, h: nat, w: nat, i: nat, j: nat)
    requires Uniform(shots, h, w) && i < h && j < w
    ensures SignedPixel(shots, leds, z, |shots|, h, w, i, j) == Fold(Image(Term(leds, z, h, w, i, j), shots))
    ensures Image(Term(leds, z, h, w, i, j), shots)
            == Terms(Column(shots, z, |shots|, h, w, Green, i, j), Flags(shots, leds, |shots|))
  {
    hide Column, Contribution, Fold, Signed, SaturateS;
    var c, f := Column(shots, z, |shots|, h, w, Green, i, j), Flags(shots, leds, |shots|);
    ColumnContributions(shots, z, |shots|, h, w, Green, i, j);
    assert shots[..|shots|] == shots;
    SignedFolds(c, f);
    assert Image(Term(leds, z, h, w, i, j), shots) == Terms(c, f);
  }

  /** At a pixel, the green values added and the green values subtracted each fit into the accumulator, or
      all are added, or all are subtracted. */
  ghost predicate SafeAt(shots: seq<Shot>, leds: set<int>, z: real, h: nat, w: nat, i: nat, j: nat)
    requires i < h && j < w
  {
    OrderSafe(Image(Term(leds, z, h, w, i, j), shots))
  }

  /** A differential image is the same in every order of the stack exactly when every pixel is safe. */
  lemma DifferentialOrderFreeExactly(a: seq<Shot>, leds: set<int>, z: real, h: nat, w: nat)
    requires Uniform(a, h, w)
    ensures (forall b: seq<Shot> | multiset(b) == multiset(a) && Uniform(b, h, w) ::
               SignedFrame(b, leds, z, |b|, h, w) == SignedFrame(a, leds, z, |a|, h, w))
            <==> (forall i: nat, j: nat :: i < h && j < w ==> SafeAt(a, leds, z, h, w, i, j))
  {
    hide SignedPixel, Term, OrderSafe, Fold;
    if forall i: nat, j: nat :: i < h && j < w ==> SafeAt(a, leds, z, h, w, i, j) {
      forall b: seq<Shot> | multiset(b) == multiset(a) && Uniform(b, h, w)
        ensures SignedFrame(b, leds, z, |b|, h, w) == SignedFrame(a, leds, z, |a|, h, w)
      {
        SafeOrders(a, b, leds, z, h, w);
      }
    } else {
      var i: nat, j: nat :| i < h && j < w && !SafeAt(a, leds, z, h, w, i, j);
      var b, c := UnsafeStacks(a, leds, z, h, w, i, j);
      assert SignedFrame(b, leds, z, |b|, h, w)[i][j] != SignedFrame(c, leds, z, |c|, h, w)[i][j];
    }
  }

  lemma SafeOrders(a: seq<Shot>, b: seq<Shot>, leds: set<int>, z: real, h: nat, w: nat)
    requires Uniform(a, h, w) && Uniform(b, h, w) && multiset(b) == multiset(a)
    requires forall i: nat, j: nat :: i < h && j < w ==> SafeAt(a, leds, z, h, w, i, j)
    ensures SignedFrame(b, leds, z, |b|, h, w) == SignedFrame(a, leds, z, |a|, h, w)
  {
    hide SignedPixel, Term, OrderSafe, Fold;
    var x, y := SignedFrame(a, leds, z, |a|, h, w), SignedFrame(b, leds, z, |b|, h, w);
    forall i: nat, j: nat | i < h && j < w ensures x[i][j] == y[i][j] {
      assert SafeAt(a, leds, z, h, w, i, j);
      SignedPixelFolds(a, leds, z, h, w, i, j);
      SignedPixelFolds(b, leds, z, h, w, i, j);
      OrderFreeExactly(Term(leds, z, h, w, i, j), a);
    }
    GridEqual(x, y, h, w);
  }

  /** Two orders of a stack that differ at an unsafe pixel. */
  lemma UnsafeStacks(a: seq<Shot>, leds: set<int>, z: real, h: nat, w: nat, i: nat, j: nat)
    returns (b: seq<Shot>, c: seq<Shot>)
    requires Uniform(a, h, w) && i < h && j < w && !SafeAt(a, leds, z, h, w, i, j)
    ensures multiset(b) == multiset(a) && Uniform(b, h, w) && multiset(c) == multiset(a) && Uniform(c, h, w)
    ensures SignedPixel(b, leds, z, |b|, h, w, i, j) != SignedPixel(c, leds, z, |c|, h, w, i, j)
  {
    hide SignedPixel, Term, OrderSafe, Fold, Kept;
    var f := Term(leds, z, h, w, i, j);
    UnsafeOrders(f, a);
    b, c := Kept(f, a, true) + Kept(f, a, false), Kept(f, a, false) + Kept(f, a, true);
    UniformPermuted(a, b, h, w);
    UniformPermuted(a, c, h, w);
    SignedPixelFolds(b, leds, z, h, w, i, j);
    SignedPixelFolds(c, leds, z, h, w, i, j);
  }

  /** No value of the channel exceeds m anywhere in the stack. */
  ghost predicate Dim(shots: seq<Shot>, h: nat, w: nat, ch: Channel, m: nat)
    requires Uniform(shots, h, w)
  {
    forall k, i, j :: 0 <= k < |shots| && 0 <= i < h && 0 <= j < w ==> Get(shots[k].px[i][j], ch) <= m
  }

  lemma DimPermuted(a: seq<Shot>, b: seq<Shot>, h: nat, w: nat, ch: Channel, m: nat)
    requires Uniform(a, h, w) && Uniform(b, h, w) && multiset(a) == multiset(b) && Dim(a, h, w, ch, m)
    ensures Dim(b, h, w, ch, m)
  {
    forall k, i, j | 0 <= k < |b| && 0 <= i < h && 0 <= j < w ensures Get(b[k].px[i][j], ch) <= m {
      assert b[k] in multiset(b);
      var l :| 0 <= l < |a| && a[l] == b[k];
    }
  }

  /** A stack whose count times its greatest value fits into signed sixteen bits clips nowhere in that channel. */
  lemma DimNeverClips(shots: seq<Shot>, leds: set<int>, z: real, h: nat, w: nat, ch: Channel, m: nat, i: nat, j: nat)
    requires Uniform(shots, h, w) && Dim(shots, h, w, ch, m) && |shots| * m <= 32767
    requires i < h && j < w
    ensures NeverClips(Column(shots, z, |shots|, h, w, ch, i, j), Flags(shots, leds, |shots|))
    ensures Sum(Column(shots, z, |shots|, h, w, ch, i, j)) <= 32767
  {
    hide Column, NeverClips, Sum;
    var c := Column(shots, z, |shots|, h, w, ch, i, j);
    ColumnContributions(shots, z, |shots|, h, w, ch, i, j);
    assert shots[..|shots|] == shots;
    forall k | 0 <= k < |shots| ensures 0 <= c[k] <= m {
      var s := shots[k];
      assert c[k] == Get(Shifted(s, z)[i][j], ch);
      assert Shifted(s, z)[i][j] == s.px[(i - XShift(s, z)) % h][(j - YShift(s, z)) % w];
    }
    SmallNeverClips(c, Flags(shots, leds, |shots|), m);
  }

  /** In a dim channel the brightfield sum conserves light at every distance. */
  lemma DimConserves(shots: seq<Shot>, z: real, h: nat, w: nat, ch: Channel, m: nat)
    requires Uniform(shots, h, w) && Dim(shots, h, w, ch, m) && |shots| * m <= 32767
    ensures Total(BrightFrame(shots, z, |shots|, h, w, ch)) == LightOf(shots, Lit(shots), |shots|, ch)
  {
    hide Column, Total, NeverClips, Sum, BrightFrame, LightOf;
    forall i: nat, j: nat | i < h && j < w ensures Sum(Column(shots, z, |shots|, h, w, ch, i, j)) <= 65535 {
      DimNeverClips(shots, {}, z, h, w, ch, m, i, j);
    }
    BrightfieldConserves(shots, z, h, w, ch);
  }

  /** A stack that is dim in green is safe at every pixel, for every list of LEDs. */
  lemma DimSafe(a: seq<Shot>, leds: set<int>, z: real, h: nat, w: nat, m: nat, i: nat, j: nat)
    requires Uniform(a, h, w) && Dim(a, h, w, Green, m) && |a| * m <= 32767 && i < h && j < w
    ensures SafeAt(a, leds, z, h, w, i, j)
  {
    hide SignedPixel, Term, Fold, Column, Sum, NeverClips;
    SignedPixelFolds(a, leds, z, h, w, i, j);
    DimNeverClips(a, leds, z, h, w, Green, m, i, j);
    TermsWithinSum(Column(a, z, |a|, h, w, Green, i, j), Flags(a, leds, |a|));
  }

  /** A stack that is dim in green has the same differential images in every order. */
  lemma DimOrderFree(a: seq<Shot>, b: seq<Shot>, leds: set<int>, z: real, h: nat, w: nat, m: nat)
    requires Uniform(a, h, w) && Uniform(b, h, w)
    requires multiset(b) == multiset(a) && Dim(a, h, w, Green, m) && |a| * m <= 32767
    ensures SignedFrame(b, leds, z, |b|, h, w) == SignedFrame(a, leds, z, |a|, h, w)
  {
    hide SafeAt, SignedPixel;
    forall i: nat, j: nat | i < h && j < w ensures SafeAt(a, leds, z, h, w, i, j) {
      DimSafe(a, leds, z, h, w, m, i, j);
    }
    SafeOrders(a, b, leds, z, h, w);
  }

  /** The differential value never exceeds the green brightfield value in size, at any moment and with any clipping. */
  lemma SignedWithinBrightfield(shots: seq<Shot>, leds: set<int>, z: real, k: nat, h: nat, w: nat, i: nat, j: nat)
    requires Fitting(shots, h, w) && k <= |shots| && i < h && j < w
    ensures var b: int := BrightPixel(shots, z, k, h, w, i, j).green;
      -b <= SignedPixel(shots, leds, z, k, h, w, i, j) <= b
  {
    SignedWithinBright(Column(shots, z, k, h, w, Green, i, j), Flags(shots, leds, k));
  }

  /** On dim stacks the two sums differ by exactly twice the images that are not listed. */
  lemma BrightfieldMinusSigned(shots: seq<Shot>, leds: set<int>, z: real, h: nat, w: nat, m: nat, i: nat, j: nat)
    requires Uniform(shots, h, w) && Dim(shots, h, w, Green, m) && |shots| * m <= 32767
    requires i < h && j < w
    ensures var n := |shots|;
      BrightPixel(shots, z, n, h, w, i, j).green - SignedPixel(shots, leds, z, n, h, w, i, j)
        == 2 * Sum(Subtracted(Column(shots, z, n, h, w, Green, i, j), Flags(shots, leds, n)))
  {
    hide Column, Bright, Signed, NeverClips, Sum;
    DimNeverClips(shots, leds, z, h, w, Green, m, i, j);
    BrightMinusSigned(Column(shots, z, |shots|, h, w, Green, i, j), Flags(shots, leds, |shots|));
  }

  /** On dim stacks the totals are the same at every two distances and for every two orders of the stack. */
  lemma DistanceAndOrderFree(a: seq<Shot>, b: seq<Shot>, leds: set<int>, z: real, z': real, h: nat, w: nat, m: nat)
    requires Uniform(a, h, w) && Uniform(b, h, w)
    requires multiset(a) == multiset(b) && Dim(a, h, w, Green, m) && |a| * m <= 32767
    ensures Total(SignedFrame(a, leds, z, |a|, h, w)) == Total(SignedFrame(b, leds, z', |b|, h, w))
  {
    hide Column, Total, LightOf, NeverClips, Sum;
    UniformPermuted(a, b, h, w);
    DimPermuted(a, b, h, w, Green, m);
    forall i: nat, j: nat | i < h && j < w
      ensures NeverClips(Column(a, z, |a|, h, w, Green, i, j), Flags(a, leds, |a|))
      ensures NeverClips(Column(b, z', |b|, h, w, Green, i, j), Flags(b, leds, |b|))
    {
      DimNeverClips(a, leds, z, h, w, Green, m, i, j);
      DimNeverClips(b, leds, z', h, w, Green, m, i, j);
    }
    DifferentialConserves(a, leds, z, h, w);
    DifferentialConserves(b, leds, z', h, w);
    OrderFree(a, b, leds, z, h, w, Green);
  }
}
