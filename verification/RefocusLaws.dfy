/** Where the pixels of a stack land and what arrives at a pixel, in terms of the lighting angles themselves. */
module RefocusLaws {
  import opened Grids
  import opened Totals
  import opened Accumulators
  import opened OrderOfAddition
  import opened RefocusTheory

  /** x is the integer nearest to t, and the one further from zero where two are equally near. */
  predicate NearestAway(x: int, t: real) {
    var miss := 2.0 * (x as real - t);
    -1.0 < miss < 1.0 || (miss == 1.0 && t > 0.0) || (miss == -1.0 && t < 0.0)
  }

  lemma RoundAwayExactly(x: int, t: real)
    ensures NearestAway(x, t) <==> x == RoundAway(t)
  {
    var n := RoundAway(t);
    assert NearestAway(n, t);
    if NearestAway(x, t) {
      assert -1.0 <= x as real - n as real <= 1.0;
      assert x == n + 1 ==> x as real == n as real + 1.0;
      assert x == n - 1 ==> x as real == n as real - 1.0;
    }
  }

  /** The whole shift for the distance z at a lighting angle with tangent t. */
  predicate Displaces(x: int, z: real, t: real) { NearestAway(x, z * t) }

  lemma DisplacementExactly(x: int, z: real, t: real)
    ensures Displaces(x, z, t) <==> x == Displacement(z, t)
  {
    var d := z * t;
    RoundAwayExactly(x, d);
    hide NearestAway, RoundAway;
  }

  /** The whole shifts of a shot for the distance z. */
  predicate MovesBy(s: Shot, z: real, x: int, y: int) { Displaces(x, z, s.tanX) && Displaces(y, z, s.tanY) }

  lemma MovesExactly(s: Shot, z: real, x: int, y: int)
    ensures MovesBy(s, z, x, y) <==> x == XShift(s, z) && y == YShift(s, z)
  {
    DisplacementExactly(x, z, s.tanX);
    DisplacementExactly(y, z, s.tanY);
    hide Displaces, Displacement;
  }

  /** After a pass, pixel (r, c) of its shot stands at ((r + x) mod h, (c + y) mod w) of the scratch buffer: the
      shift along x moves it down, and the shift along y moves it right. */
  lemma ScratchLands(shots: seq<Shot>, z: real, k: nat, h: nat, w: nat, x: int, y: int, r: nat, c: nat)
    requires Fitting(shots, h, w) && k < |shots| && r < shots[k].h && c < shots[k].w && MovesBy(shots[k], z, x, y)
    ensures var s, g := shots[k], Scratch(shots, z, k + 1, h, w);
      0 <= (r + x) % s.h < h && 0 <= (c + y) % s.w < w && g[(r + x) % s.h][(c + y) % s.w] == s.px[r][c]
  {
    var s := shots[k];
    MovesExactly(s, z, x, y);
    RotateLands(s.px, s.h, s.w, x, y, r, c);
    hide Rotate, XShift, YShift, MovesBy;
  }

  /** Whole shifts for every shot of a stack. */
  ghost predicate Moves(shots: seq<Shot>, z: real, xs: seq<int>, ys: seq<int>) {
    |xs| == |shots| && |ys| == |shots| && forall k :: 0 <= k < |shots| ==> MovesBy(shots[k], z, xs[k], ys[k])
  }

  /** Every stack has such shifts. */
  lemma MovesExist(shots: seq<Shot>, z: real) returns (xs: seq<int>, ys: seq<int>)
    ensures Moves(shots, z, xs, ys)
  {
    xs := seq(|shots|, k requires 0 <= k < |shots| => XShift(shots[k], z));
    ys := seq(|shots|, k requires 0 <= k < |shots| => YShift(shots[k], z));
    forall k | 0 <= k < |shots| ensures MovesBy(shots[k], z, xs[k], ys[k]) {
      MovesExactly(shots[k], z, xs[k], ys[k]);
    }
  }

  /** The values of one channel that arrive at pixel (i, j), image by image. */
  ghost function Arriving(shots: seq<Shot>, xs: seq<int>, ys: seq<int>, h: nat, w: nat, ch: Channel, i: nat, j: nat)
    : (v: seq<int>)
    requires Uniform(shots, h, w) && |xs| == |shots| && |ys| == |shots| && i < h && j < w
    ensures |v| == |shots|
    ensures forall k :: 0 <= k < |shots| ==> v[k] == Get(shots[k].px[(i - xs[k]) % h][(j - ys[k]) % w], ch)
  {
    seq(|shots|, k requires 0 <= k < |shots| => Get(shots[k].px[(i - xs[k]) % h][(j - ys[k]) % w], ch))
  }

  /** They are the values that the loop adds. */
  lemma ColumnArrives(shots: seq<Shot>, z: real, xs: seq<int>, ys: seq<int>, h: nat, w: nat, ch: Channel, i: nat, j: nat)
    requires Uniform(shots, h, w) && Moves(shots, z, xs, ys) && i < h && j < w
    ensures Column(shots, z, |shots|, h, w, ch, i, j) == Arriving(shots, xs, ys, h, w, ch, i, j)
  {
    hide Column, XShift, YShift, MovesBy;
    var c := Column(shots, z, |shots|, h, w, ch, i, j);
    ColumnContributions(shots, z, |shots|, h, w, ch, i, j);
    assert shots[..|shots|] == shots;
    forall k | 0 <= k < |shots| ensures c[k] == Arriving(shots, xs, ys, h, w, ch, i, j)[k] {
      var s := shots[k];
      MovesExactly(s, z, xs[k], ys[k]);
      assert c[k] == Get(Shifted(s, z)[i][j], ch);
    }
  }

  /** The brightfield value of a channel is the sum of what arrives, cut off at 65535. */
  lemma BrightArrives(shots: seq<Shot>, z: real, xs: seq<int>, ys: seq<int>, h: nat, w: nat, ch: Channel, i: nat, j: nat)
    requires Uniform(shots, h, w) && Moves(shots, z, xs, ys) && i < h && j < w
    ensures var sum := Sum(Arriving(shots, xs, ys, h, w, ch, i, j));
      Get(BrightPixel(shots, z, |shots|, h, w, i, j), ch) == if sum <= 65535 then sum else 65535
  {
    hide Column, Bright, Sum, Moves, Arriving;
    ColumnArrives(shots, z, xs, ys, h, w, ch, i, j);
    BrightExact(Column(shots, z, |shots|, h, w, ch, i, j));
  }

  /** What the differential sums add at a pixel: the green values that arrive, each cut off at 32767, negative for
      the LEDs that are not listed. */
  ghost function Contributions(shots: seq<Shot>, leds: set<int>, xs: seq<int>, ys: seq<int>, h: nat, w: nat, i: nat, j: nat)
    : (t: seq<int>)
    requires Uniform(shots, h, w) && |xs| == |shots| && |ys| == |shots| && i < h && j < w
    ensures |t| == |shots|
    ensures forall k :: 0 <= k < |shots| ==>
      var v: int := shots[k].px[(i - xs[k]) % h][(j - ys[k]) % w].green;
      var cut := if v <= 32767 then v else 32767;
      t[k] == if shots[k].led in leds then cut else -cut
  {
    seq(|shots|, k requires 0 <= k < |shots| =>
      var v: int := shots[k].px[(i - xs[k]) % h][(j - ys[k]) % w].green;
      var cut := if v <= 32767 then v else 32767;
      if shots[k].led in leds then cut else -cut)
  }

  /** The differential value is the saturating sum of the contributions, and their true sum where they are safe. */
  lemma SignedArrives(shots: seq<Shot>, leds: set<int>, z: real, xs: seq<int>, ys: seq<int>, h: nat, w: nat, i: nat, j: nat)
    requires Uniform(shots, h, w) && Moves(shots, z, xs, ys) && i < h && j < w
    ensures var t := Contributions(shots, leds, xs, ys, h, w, i, j);
      SignedPixel(shots, leds, z, |shots|, h, w, i, j) == Fold(t) &&
      (OrderSafe(t) ==> SignedPixel(shots, leds, z, |shots|, h, w, i, j) == SaturateS(Sum(t)))
  {
    hide Column, Fold, MovesBy, Sum;
    var t := Contributions(shots, leds, xs, ys, h, w, i, j);
    var c, f := Column(shots, z, |shots|, h, w, Green, i, j), Flags(shots, leds, |shots|);
    ColumnArrives(shots, z, xs, ys, h, w, Green, i, j);
    SignedFolds(c, f);
    assert Terms(c, f) == t;
    if OrderSafe(t) {
      FoldSafe(t);
      NetSum(t);
    }
  }

  lemma {:induction false} NetSum(t: seq<int>)
    ensures Gains(t) - Losses(t) == Sum(t)
  {
    if t != [] {
      NetSum(t[..|t| - 1]);
    }
  }

  /** The LEDs of the left half, row by row. */
  lemma LeftRows(led: int)
    ensures led in LEFT <==>
      159 <= led <= 160 || 180 <= led <= 182 || 201 <= led <= 203 || 223 <= led <= 226 || 246 <= led <= 249 ||
      270 <= led <= 272 || 292 <= led <= 295 || 315 <= led <= 317 || 338 <= led <= 340 || led == 361
  {
  }

  /** The LEDs of the top half, row by row. */
  lemma TopRows(led: int)
    ensures led in TOP <==>
      270 <= led <= 276 || 292 <= led <= 299 || 315 <= led <= 321 || 338 <= led <= 343 || 361 <= led <= 362
  {
  }
}
