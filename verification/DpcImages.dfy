/** The differential image of `calcDPC`: a masked, normalised difference rescaled to eight bits. */
module DpcImages {
  import opened Grids
  import opened ComplexField
  import opened QuantDpcTheory
  import opened Rescaling

  type Mask = seq<seq<bool>>

  /** The element-wise quotient of OpenCV: division by zero gives zero. */
  function SafeQuotient(x: real, y: real): real { if y == 0.0 then 0.0 else x / y }

  /** The normalised difference of two intensities. */
  function Contrast(a: real, b: real): real { SafeQuotient(a - b, a + b) }

  /** The masked contrast image; outside the mask it is zero. */
  function ContrastImage(a: RealFrame, b: RealFrame, mask: Mask, h: nat, w: nat): (r: RealFrame)
    requires Rect(a, h, w) && Rect(b, h, w) && Rect(mask, h, w)
    ensures Rect(r, h, w)
    ensures forall i, j :: 0 <= i < h && 0 <= j < w ==>
      r[i][j] == if mask[i][j] then Contrast(a[i][j], b[i][j]) else 0.0
  {
    seq(h, i requires 0 <= i < h => seq(w, j requires 0 <= j < w =>
      if mask[i][j] then Contrast(a[i][j], b[i][j]) else 0.0))
  }

  /** Rounding to the nearest integer, ties to the even one. */
  function Round(t: real): int {
    var f := t.Floor;
    var d := t - f as real;
    if d < 0.5 || (d == 0.5 && f % 2 == 0) then f else f + 1
  }

  function Saturate8(v: int): int { if v < 0 then 0 else if v > 255 then 255 else v }

  /** A value of an image with extremes lo < hi, on the scale from 0 to 255. */
  function Level(v: real, lo: real, hi: real): real
    requires lo < hi
  {
    v * (255.0 / (hi - lo)) + -lo * 255.0 / (hi - lo)
  }

  /** An image that cannot be rescaled, because all its values are equal, or the eight-bit image. */
  datatype Rescaled = Constant | Levels(px: seq<seq<int>>)

  function ToLevels(g: RealFrame, h: nat, w: nat): (r: Rescaled)
    requires Rect(g, h, w) && 0 < h && 0 < w
    ensures r.Constant? <==> Low(g, h, w) == High(g, h, w)
    ensures r.Levels? ==> Low(g, h, w) < High(g, h, w) && Rect(r.px, h, w)
    ensures r.Levels? ==> forall i, j :: 0 <= i < h && 0 <= j < w ==>
      r.px[i][j] == Saturate8(Round(Level(g[i][j], Low(g, h, w), High(g, h, w))))
  {
    var lo, hi := Low(g, h, w), High(g, h, w);
    assert lo <= g[0][0] <= hi;
    if lo == hi then Constant else
    Levels(seq(h, i requires 0 <= i < h => seq(w, j requires 0 <= j < w => Saturate8(Round(Level(g[i][j], lo, hi))))))
  }

  // ---- what the levels mean

  /** p is the integer nearest to 255 (v - lo) / (hi - lo), and the even one where two are equally near. */
  predicate LevelOf(p: int, v: real, lo: real, hi: real) {
    var miss, half := p as real * (hi - lo) - 255.0 * (v - lo), (hi - lo) / 2.0;
    -half <= miss <= half && ((miss == half || miss == -half) ==> p % 2 == 0)
  }

  /** Equally spaced levels are the only ones of this kind. */
  lemma LevelUnique(p: int, q: int, v: real, lo: real, hi: real)
    requires lo < hi && LevelOf(p, v, lo, hi) && LevelOf(q, v, lo, hi)
    ensures p == q
  {
    var d := hi - lo;
    LevelByMiss(p, v, lo, hi, p as real * d);
    LevelByMiss(q, v, lo, hi, q as real * d);
    NotTwoApart(p, q, d, p as real * d, q as real * d);
    NotTwoApart(q, p, d, q as real * d, p as real * d);
    hide LevelOf;
  }

  lemma NotTwoApart(p: int, q: int, d: real, pd: real, qd: real)
    requires d > 0.0 && pd == p as real * d && qd == q as real * d
    ensures p >= q + 2 ==> pd - qd >= 2.0 * d
    ensures p == q + 1 ==> pd - qd == d
  {
    var m := (p - q) as real;
    assert m * d == pd - qd;
    if p >= q + 2 {
      ProductNonNegative(m - 2.0, d);
      assert (m - 2.0) * d == m * d - 2.0 * d;
    }
  }

  /** Rounding picks the nearest integer, and the even one on a tie. */
  lemma RoundNearest(t: real)
    ensures -0.5 <= Round(t) as real - t <= 0.5
    ensures Round(t) as real - t == 0.5 || Round(t) as real - t == -0.5 ==> Round(t) % 2 == 0
  {
  }

  lemma LevelNearest(v: real, lo: real, hi: real)
    requires lo < hi && lo <= v <= hi
    ensures LevelOf(Saturate8(Round(Level(v, lo, hi))), v, lo, hi)
  {
    var t := Level(v, lo, hi);
    LevelBounded(v, lo, hi);
    RoundNearest(t);
    LevelTimes(v, lo, hi);
    hide Level, Round, Saturate8;
    NearestLevel(Round(t), t, v, lo, hi, hi - lo);
  }

  lemma NearestLevel(n: int, t: real, v: real, lo: real, hi: real, d: real)
    requires d == hi - lo > 0.0 && t * d == 255.0 * (v - lo)
    requires -0.5 <= n as real - t <= 0.5 && (n as real - t == 0.5 || n as real - t == -0.5 ==> n % 2 == 0)
    ensures LevelOf(n, v, lo, hi)
  {
    var m, nd := n as real - t, n as real * d;
    var md := m * d;
    MissTimes(n as real, t, d, m);
    TimesHalf(m, d, md);
    LevelByMiss(n, v, lo, hi, nd);
    assert md == nd - 255.0 * (v - lo);
    hide LevelOf;
  }

  /** The definition with its product named. */
  lemma LevelByMiss(n: int, v: real, lo: real, hi: real, nd: real)
    requires nd == n as real * (hi - lo)
    ensures LevelOf(n, v, lo, hi) <==>
      -((hi - lo) / 2.0) <= nd - 255.0 * (v - lo) <= (hi - lo) / 2.0 &&
      ((nd - 255.0 * (v - lo) == (hi - lo) / 2.0 || nd - 255.0 * (v - lo) == -((hi - lo) / 2.0)) ==> n % 2 == 0)
  {
  }

  lemma MissTimes(n: real, t: real, d: real, miss: real)
    requires miss == n - t
    ensures miss * d == n * d - t * d
  {
  }

  lemma LevelTimes(v: real, lo: real, hi: real)
    requires lo < hi
    ensures Level(v, lo, hi) * (hi - lo) == 255.0 * (v - lo)
  {
    var q := 255.0 / (hi - lo);
    assert q * (hi - lo) == 255.0;
    assert -lo * 255.0 / (hi - lo) == -lo * q;
    assert (v * q + -lo * q) * (hi - lo) == (v - lo) * (q * (hi - lo));
  }

  lemma TimesHalf(m: real, d: real, md: real)
    requires -0.5 <= m <= 0.5 && d > 0.0 && md == m * d
    ensures -(d / 2.0) <= md <= d / 2.0
    ensures md == d / 2.0 <==> m == 0.5
    ensures md == -(d / 2.0) <==> m == -0.5
  {
    ProductNonNegative(0.5 - m, d);
    ProductNonNegative(m + 0.5, d);
    assert (0.5 - m) * d == d / 2.0 - md;
    assert (m + 0.5) * d == d / 2.0 + md;
    if md == d / 2.0 {
      RealNoZeroDivisors(0.5 - m, d);
    }
    if md == -(d / 2.0) {
      RealNoZeroDivisors(m + 0.5, d);
    }
  }

  /** The result shows the image: equally spaced levels between the extremes, or the report that there are none. */
  ghost predicate Shows(r: Rescaled, g: RealFrame, h: nat, w: nat)
    requires Rect(g, h, w) && 0 < h && 0 < w
  {
    match r
    case Constant => forall i, j :: 0 <= i < h && 0 <= j < w ==> g[i][j] == g[0][0]
    case Levels(px) =>
      Low(g, h, w) < High(g, h, w) && Rect(px, h, w) &&
      forall i, j :: 0 <= i < h && 0 <= j < w ==> LevelOf(px[i][j], g[i][j], Low(g, h, w), High(g, h, w))
  }

  /** Rescaling to eight bits shows the image, and nothing else does. */
  lemma LevelsShow(g: RealFrame, h: nat, w: nat, r: Rescaled)
    requires Rect(g, h, w) && 0 < h && 0 < w
    ensures Shows(r, g, h, w) <==> r == ToLevels(g, h, w)
  {
    var t := ToLevels(g, h, w);
    ToLevelsShows(g, h, w);
    if Shows(r, g, h, w) {
      if r.Levels? && t.Levels? {
        SameLevels(r.px, t.px, g, h, w);
      } else if t.Levels? {
        SpreadNotConstant(g, h, w);
      }
    }
  }

  lemma SpreadNotConstant(g: RealFrame, h: nat, w: nat)
    requires Rect(g, h, w) && 0 < h && 0 < w && Low(g, h, w) < High(g, h, w)
    ensures !(forall i, j :: 0 <= i < h && 0 <= j < w ==> g[i][j] == g[0][0])
  {
    hide Low, High;
    var i, j :| 0 <= i < h && 0 <= j < w && g[i][j] == Low(g, h, w);
    var k, l :| 0 <= k < h && 0 <= l < w && g[k][l] == High(g, h, w);
  }

  lemma ToLevelsShows(g: RealFrame, h: nat, w: nat)
    requires Rect(g, h, w) && 0 < h && 0 < w
    ensures Shows(ToLevels(g, h, w), g, h, w)
  {
    hide ToLevels, Level, Round, Saturate8, Low, High, LevelOf;
    var t := ToLevels(g, h, w);
    if t.Levels? {
      forall i, j | 0 <= i < h && 0 <= j < w ensures LevelOf(t.px[i][j], g[i][j], Low(g, h, w), High(g, h, w)) {
        LevelNearest(g[i][j], Low(g, h, w), High(g, h, w));
      }
    }
  }

  lemma SameLevels(x: seq<seq<int>>, y: seq<seq<int>>, g: RealFrame, h: nat, w: nat)
    requires Rect(g, h, w) && 0 < h && 0 < w && Shows(Levels(x), g, h, w) && Shows(Levels(y), g, h, w)
    ensures x == y
  {
    hide LevelOf, Low, High;
    forall i, j | 0 <= i < h && 0 <= j < w ensures x[i][j] == y[i][j] {
      LevelUnique(x[i][j], y[i][j], g[i][j], Low(g, h, w), High(g, h, w));
    }
    GridEqual(x, y, h, w);
  }

  /** c is the contrast of intensities a and b: positive where the first is brighter. */
  predicate ContrastOf(c: real, a: real, b: real) {
    if a + b == 0.0 then c == 0.0 else c * (a + b) == a - b
  }

  lemma ContrastExactly(c: real, a: real, b: real)
    ensures ContrastOf(c, a, b) <==> c == Contrast(a, b)
  {
    var x, s := a - b, a + b;
    if s != 0.0 {
      var q := x / s;
      assert q * s == x;
      if c * s == x {
        assert (c - q) * s == 0.0;
        RealNoZeroDivisors(c - q, s);
      }
    }
  }

  /** g holds the contrast of the two images inside the mask and zero outside. */
  ghost predicate Contrasts(g: RealFrame, a: RealFrame, b: RealFrame, mask: Mask, h: nat, w: nat)
    requires Rect(a, h, w) && Rect(b, h, w) && Rect(mask, h, w)
  {
    Rect(g, h, w) && forall i, j :: 0 <= i < h && 0 <= j < w ==>
      if mask[i][j] then ContrastOf(g[i][j], a[i][j], b[i][j]) else g[i][j] == 0.0
  }

  lemma ContrastsExactly(g: RealFrame, a: RealFrame, b: RealFrame, mask: Mask, h: nat, w: nat)
    requires Rect(a, h, w) && Rect(b, h, w) && Rect(mask, h, w)
    ensures Contrasts(g, a, b, mask, h, w) <==> g == ContrastImage(a, b, mask, h, w)
  {
    hide Contrast, ContrastOf;
    var c := ContrastImage(a, b, mask, h, w);
    if Rect(g, h, w) {
      forall i, j | 0 <= i < h && 0 <= j < w
        ensures (if mask[i][j] then ContrastOf(g[i][j], a[i][j], b[i][j]) else g[i][j] == 0.0) <==> g[i][j] == c[i][j]
      {
        ContrastExactly(g[i][j], a[i][j], b[i][j]);
      }
      if Contrasts(g, a, b, mask, h, w) {
        GridEqual(g, c, h, w);
      }
    }
  }

  /** The result is the differential image of the two intensity images: it shows their masked contrast. */
  ghost predicate Differential(r: Rescaled, a: RealFrame, b: RealFrame, mask: Mask, h: nat, w: nat)
    requires Rect(a, h, w) && Rect(b, h, w) && Rect(mask, h, w) && 0 < h && 0 < w
  {
    forall g: RealFrame | Contrasts(g, a, b, mask, h, w) :: Shows(r, g, h, w)
  }

  /** There is exactly one such result. */
  lemma DifferentialExactly(r: Rescaled, a: RealFrame, b: RealFrame, mask: Mask, h: nat, w: nat)
    requires Rect(a, h, w) && Rect(b, h, w) && Rect(mask, h, w) && 0 < h && 0 < w
    ensures Differential(r, a, b, mask, h, w) <==> r == ToLevels(ContrastImage(a, b, mask, h, w), h, w)
  {
    hide Contrasts, Shows, ToLevels, Contrast;
    var c := ContrastImage(a, b, mask, h, w);
    ContrastsExactly(c, a, b, mask, h, w);
    LevelsShow(c, h, w, r);
    forall g: RealFrame | Contrasts(g, a, b, mask, h, w) ensures g == c {
      ContrastsExactly(g, a, b, mask, h, w);
    }
  }

  /** Contrast is positive exactly where the first image is the brighter one. */
  lemma ContrastSign(c: real, a: real, b: real)
    requires a >= 0.0 && b >= 0.0 && ContrastOf(c, a, b)
    ensures c > 0.0 <==> a > b
    ensures c < 0.0 <==> a < b
  {
    assert c > 0.0 && a + b > 0.0 ==> c * (a + b) > 0.0;
    assert c < 0.0 && a + b > 0.0 ==> c * (a + b) < 0.0;
  }

  /** Levels are in the order of the values. */
  lemma LevelsOrdered(p: int, q: int, u: real, v: real, lo: real, hi: real)
    requires lo < hi && LevelOf(p, u, lo, hi) && LevelOf(q, v, lo, hi) && u <= v
    ensures p <= q
  {
    var d := hi - lo;
    LevelByMiss(p, u, lo, hi, p as real * d);
    LevelByMiss(q, v, lo, hi, q as real * d);
    NotTwoApart(p, q, d, p as real * d, q as real * d);
    hide LevelOf;
  }

  /** Where the first image is the brighter one the level is at least that of any pixel where it is not. */
  lemma BrighterIsHigher(px: seq<seq<int>>, a: RealFrame, b: RealFrame, mask: Mask, h: nat, w: nat,
                         i: nat, j: nat, k: nat, l: nat)
    requires Rect(a, h, w) && Rect(b, h, w) && Rect(mask, h, w) && i < h && j < w && k < h && l < w
    requires Differential(Levels(px), a, b, mask, h, w) && mask[i][j] && mask[k][l]
    requires a[i][j] >= b[i][j] >= 0.0 && 0.0 <= a[k][l] <= b[k][l]
    ensures Rect(px, h, w) && px[i][j] >= px[k][l]
  {
    hide ContrastOf, Contrast, LevelOf, Low, High;
    var g := ContrastImage(a, b, mask, h, w);
    ContrastsExactly(g, a, b, mask, h, w);
    ContrastSign(g[i][j], a[i][j], b[i][j]);
    ContrastSign(g[k][l], a[k][l], b[k][l]);
    LevelsOrdered(px[k][l], px[i][j], g[k][l], g[i][j], Low(g, h, w), High(g, h, w));
  }

  /** The element-wise operations of `calcDPC`: subtract, add, divide. */
  method Quotients(image1: array2<real>, image2: array2<real>) returns (quotient: array2<real>)
    requires image2.Length0 == image1.Length0 && image2.Length1 == image1.Length1
    ensures fresh(quotient) && quotient.Length0 == image1.Length0 && quotient.Length1 == image1.Length1
    ensures forall i, j :: 0 <= i < image1.Length0 && 0 <= j < image1.Length1 ==>
      quotient[i, j] == Contrast(image1[i, j], image2[i, j])
  {
    hide SafeQuotient;
    var h, w := image1.Length0, image1.Length1;
    var tmp1 := new real[h, w]((i, j) requires 0 <= i < h && 0 <= j < w reads image1, image2 =>
      image1[i, j] - image2[i, j]);
    var tmp2 := new real[h, w]((i, j) requires 0 <= i < h && 0 <= j < w reads image1, image2 =>
      image1[i, j] + image2[i, j]);
    quotient := new real[h, w]((i, j) requires 0 <= i < h && 0 <= j < w reads tmp1, tmp2 =>
      SafeQuotient(tmp1[i, j], tmp2[i, j]));
  }

  /** The differential image of two intensity images. */
  method CalcDPC(image1: array2<real>, image2: array2<real>, mask: Mask) returns (output: Rescaled)
    requires 0 < image1.Length0 && 0 < image1.Length1
    requires image2.Length0 == image1.Length0 && image2.Length1 == image1.Length1
    requires Rect(mask, image1.Length0, image1.Length1)
    ensures output == ToLevels(ContrastImage(View(image1), View(image2), mask, image1.Length0, image1.Length1),
      image1.Length0, image1.Length1)
    ensures Differential(output, View(image1), View(image2), mask, image1.Length0, image1.Length1)
  {
    hide Contrast, ToLevels, Differential;
    var h, w := image1.Length0, image1.Length1;
    var quotient := Quotients(image1, image2);
    var circMask := new real[h, w]((i, j) requires 0 <= i < h && 0 <= j < w => if mask[i][j] then 1.0 else 0.0);
    forall i, j | 0 <= i < h && 0 <= j < w {
      quotient[i, j] := quotient[i, j] * circMask[i, j];
    }
    GridEqual(View(quotient), ContrastImage(View(image1), View(image2), mask, h, w), h, w);
    output := ToLevels(View(quotient), h, w);
    DifferentialExactly(output, View(image1), View(image2), mask, h, w);
  }

  /** The contrast of non-negative intensities lies between -1 and 1, and reaches an end exactly when one
      of the two is dark and the other is not. */
  lemma ContrastBounded(a: real, b: real)
    requires a >= 0.0 && b >= 0.0
    ensures -1.0 <= Contrast(a, b) <= 1.0
    ensures Contrast(a, b) == 1.0 <==> b == 0.0 && a > 0.0
    ensures Contrast(a, b) == -1.0 <==> a == 0.0 && b > 0.0
  {
    if a + b != 0.0 {
      var q := Contrast(a, b);
      assert q * (a + b) == a - b;
      assert (1.0 - q) * (a + b) == 2.0 * b;
      assert (1.0 + q) * (a + b) == 2.0 * a;
      SignOfFactor(1.0 - q, a + b, 2.0 * b);
      SignOfFactor(1.0 + q, a + b, 2.0 * a);
    }
  }

  lemma SignOfFactor(x: real, y: real, z: real)
    requires x * y == z && y > 0.0 && z >= 0.0
    ensures x >= 0.0
    ensures x == 0.0 <==> z == 0.0
  {
    assert x < 0.0 ==> x * y < 0.0;
    if x * y == 0.0 {
      RealNoZeroDivisors(x, y);
    }
  }

  /** Swapping the images changes the sign; a common exposure factor cancels. */
  lemma ContrastSymmetries(a: real, b: real, k: real, ka: real, kb: real)
    requires k > 0.0 && ka == k * a && kb == k * b
    ensures Contrast(b, a) == -Contrast(a, b)
    ensures Contrast(ka, kb) == Contrast(a, b)
  {
    var s := a + b;
    assert k * a + k * b == k * s && k * a - k * b == k * (a - b);
    if s != 0.0 {
      assert k * s != 0.0 by {
        if k * s == 0.0 {
          RealNoZeroDivisors(k, s);
        }
      }
      QuotientFacts(a - b, s, k);
    }
  }

  lemma QuotientFacts(x: real, s: real, k: real)
    requires s != 0.0 && k > 0.0 && k * s != 0.0
    ensures (k * x) / (k * s) == x / s
    ensures (-x) / s == -(x / s)
  {
    var q := x / s;
    assert q * s == x;
    assert q * (k * s) == k * x;
  }

  /** Multiplying both images by an exposure factor leaves the differential image as it is. */
  lemma ExposureInvariant(a: RealFrame, b: RealFrame, mask: Mask, h: nat, w: nat, k: real)
    requires Rect(a, h, w) && Rect(b, h, w) && Rect(mask, h, w) && 0 < h && 0 < w && k > 0.0
    ensures ToLevels(ContrastImage(Mapped(a, h, w, k, 0.0), Mapped(b, h, w, k, 0.0), mask, h, w), h, w)
            == ToLevels(ContrastImage(a, b, mask, h, w), h, w)
  {
    hide Contrast, ToLevels;
    var x, y := ContrastImage(Mapped(a, h, w, k, 0.0), Mapped(b, h, w, k, 0.0), mask, h, w), ContrastImage(a, b, mask, h, w);
    forall i, j | 0 <= i < h && 0 <= j < w ensures x[i][j] == y[i][j] {
      ContrastSymmetries(a[i][j], b[i][j], k, Affine(k, 0.0, a[i][j]), Affine(k, 0.0, b[i][j]));
    }
    GridEqual(x, y, h, w);
  }

  /** The level of the opposite value in the opposite image is the complement. */
  lemma LevelComplement(v: real, lo: real, hi: real)
    requires lo < hi
    ensures Level(-v, -hi, -lo) == 255.0 - Level(v, lo, hi)
  {
    var q := 255.0 / (hi - lo);
    assert -hi < -lo && -lo - -hi == hi - lo;
    assert -lo * 255.0 / (hi - lo) == -lo * q;
    assert -(-hi) * 255.0 / (hi - lo) == hi * q;
    assert hi * q - lo * q == (hi - lo) * q == 255.0;
  }

  /** Levels of values between the extremes stay between 0 and 255: saturation never acts. */
  lemma LevelBounded(v: real, lo: real, hi: real)
    requires lo < hi && lo <= v <= hi
    ensures 0.0 <= Level(v, lo, hi) <= 255.0
    ensures Saturate8(Round(Level(v, lo, hi))) == Round(Level(v, lo, hi))
    ensures Level(lo, lo, hi) == 0.0 && Level(hi, lo, hi) == 255.0
  {
    var q := 255.0 / (hi - lo);
    assert q > 0.0 && q * (hi - lo) == 255.0;
    assert -lo * 255.0 / (hi - lo) == -lo * q;
    assert Level(v, lo, hi) == q * (v - lo);
    ProductNonNegative(q, v - lo);
    ProductNonNegative(q, hi - v);
    assert q * (v - lo) + q * (hi - v) == q * (hi - lo);
  }

  /** Rounding and complementing commute exactly off the ties, and miss each other by one on them. */
  lemma RoundComplement(t: real)
    ensures Round(255.0 - t) + Round(t) == 255 <==> t - t.Floor as real != 0.5
    ensures 254 <= Round(255.0 - t) + Round(t) <= 256
  {
    var f := t.Floor;
    var d := t - f as real;
    if d == 0.0 {
      assert (255.0 - t).Floor == 255 - f;
    } else {
      assert (255.0 - t).Floor == 254 - f;
    }
  }

  /** Swapping the two images complements the differential image: constant stays constant, and each level
      v becomes 255 - v, exactly so unless the unrounded level is halfway between two integers. */
  lemma SwapComplements(a: RealFrame, b: RealFrame, mask: Mask, h: nat, w: nat, i: nat, j: nat)
    requires Rect(a, h, w) && Rect(b, h, w) && Rect(mask, h, w) && i < h && j < w
    ensures var r := ContrastImage(a, b, mask, h, w);
      var x, y := ToLevels(r, h, w), ToLevels(ContrastImage(b, a, mask, h, w), h, w);
      if x.Constant? then y.Constant? else
        var t := Level(r[i][j], Low(r, h, w), High(r, h, w));
        y.Levels? && 254 <= x.px[i][j] + y.px[i][j] <= 256 &&
        (x.px[i][j] + y.px[i][j] == 255 <==> t - t.Floor as real != 0.5)
  {
    hide Contrast, ContrastImage, ToLevels, Level, Low, High, Round, Saturate8;
    var r, n := ContrastImage(a, b, mask, h, w), ContrastImage(b, a, mask, h, w);
    forall k, l | 0 <= k < h && 0 <= l < w ensures n[k][l] == -r[k][l] {
      ContrastSymmetries(a[k][l], b[k][l], 1.0, a[k][l], b[k][l]);
    }
    NegatedExtremes(r, n, h, w);
    if Low(r, h, w) < High(r, h, w) {
      PixelComplement(r[i][j], Low(r, h, w), High(r, h, w));
    }
  }

  lemma PixelComplement(v: real, lo: real, hi: real)
    requires lo < hi && lo <= v <= hi
    ensures var t := Level(v, lo, hi);
      var sum := Saturate8(Round(t)) + Saturate8(Round(Level(-v, -hi, -lo)));
      254 <= sum <= 256 && (sum == 255 <==> t - t.Floor as real != 0.5)
  {
    LevelComplement(v, lo, hi);
    LevelBounded(v, lo, hi);
    LevelBounded(-v, -hi, -lo);
    RoundComplement(Level(v, lo, hi));
    hide Level, Round, Saturate8;
  }
}
