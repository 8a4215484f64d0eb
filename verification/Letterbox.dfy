/** The placement of a resized image inside a square, as `GetSquareImage` computes it. */
module Letterbox {
  import opened CircularShifts

  /** Whether `part` is the length `side` scaled by target / longest and cut to whole pixels. */
  predicate Scaled(part: nat, side: nat, longest: nat, target: nat) {
    part * longest <= side * target < (part + 1) * longest
  }

  /** The region covers the target along the longer side; along the shorter it has the proportional length,
      cut to whole pixels, and margins that differ by at most one. It is empty exactly when that length is
      below one pixel. */
  method SquareRoi(width: nat, height: nat, targetWidth: nat) returns (roi: Roi)
    requires 0 < width && 0 < height && 0 < targetWidth
    ensures roi.x + roi.width <= targetWidth && roi.y + roi.height <= targetWidth
    ensures width >= height ==>
      roi.x == 0 && roi.width == targetWidth && Scaled(roi.height, height, width, targetWidth) &&
      0 <= targetWidth - (roi.y + roi.height) - roi.y <= 1
    ensures roi.width > 0 && roi.height > 0 <==>
      targetWidth * (if width < height then width else height) >= if width < height then height else width
    ensures width < height ==>
      roi.y == 0 && roi.height == targetWidth && Scaled(roi.width, width, height, targetWidth) &&
      0 <= targetWidth - (roi.x + roi.width) - roi.x <= 1
  {
    var maxDim := if width >= height then width else height;
    var scale := targetWidth as real / maxDim as real;
    roi := Roi(0, 0, 0, 0);
    if width >= height {
      roi := roi.(width := targetWidth, x := 0);
      ScaledFloor(height, maxDim, targetWidth, scale);
      roi := roi.(height := (height as real * scale).Floor);
      roi := roi.(y := (targetWidth - roi.height) / 2);
    } else {
      roi := roi.(y := 0, height := targetWidth);
      ScaledFloor(width, maxDim, targetWidth, scale);
      roi := roi.(width := (width as real * scale).Floor);
      roi := roi.(x := (targetWidth - roi.width) / 2);
    }
  }

  lemma ScaledFloor(side: nat, longest: nat, target: nat, scale: real)
    requires 0 < side <= longest && 0 < target && scale == target as real / longest as real
    ensures 0 <= (side as real * scale).Floor <= target
    ensures Scaled((side as real * scale).Floor, side, longest, target)
    ensures (side as real * scale).Floor > 0 <==> target * side >= longest
  {
    var q := side as real * scale;
    ScaledBounds(side as real, longest as real, target as real, scale, q);
    CastProduct(side, target);
    FloorCut(q, side * target, longest);
    PositivePart(q.Floor, side * target, longest);
  }

  lemma PositivePart(part: nat, p: nat, longest: nat)
    requires part * longest <= p < (part + 1) * longest
    ensures part > 0 <==> p >= longest
  {
    if part > 0 {
      assert part * longest == longest + (part - 1) * longest;
      assert (part - 1) * longest >= 0;
    }
  }

  lemma ScaledBounds(side: real, longest: real, target: real, scale: real, q: real)
    requires 0.0 < side <= longest && 0.0 < target && scale == target / longest && q == side * scale
    ensures q * longest == side * target && 0.0 <= q <= target
  {
    assert scale * longest == target && scale > 0.0;
    assert side * scale * longest == side * (scale * longest);
    Below(0.0, side, scale);
    Below(side, longest, scale);
  }

  /** Cutting a fraction p / l to its integer part. */
  lemma FloorCut(q: real, p: nat, l: nat)
    requires 0 < l && q >= 0.0 && q * l as real == p as real
    ensures q.Floor * l <= p < (q.Floor + 1) * l
  {
    Cut(q.Floor, q.Floor + 1, q, p, l);
  }

  lemma Cut(f: nat, g: nat, q: real, p: nat, l: nat)
    requires 0 < l && q * l as real == p as real && f as real <= q < g as real
    ensures f * l <= p < g * l
  {
    Below(f as real, q, l as real);
    Below(q, g as real, l as real);
    CastProduct(f, l);
    CastProduct(g, l);
  }

  lemma CastProduct(a: nat, b: nat)
    ensures (a * b) as real == a as real * b as real
  {
  }

  lemma Below(a: real, b: real, k: real)
    requires k > 0.0
    ensures a <= b ==> a * k <= b * k
    ensures a < b ==> a * k < b * k
  {
    assert (b - a) * k == b * k - a * k;
    assert b > a ==> (b - a) * k > 0.0;
  }
}
