/** Min-max rescaling of real images, and what it makes irrelevant. */
module Rescaling {
  import opened Grids
  import opened ComplexField
  import opened QuantDpcTheory

  function RowLow(s: seq<real>): (m: real)
    requires s != []
    ensures exists j :: 0 <= j < |s| && s[j] == m
    ensures forall j :: 0 <= j < |s| ==> m <= s[j]
  {
    if |s| == 1 then s[0] else
    var m := RowLow(s[..|s| - 1]);
    if s[|s| - 1] < m then s[|s| - 1] else m
  }

  /** The least pixel value. */
  function Low(g: RealFrame, h: nat, w: nat): (m: real)
    requires Rect(g, h, w) && 0 < h && 0 < w
    ensures exists i, j :: 0 <= i < h && 0 <= j < w && g[i][j] == m
    ensures forall i, j :: 0 <= i < h && 0 <= j < w ==> m <= g[i][j]
  {
    var last := RowLow(g[h - 1]);
    if h == 1 then last else
    var m := Low(g[..h - 1], h - 1, w);
    if last < m then last else m
  }

  function Affine(a: real, b: real, x: real): real { a * x + b }

  /** Every pixel value x replaced by a x + b. */
  function Mapped(g: RealFrame, h: nat, w: nat, a: real, b: real): (r: RealFrame)
    requires Rect(g, h, w)
    ensures Rect(r, h, w)
    ensures forall i, j :: 0 <= i < h && 0 <= j < w ==> r[i][j] == Affine(a, b, g[i][j])
  {
    seq(h, i requires 0 <= i < h => seq(w, j requires 0 <= j < w => Affine(a, b, g[i][j])))
  }

  /** The greatest pixel value. */
  function High(g: RealFrame, h: nat, w: nat): (m: real)
    requires Rect(g, h, w) && 0 < h && 0 < w
    ensures exists i, j :: 0 <= i < h && 0 <= j < w && g[i][j] == m
    ensures forall i, j :: 0 <= i < h && 0 <= j < w ==> g[i][j] <= m
  {
    var n := Mapped(g, h, w, -1.0, 0.0);
    var m := -Low(n, h, w);
    assert forall i, j :: 0 <= i < h && 0 <= j < w ==> n[i][j] == -g[i][j];
    m
  }

  /** An attained lower bound is the least value. */
  lemma LowUnique(g: RealFrame, h: nat, w: nat, m: real, i: nat, j: nat)
    requires Rect(g, h, w) && i < h && j < w && g[i][j] == m
    requires forall r, c :: 0 <= r < h && 0 <= c < w ==> m <= g[r][c]
    ensures Low(g, h, w) == m
  {
  }

  lemma HighUnique(g: RealFrame, h: nat, w: nat, m: real, i: nat, j: nat)
    requires Rect(g, h, w) && i < h && j < w && g[i][j] == m
    requires forall r, c :: 0 <= r < h && 0 <= c < w ==> g[r][c] <= m
    ensures High(g, h, w) == m
  {
  }

  function Range(g: RealFrame, h: nat, w: nat): real
    requires Rect(g, h, w) && 0 < h && 0 < w
  {
    High(g, h, w) - Low(g, h, w)
  }

  lemma Increasing(a: real, b: real, x: real, y: real)
    requires a > 0.0
    ensures Affine(a, b, x) <= Affine(a, b, y) <==> x <= y
    ensures Affine(a, b, x) == Affine(a, b, y) <==> x == y
  {
    assert a * (y - x) == a * y - a * x;
    assert x < y ==> a * (y - x) > 0.0;
    assert y < x ==> a * (x - y) > 0.0;
  }

  /** An increasing affine map moves the extremes along. */
  lemma MappedExtremes(g: RealFrame, h: nat, w: nat, a: real, b: real)
    requires Rect(g, h, w) && 0 < h && 0 < w && a > 0.0
    ensures Low(Mapped(g, h, w, a, b), h, w) == Affine(a, b, Low(g, h, w))
    ensures High(Mapped(g, h, w, a, b), h, w) == Affine(a, b, High(g, h, w))
  {
    hide Low, High, Affine;
    var m, lo, hi := Mapped(g, h, w, a, b), Low(g, h, w), High(g, h, w);
    var i, j :| 0 <= i < h && 0 <= j < w && g[i][j] == lo;
    var k, l :| 0 <= k < h && 0 <= l < w && g[k][l] == hi;
    forall r, c | 0 <= r < h && 0 <= c < w ensures Affine(a, b, lo) <= m[r][c] <= Affine(a, b, hi) {
      Increasing(a, b, lo, g[r][c]);
      Increasing(a, b, g[r][c], hi);
    }
    LowUnique(m, h, w, Affine(a, b, lo), i, j);
    HighUnique(m, h, w, Affine(a, b, hi), k, l);
  }

  lemma MappedRange(g: RealFrame, h: nat, w: nat, a: real, b: real)
    requires Rect(g, h, w) && 0 < h && 0 < w && a > 0.0
    ensures Range(Mapped(g, h, w, a, b), h, w) == a * Range(g, h, w)
  {
    hide Low, High;
    MappedExtremes(g, h, w, a, b);
    assert a * (High(g, h, w) - Low(g, h, w)) == a * High(g, h, w) - a * Low(g, h, w);
  }

  function Min(a: real, b: real): real { if a <= b then a else b }

  function Max(a: real, b: real): real { if a <= b then b else a }

  /** The factor of a rescaling to [alpha, beta]; a range of at most eps counts as none. */
  function Factor(range: real, alpha: real, beta: real, eps: real): real
    requires eps >= 0.0
  {
    if range > eps then (Max(alpha, beta) - Min(alpha, beta)) / range else 0.0
  }

  /** The shift that brings the least value lo to the lower end of the interval. */
  function Offset(k: real, lo: real, alpha: real, beta: real): real { Min(alpha, beta) - k * lo }

  /** `normalize` with NORM_MINMAX: the image rescaled to the interval between alpha and beta. */
  function Normalized(g: RealFrame, h: nat, w: nat, alpha: real, beta: real, eps: real): (r: RealFrame)
    requires Rect(g, h, w) && 0 < h && 0 < w && eps >= 0.0
    ensures Rect(r, h, w)
  {
    var k := Factor(Range(g, h, w), alpha, beta, eps);
    Mapped(g, h, w, k, Offset(k, Low(g, h, w), alpha, beta))
  }

  lemma FactorSpan(range: real, alpha: real, beta: real, eps: real)
    requires range > eps >= 0.0
    ensures Factor(range, alpha, beta, eps) * range == Max(alpha, beta) - Min(alpha, beta)
    ensures alpha != beta ==> Factor(range, alpha, beta, eps) > 0.0
  {
  }

  /** A rescaled image spans its interval, in the order of the original pixels. */
  lemma NormalizedSpans(g: RealFrame, h: nat, w: nat, alpha: real, beta: real, eps: real)
    requires Rect(g, h, w) && 0 < h && 0 < w && eps >= 0.0 && alpha != beta && Range(g, h, w) > eps
    ensures var r := Normalized(g, h, w, alpha, beta, eps);
      Low(r, h, w) == Min(alpha, beta) && High(r, h, w) == Max(alpha, beta) && SameOrder(g, r, h, w)
  {
    hide Low, High, Factor, Affine, Offset, Min, Max;
    var lo, hi := Low(g, h, w), High(g, h, w);
    FactorSpan(Range(g, h, w), alpha, beta, eps);
    var k := Factor(Range(g, h, w), alpha, beta, eps);
    var b := Offset(k, lo, alpha, beta);
    OffsetEnds(k, lo, hi, alpha, beta);
    MappedExtremes(g, h, w, k, b);
    forall i, j, m, l | 0 <= i < h && 0 <= j < w && 0 <= m < h && 0 <= l < w
      ensures Affine(k, b, g[i][j]) <= Affine(k, b, g[m][l]) <==> g[i][j] <= g[m][l]
    {
      Increasing(k, b, g[i][j], g[m][l]);
    }
  }

  /** An image without range is rescaled to the lower end of the interval. */
  lemma NormalizedFlat(g: RealFrame, h: nat, w: nat, alpha: real, beta: real, eps: real, i: nat, j: nat)
    requires Rect(g, h, w) && i < h && j < w && eps >= 0.0 && Range(g, h, w) <= eps
    ensures Normalized(g, h, w, alpha, beta, eps)[i][j] == Min(alpha, beta)
  {
    var k := Factor(Range(g, h, w), alpha, beta, eps);
    assert k == 0.0;
    hide Low, High, Range, Factor;
  }

  /** The value v of an image with least value lo, on the scale that carries the range to [alpha, beta]: in
      proportion, or at the lower end if there is no range. */
  predicate ValueOf(r: real, v: real, lo: real, range: real, alpha: real, beta: real, eps: real) {
    if range > eps then (r - Min(alpha, beta)) * range == (Max(alpha, beta) - Min(alpha, beta)) * (v - lo)
    else r == Min(alpha, beta)
  }

  /** r is g with its values spread over the interval in proportion. */
  ghost predicate Spread(r: RealFrame, g: RealFrame, h: nat, w: nat, alpha: real, beta: real, eps: real)
    requires Rect(g, h, w) && 0 < h && 0 < w
  {
    Rect(r, h, w) && forall i, j :: 0 <= i < h && 0 <= j < w ==>
      ValueOf(r[i][j], g[i][j], Low(g, h, w), Range(g, h, w), alpha, beta, eps)
  }

  lemma ValueExactly(r: real, v: real, lo: real, range: real, alpha: real, beta: real, eps: real)
    requires eps >= 0.0
    ensures var k := Factor(range, alpha, beta, eps);
      ValueOf(r, v, lo, range, alpha, beta, eps) <==> r == Affine(k, Offset(k, lo, alpha, beta), v)
  {
    var k := Factor(range, alpha, beta, eps);
    var want := Affine(k, Offset(k, lo, alpha, beta), v);
    if range > eps {
      FactorSpan(range, alpha, beta, eps);
      hide Factor, Min, Max;
      ProportionOf(k, range, v - lo, want - Min(alpha, beta));
      if (r - want) * range == 0.0 {
        RealNoZeroDivisors(r - want, range);
      }
      assert (r - want) * range == (r - Min(alpha, beta)) * range - (want - Min(alpha, beta)) * range;
    }
  }

  lemma ProportionOf(k: real, range: real, d: real, x: real)
    requires x == k * d
    ensures x * range == k * range * d
  {
  }

  /** Rescaling spreads the values in proportion, and nothing else does. */
  lemma SpreadExactly(r: RealFrame, g: RealFrame, h: nat, w: nat, alpha: real, beta: real, eps: real)
    requires Rect(g, h, w) && 0 < h && 0 < w && eps >= 0.0
    ensures Spread(r, g, h, w, alpha, beta, eps) <==> r == Normalized(g, h, w, alpha, beta, eps)
  {
    hide Low, High, Range, Factor, Affine, Offset, ValueOf;
    var want := Normalized(g, h, w, alpha, beta, eps);
    if Rect(r, h, w) {
      forall i, j | 0 <= i < h && 0 <= j < w
        ensures ValueOf(r[i][j], g[i][j], Low(g, h, w), Range(g, h, w), alpha, beta, eps) <==> r[i][j] == want[i][j]
      {
        ValueExactly(r[i][j], g[i][j], Low(g, h, w), Range(g, h, w), alpha, beta, eps);
      }
      if Spread(r, g, h, w, alpha, beta, eps) {
        GridEqual(r, want, h, w);
      }
    }
  }

  ghost predicate SameOrder(g: RealFrame, r: RealFrame, h: nat, w: nat)
    requires Rect(g, h, w) && Rect(r, h, w)
  {
    forall i, j, k, l :: 0 <= i < h && 0 <= j < w && 0 <= k < h && 0 <= l < w ==>
      (r[i][j] <= r[k][l] <==> g[i][j] <= g[k][l])
  }

  lemma OffsetEnds(k: real, lo: real, hi: real, alpha: real, beta: real)
    requires k * (hi - lo) == Max(alpha, beta) - Min(alpha, beta)
    ensures Affine(k, Offset(k, lo, alpha, beta), lo) == Min(alpha, beta)
    ensures Affine(k, Offset(k, lo, alpha, beta), hi) == Max(alpha, beta)
  {
    assert k * (hi - lo) == k * hi - k * lo;
  }

  /** Rescaling forgets any increasing affine map made before it. */
  lemma NormalizedAbsorbs(g: RealFrame, h: nat, w: nat, a: real, b: real, alpha: real, beta: real, eps: real)
    requires Rect(g, h, w) && 0 < h && 0 < w && eps >= 0.0 && a > 0.0
    requires Range(g, h, w) > eps && Range(Mapped(g, h, w, a, b), h, w) > eps
    ensures Normalized(Mapped(g, h, w, a, b), h, w, alpha, beta, eps) == Normalized(g, h, w, alpha, beta, eps)
  {
    hide Low, High, Factor, Range, Affine, Offset;
    var lo, range, range' := Low(g, h, w), Range(g, h, w), Range(Mapped(g, h, w, a, b), h, w);
    MappedExtremes(g, h, w, a, b);
    MappedRange(g, h, w, a, b);
    FactorShrinks(a, range, range', alpha, beta, eps);
    var k, k' := Factor(range, alpha, beta, eps), Factor(range', alpha, beta, eps);
    var lhs, rhs := Normalized(Mapped(g, h, w, a, b), h, w, alpha, beta, eps), Normalized(g, h, w, alpha, beta, eps);
    forall i, j | 0 <= i < h && 0 <= j < w ensures lhs[i][j] == rhs[i][j] {
      AffineCancels(k, k', a, b, g[i][j], lo, alpha, beta);
    }
    GridEqual(lhs, rhs, h, w);
  }

  lemma FactorShrinks(a: real, range: real, range': real, alpha: real, beta: real, eps: real)
    requires eps >= 0.0 && range > eps && a > 0.0 && range' > eps && range' == a * range
    ensures Factor(range', alpha, beta, eps) * a == Factor(range, alpha, beta, eps)
  {
    FactorSpan(range, alpha, beta, eps);
    FactorSpan(range', alpha, beta, eps);
    hide Factor;
    var k, k' := Factor(range, alpha, beta, eps), Factor(range', alpha, beta, eps);
    assert (k' * a - k) * range == 0.0;
    RealNoZeroDivisors(k' * a - k, range);
  }

  lemma AffineCancels(k: real, k': real, a: real, b: real, x: real, lo: real, alpha: real, beta: real)
    requires k' * a == k
    ensures Affine(k', Offset(k', Affine(a, b, lo), alpha, beta), Affine(a, b, x))
            == Affine(k, Offset(k, lo, alpha, beta), x)
  {
    assert k' * (a * x + b) == (k' * a) * x + k' * b;
    assert k' * (a * lo + b) == (k' * a) * lo + k' * b;
  }

  /** Rescaling forgets an increasing affine map exactly when the map does not carry the range across eps. */
  lemma NormalizedAbsorbsExactly(g: RealFrame, h: nat, w: nat, a: real, b: real, alpha: real, beta: real, eps: real)
    requires Rect(g, h, w) && 0 < h && 0 < w && eps >= 0.0 && a > 0.0 && alpha != beta
    ensures Normalized(Mapped(g, h, w, a, b), h, w, alpha, beta, eps) == Normalized(g, h, w, alpha, beta, eps)
            <==> (Range(g, h, w) > eps <==> a * Range(g, h, w) > eps)
  {
    hide Normalized, Low, High, Range, Min, Max;
    var m := Mapped(g, h, w, a, b);
    MappedRange(g, h, w, a, b);
    if Range(g, h, w) > eps && Range(m, h, w) > eps {
      NormalizedAbsorbs(g, h, w, a, b, alpha, beta, eps);
    } else if Range(g, h, w) > eps {
      FlatDiffers(m, g, h, w, alpha, beta, eps);
    } else if Range(m, h, w) > eps {
      FlatDiffers(g, m, h, w, alpha, beta, eps);
    } else {
      var lhs, rhs := Normalized(m, h, w, alpha, beta, eps), Normalized(g, h, w, alpha, beta, eps);
      forall i, j | 0 <= i < h && 0 <= j < w ensures lhs[i][j] == rhs[i][j] {
        NormalizedFlat(g, h, w, alpha, beta, eps, i, j);
        NormalizedFlat(m, h, w, alpha, beta, eps, i, j);
      }
      GridEqual(lhs, rhs, h, w);
    }
  }

  lemma FlatDiffers(flat: RealFrame, g: RealFrame, h: nat, w: nat, alpha: real, beta: real, eps: real)
    requires Rect(flat, h, w) && Rect(g, h, w) && 0 < h && 0 < w && eps >= 0.0 && alpha != beta
    requires Range(flat, h, w) <= eps < Range(g, h, w)
    ensures Normalized(flat, h, w, alpha, beta, eps) != Normalized(g, h, w, alpha, beta, eps)
  {
    hide Normalized, Range;
    NormalizedSpans(g, h, w, alpha, beta, eps);
    var r := Normalized(g, h, w, alpha, beta, eps);
    var i, j :| 0 <= i < h && 0 <= j < w && r[i][j] == High(r, h, w);
    NormalizedFlat(flat, h, w, alpha, beta, eps, i, j);
  }

  /** An image that is constant is rescaled to the lower end. */
  lemma NormalizedConstant(g: RealFrame, h: nat, w: nat, c: real, alpha: real, beta: real, eps: real)
    requires Rect(g, h, w) && 0 < h && 0 < w && eps >= 0.0
    requires forall i, j :: 0 <= i < h && 0 <= j < w ==> g[i][j] == c
    ensures Range(g, h, w) == 0.0
    ensures forall i, j :: 0 <= i < h && 0 <= j < w ==> Normalized(g, h, w, alpha, beta, eps)[i][j] == Min(alpha, beta)
  {
    hide Low, High, Normalized, Min;
    assert g[0][0] == c;
    LowUnique(g, h, w, c, 0, 0);
    HighUnique(g, h, w, c, 0, 0);
    forall i, j | 0 <= i < h && 0 <= j < w
      ensures Normalized(g, h, w, alpha, beta, eps)[i][j] == Min(alpha, beta)
    {
      NormalizedFlat(g, h, w, alpha, beta, eps, i, j);
    }
  }

  /** Without range there is nothing to rescale, twice or once. */
  lemma FlatTwice(g: RealFrame, h: nat, w: nat, alpha: real, beta: real, gamma: real, delta: real, eps: real)
    requires Rect(g, h, w) && 0 < h && 0 < w && eps >= 0.0 && Range(g, h, w) <= eps
    ensures Normalized(Normalized(g, h, w, alpha, beta, eps), h, w, gamma, delta, eps)
            == Normalized(g, h, w, gamma, delta, eps)
  {
    hide Range, Min, Max, Normalized;
    var r := Normalized(g, h, w, alpha, beta, eps);
    forall i, j | 0 <= i < h && 0 <= j < w ensures r[i][j] == Min(alpha, beta) {
      NormalizedFlat(g, h, w, alpha, beta, eps, i, j);
    }
    NormalizedConstant(r, h, w, Min(alpha, beta), gamma, delta, eps);
    var lhs, rhs := Normalized(r, h, w, gamma, delta, eps), Normalized(g, h, w, gamma, delta, eps);
    forall i, j | 0 <= i < h && 0 <= j < w ensures lhs[i][j] == rhs[i][j] {
      NormalizedFlat(g, h, w, gamma, delta, eps, i, j);
    }
    GridEqual(lhs, rhs, h, w);
  }

  /** Rescaling twice is rescaling once to the last interval, exactly unless the first interval is too
      short to count as range for an image that has some; in particular rescaling is idempotent. */
  lemma NormalizedTwice(g: RealFrame, h: nat, w: nat, alpha: real, beta: real, gamma: real, delta: real, eps: real)
    requires Rect(g, h, w) && 0 < h && 0 < w && eps >= 0.0 && alpha != beta && gamma != delta
    ensures Normalized(Normalized(g, h, w, alpha, beta, eps), h, w, gamma, delta, eps)
            == Normalized(g, h, w, gamma, delta, eps)
            <==> Range(g, h, w) <= eps || Max(alpha, beta) - Min(alpha, beta) > eps
  {
    hide Normalized, Range, Min, Max;
    if Range(g, h, w) > eps {
      RangeTwice(g, h, w, alpha, beta, gamma, delta, eps);
    } else {
      FlatTwice(g, h, w, alpha, beta, gamma, delta, eps);
    }
  }

  /** An image with range is mapped by an increasing affine map first. */
  lemma RangeTwice(g: RealFrame, h: nat, w: nat, alpha: real, beta: real, gamma: real, delta: real, eps: real)
    requires Rect(g, h, w) && 0 < h && 0 < w && eps >= 0.0 && alpha != beta && gamma != delta && Range(g, h, w) > eps
    ensures Normalized(Normalized(g, h, w, alpha, beta, eps), h, w, gamma, delta, eps)
            == Normalized(g, h, w, gamma, delta, eps)
            <==> Max(alpha, beta) - Min(alpha, beta) > eps
  {
    hide Low, High, Factor, Affine, Offset, Min, Max, Range;
    var k := Factor(Range(g, h, w), alpha, beta, eps);
    var b := Offset(k, Low(g, h, w), alpha, beta);
    assert Normalized(g, h, w, alpha, beta, eps) == Mapped(g, h, w, k, b);
    hide Normalized;
    FactorSpan(Range(g, h, w), alpha, beta, eps);
    NormalizedAbsorbsExactly(g, h, w, k, b, gamma, delta, eps);
  }

  /** The image of opposite values has opposite extremes. */
  lemma NegatedExtremes(g: RealFrame, n: RealFrame, h: nat, w: nat)
    requires Rect(g, h, w) && Rect(n, h, w) && 0 < h && 0 < w
    requires forall i, j :: 0 <= i < h && 0 <= j < w ==> n[i][j] == -g[i][j]
    ensures Low(n, h, w) == -High(g, h, w) && High(n, h, w) == -Low(g, h, w)
  {
    hide Low, High;
    var lo, hi := Low(g, h, w), High(g, h, w);
    var i, j :| 0 <= i < h && 0 <= j < w && g[i][j] == lo;
    var k, l :| 0 <= k < h && 0 <= l < w && g[k][l] == hi;
    HighUnique(n, h, w, -lo, i, j);
    LowUnique(n, h, w, -hi, k, l);
  }
}
