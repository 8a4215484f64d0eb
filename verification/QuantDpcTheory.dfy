/** The regularised inversion behind the quantitative phase image: what the filter minimises at one frequency. */
module QuantDpcTheory {
  import opened ComplexField

  type RealFrame = seq<seq<real>>

  /** A quotient by a real number, part by part. */
  function Over(a: Complex, d: real): Complex
    requires d != 0.0
  {
    Complex(a.re / d, a.im / d)
  }

  /** The filtered coefficient for a measured coefficient i and a transfer function i h. */
  function FilterValue(i: Complex, h: real, reg: real): Complex
    requires h * h + reg != 0.0
  {
    Over(Mul(i, Complex(0.0, -h)), h * h + reg)
  }

  /** Misfit of the phase coefficient p plus its regularisation. */
  function Cost(p: Complex, i: Complex, h: real, reg: real): real {
    Norm2(Sub(Mul(Complex(0.0, h), p), i)) + reg * Norm2(p)
  }

  lemma RegularisedPositive(h: real, reg: real)
    requires reg > 0.0
    ensures h * h + reg > 0.0
  {
    SquarePositive(h);
  }

  /** With d = h h + reg, the filtered coefficient p solves d p = -i h I; completing the square does the rest. */
  lemma CostSquare(x: real, y: real, u: real, v: real, a: real, b: real, h: real, reg: real)
    requires (h * h + reg) * u == b * h && (h * h + reg) * v == -(a * h)
    ensures (-(h * y) - a) * (-(h * y) - a) + (h * x - b) * (h * x - b) + reg * (x * x + y * y)
            == (-(h * v) - a) * (-(h * v) - a) + (h * u - b) * (h * u - b) + reg * (u * u + v * v)
               + (h * h + reg) * ((x - u) * (x - u) + (y - v) * (y - v))
  {
    var d := h * h + reg;
    var s, t := x - u, y - v;
    // The difference of the two sides is twice s (d u - b h) plus twice t (d v + a h).
    assert (h * x - b) * (h * x - b) + reg * (x * x)
           == (h * u - b) * (h * u - b) + reg * (u * u) + d * (s * s) + 2.0 * s * (d * u - b * h);
    assert (-(h * y) - a) * (-(h * y) - a) + reg * (y * y)
           == (-(h * v) - a) * (-(h * v) - a) + reg * (v * v) + d * (t * t) + 2.0 * t * (d * v + a * h);
  }

  /** The normal equation of one frequency. */
  lemma FilterSolves(i: Complex, h: real, reg: real)
    requires h * h + reg != 0.0
    ensures var p := FilterValue(i, h, reg);
      (h * h + reg) * p.re == i.im * h && (h * h + reg) * p.im == -(i.re * h)
  {
    var d, p := h * h + reg, FilterValue(i, h, reg);
    var z := Mul(i, Complex(0.0, -h));
    assert z.re == i.im * h && z.im == -(i.re * h);
    assert p.re == z.re / d && p.im == z.im / d;
    hide Mul, FilterValue;
    Requotient(z.re, d);
    Requotient(z.im, d);
  }

  lemma Requotient(x: real, d: real)
    requires d != 0.0
    ensures d * (x / d) == x
  {
  }

  /** The excess cost of any candidate over the filtered coefficient is its weighted squared distance. */
  lemma CostExcess(p: Complex, i: Complex, h: real, reg: real)
    requires h * h + reg != 0.0
    ensures Cost(p, i, h, reg)
            == Cost(FilterValue(i, h, reg), i, h, reg) + (h * h + reg) * Norm2(Sub(p, FilterValue(i, h, reg)))
  {
    var q := FilterValue(i, h, reg);
    FilterSolves(i, h, reg);
    hide FilterValue;
    CostSquare(p.re, p.im, q.re, q.im, i.re, i.im, h, reg);
    CostParts(p, i, h, reg);
    CostParts(q, i, h, reg);
    hide Cost;
  }

  lemma CostParts(p: Complex, i: Complex, h: real, reg: real)
    ensures Cost(p, i, h, reg) ==
      (-(h * p.im) - i.re) * (-(h * p.im) - i.re) + (h * p.re - i.im) * (h * p.re - i.im) + reg * (p.re * p.re + p.im * p.im)
  {
    assert Mul(Complex(0.0, h), p) == Complex(-(h * p.im), h * p.re);
    hide Mul;
  }

  /** The filtered coefficient is the one and only minimiser of the cost. */
  lemma FilterMinimises(p: Complex, i: Complex, h: real, reg: real)
    requires reg > 0.0
    ensures h * h + reg != 0.0
    ensures Cost(FilterValue(i, h, reg), i, h, reg) <= Cost(p, i, h, reg)
    ensures Cost(FilterValue(i, h, reg), i, h, reg) == Cost(p, i, h, reg) <==> p == FilterValue(i, h, reg)
  {
    RegularisedPositive(h, reg);
    CostExcess(p, i, h, reg);
    var d, e := h * h + reg, Norm2(Sub(p, FilterValue(i, h, reg)));
    Norm2Zero(Sub(p, FilterValue(i, h, reg)));
    SubZero(p, FilterValue(i, h, reg));
    hide Cost, FilterValue, Norm2;
    ProductSign(d, e);
  }

  // ---- both channels at once

  /** The coefficient that fits two measurements by two transfer functions at once. */
  function JointValue(i0: Complex, i1: Complex, h0: real, h1: real, reg: real): Complex
    requires h0 * h0 + h1 * h1 + reg != 0.0
  {
    Over(Add(Mul(i0, Complex(0.0, -h0)), Mul(i1, Complex(0.0, -h1))), h0 * h0 + h1 * h1 + reg)
  }

  /** Misfit of p to both measurements plus its regularisation. */
  function JointCost(p: Complex, i0: Complex, i1: Complex, h0: real, h1: real, reg: real): real {
    Norm2(Sub(Mul(Complex(0.0, h0), p), i0)) + Cost(p, i1, h1, reg)
  }

  lemma JointRegular(h0: real, h1: real, reg: real)
    requires reg > 0.0
    ensures h0 * h0 + h1 * h1 + reg > 0.0
  {
    SquarePositive(h0);
    SquarePositive(h1);
  }

  /** The normal equation of both channels. */
  lemma JointSolves(i0: Complex, i1: Complex, h0: real, h1: real, reg: real)
    requires h0 * h0 + h1 * h1 + reg != 0.0
    ensures var d, p := h0 * h0 + h1 * h1 + reg, JointValue(i0, i1, h0, h1, reg);
      d * p.re == i0.im * h0 + i1.im * h1 && d * p.im == -(i0.re * h0 + i1.re * h1)
  {
    hide Mul, Add, Over;
    var d := h0 * h0 + h1 * h1 + reg;
    var z := Add(Mul(i0, Complex(0.0, -h0)), Mul(i1, Complex(0.0, -h1)));
    assert JointValue(i0, i1, h0, h1, reg) == Over(z, d);
    hide JointValue;
    JointNumerator(i0, i1, h0, h1);
    OverTimes(z, d);
  }

  lemma JointNumerator(i0: Complex, i1: Complex, h0: real, h1: real)
    ensures var z := Add(Mul(i0, Complex(0.0, -h0)), Mul(i1, Complex(0.0, -h1)));
      z.re == i0.im * h0 + i1.im * h1 && z.im == -(i0.re * h0 + i1.re * h1)
  {
  }

  lemma OverTimes(z: Complex, d: real)
    requires d != 0.0
    ensures d * Over(z, d).re == z.re && d * Over(z, d).im == z.im
  {
    Requotient(z.re, d);
    Requotient(z.im, d);
  }

  /** The part of the joint cost that one component of the coefficient causes. */
  function Line(x: real, h0: real, b0: real, h1: real, b1: real, reg: real): real {
    (h0 * x - b0) * (h0 * x - b0) + ((h1 * x - b1) * (h1 * x - b1) + reg * (x * x))
  }

  lemma ShiftedSquare(h: real, b: real, u: real, s: real)
    ensures (h * (u + s) - b) * (h * (u + s) - b) == (h * u - b) * (h * u - b) + h * h * (s * s) + 2.0 * s * (h * h * u - b * h)
  {
    var t := h * u - b;
    assert h * (u + s) - b == t + h * s;
    assert (t + h * s) * (t + h * s) == t * t + h * s * (h * s) + 2.0 * (t * (h * s));
    assert t * (h * s) == s * (h * h * u - b * h);
  }

  lemma LineExcess(x: real, u: real, h0: real, b0: real, h1: real, b1: real, reg: real)
    requires (h0 * h0 + h1 * h1 + reg) * u == b0 * h0 + b1 * h1
    ensures Line(x, h0, b0, h1, b1, reg) == Line(u, h0, b0, h1, b1, reg) + (h0 * h0 + h1 * h1 + reg) * ((x - u) * (x - u))
  {
    var s := x - u;
    ShiftedSquare(h0, b0, u, s);
    ShiftedSquare(h1, b1, u, s);
    assert reg * (x * x) == reg * (u * u) + reg * (s * s) + 2.0 * s * (reg * u);
    var k0, k1, k := h0 * h0 * u - b0 * h0, h1 * h1 * u - b1 * h1, reg * u;
    assert k0 + k1 + k == 0.0;
    assert 2.0 * s * k0 + 2.0 * s * k1 + 2.0 * s * k == 2.0 * s * (k0 + k1 + k);
  }

  /** The squared misfit of one component. */
  function Part(h: real, x: real, b: real): real { (h * x - b) * (h * x - b) }

  lemma MisfitParts(p: Complex, i: Complex, h: real)
    ensures Norm2(Sub(Mul(Complex(0.0, h), p), i)) == Part(-h, p.im, i.re) + Part(h, p.re, i.im)
  {
    assert Mul(Complex(0.0, h), p) == Complex(-(h * p.im), h * p.re);
    assert -h * p.im == -(h * p.im);
  }

  function Weight(reg: real, x: real): real { reg * (x * x) }

  lemma LineSquares(x: real, h0: real, b0: real, h1: real, b1: real, reg: real)
    ensures Line(x, h0, b0, h1, b1, reg) == Part(h0, x, b0) + Part(h1, x, b1) + Weight(reg, x)
  {
  }

  lemma WeightedCost(p: Complex, i: Complex, h: real, reg: real)
    ensures Cost(p, i, h, reg) == Part(-h, p.im, i.re) + Part(h, p.re, i.im) + Weight(reg, p.re) + Weight(reg, p.im)
  {
    hide Mul, Sub, Part;
    MisfitParts(p, i, h);
    assert reg * Norm2(p) == Weight(reg, p.re) + Weight(reg, p.im);
  }

  lemma JointParts(p: Complex, i0: Complex, i1: Complex, h0: real, h1: real, reg: real)
    ensures JointCost(p, i0, i1, h0, h1, reg) ==
      Line(p.re, h0, i0.im, h1, i1.im, reg) + Line(p.im, -h0, i0.re, -h1, i1.re, reg)
  {
    hide Norm2, Mul, Sub, Cost, Line, Part, Weight;
    MisfitParts(p, i0, h0);
    WeightedCost(p, i1, h1, reg);
    LineSquares(p.re, h0, i0.im, h1, i1.im, reg);
    LineSquares(p.im, -h0, i0.re, -h1, i1.re, reg);
  }

  /** The joint coefficient is the one and only minimiser of the joint cost. */
  lemma JointMinimises(p: Complex, i0: Complex, i1: Complex, h0: real, h1: real, reg: real)
    requires reg > 0.0
    ensures h0 * h0 + h1 * h1 + reg != 0.0
    ensures var q := JointValue(i0, i1, h0, h1, reg);
      JointCost(q, i0, i1, h0, h1, reg) <= JointCost(p, i0, i1, h0, h1, reg) &&
      (JointCost(q, i0, i1, h0, h1, reg) == JointCost(p, i0, i1, h0, h1, reg) <==> p == q)
  {
    JointRegular(h0, h1, reg);
    var d, q := h0 * h0 + h1 * h1 + reg, JointValue(i0, i1, h0, h1, reg);
    JointSolves(i0, i1, h0, h1, reg);
    JointExcess(p, q, i0, i1, h0, h1, reg);
    Norm2Zero(Sub(p, q));
    SubZero(p, q);
    hide JointCost, JointValue, Norm2;
    ProductSign(d, Norm2(Sub(p, q)));
  }

  lemma JointExcess(p: Complex, q: Complex, i0: Complex, i1: Complex, h0: real, h1: real, reg: real)
    requires var d := h0 * h0 + h1 * h1 + reg;
      d * q.re == i0.im * h0 + i1.im * h1 && d * q.im == -(i0.re * h0 + i1.re * h1)
    ensures JointCost(p, i0, i1, h0, h1, reg)
            == JointCost(q, i0, i1, h0, h1, reg) + (h0 * h0 + h1 * h1 + reg) * Norm2(Sub(p, q))
  {
    hide JointCost, Line;
    JointParts(p, i0, i1, h0, h1, reg);
    JointParts(q, i0, i1, h0, h1, reg);
    LineExcess(p.re, q.re, h0, i0.im, h1, i1.im, reg);
    LineExcess(p.im, q.im, -h0, i0.re, -h1, i1.re, reg);
  }

  /** For these measurements, summing the channels first finds the joint minimiser. */
  predicate SumsAgree(i0: Complex, i1: Complex, h0: real, h1: real, reg: real)
    requires (h0 + h1) * (h0 + h1) + reg != 0.0 && h0 * h0 + h1 * h1 + reg != 0.0
  {
    FilterValue(Add(i0, i1), h0 + h1, reg) == JointValue(i0, i1, h0, h1, reg)
  }

  /** Summing the channels first, as the source does, finds the joint minimiser for all measurements only where
      both transfer values are zero. */
  lemma SumsMissJoint(h0: real, h1: real, reg: real)
    requires reg > 0.0
    ensures (h0 + h1) * (h0 + h1) + reg != 0.0 && h0 * h0 + h1 * h1 + reg != 0.0
    ensures (forall i0: Complex, i1: Complex :: SumsAgree(i0, i1, h0, h1, reg))
            <==> (h0 == 0.0 && h1 == 0.0)
  {
    RegularisedPositive(h0 + h1, reg);
    JointRegular(h0, h1, reg);
    hide SumsAgree;
    if h0 == 0.0 && h1 == 0.0 {
      forall i0: Complex, i1: Complex ensures SumsAgree(i0, i1, h0, h1, reg) {
        NothingTransferred(i0, i1, reg);
      }
    } else if forall i0: Complex, i1: Complex :: SumsAgree(i0, i1, h0, h1, reg) {
      UnitsAgree(h0, h1, reg);
    }
  }

  lemma NothingTransferred(i0: Complex, i1: Complex, reg: real)
    requires reg > 0.0
    ensures SumsAgree(i0, i1, 0.0, 0.0, reg)
  {
    var i := Add(i0, i1);
    var p, q := FilterValue(i, 0.0, reg), JointValue(i0, i1, 0.0, 0.0, reg);
    FilterSolves(i, 0.0, reg);
    JointSolves(i0, i1, 0.0, 0.0, reg);
    hide FilterValue, JointValue, Add;
    ProductZero(reg, p);
    ProductZero(reg, q);
  }

  lemma ProductZero(d: real, p: Complex)
    requires d * p.re == 0.0 && d * p.im == 0.0 && d > 0.0
    ensures p == ZERO
  {
    RealNoZeroDivisors(d, p.re);
    RealNoZeroDivisors(d, p.im);
  }

  lemma UnitsAgree(h0: real, h1: real, reg: real)
    requires reg > 0.0 && (h0 + h1) * (h0 + h1) + reg != 0.0 && h0 * h0 + h1 * h1 + reg != 0.0
    requires SumsAgree(ONE, ZERO, h0, h1, reg) && SumsAgree(ZERO, ONE, h0, h1, reg)
    ensures h0 == 0.0 && h1 == 0.0
  {
    assert Add(ONE, ZERO) == ONE && Add(ZERO, ONE) == ONE;
    var s, e, d, t := h0 + h1, (h0 + h1) * (h0 + h1) + reg, h0 * h0 + h1 * h1 + reg, FilterValue(ONE, h0 + h1, reg).im;
    FilterSolves(ONE, s, reg);
    JointSolves(ONE, ZERO, h0, h1, reg);
    JointSolves(ZERO, ONE, h0, h1, reg);
    hide FilterValue, JointValue;
    UnitsCore(h0, h1, reg, e, d, t);
  }

  lemma UnitsCore(h0: real, h1: real, reg: real, e: real, d: real, t: real)
    requires e == (h0 + h1) * (h0 + h1) + reg && d == h0 * h0 + h1 * h1 + reg && reg > 0.0
    requires e * t == -(h0 + h1) && d * t == -h0 && d * t == -h1
    ensures h0 == 0.0 && h1 == 0.0
  {
    assert e == 4.0 * (h0 * h0) + reg && d == 2.0 * (h0 * h0) + reg;
    TwiceMinus(d, e, t, reg);
    RealNoZeroDivisors(reg, t);
  }

  lemma TwiceMinus(d: real, e: real, t: real, reg: real)
    requires 2.0 * d - e == reg && e * t == 2.0 * (d * t)
    ensures reg * t == 0.0
  {
    assert (2.0 * d - e) * t == 2.0 * (d * t) - e * t;
  }

  lemma SubZero(a: Complex, b: Complex)
    ensures Sub(a, b) == ZERO <==> a == b
  {
  }

  lemma ProductSign(d: real, e: real)
    requires d > 0.0 && e >= 0.0
    ensures d * e >= 0.0
    ensures d * e == 0.0 <==> e == 0.0
  {
  }

  /** The filter cannot amplify beyond 1 / (2 sqrt reg), and does so only where h h equals reg. */
  lemma FilterStable(i: Complex, h: real, reg: real)
    requires reg > 0.0
    ensures h * h + reg != 0.0
    ensures 4.0 * reg * Norm2(FilterValue(i, h, reg)) <= Norm2(i)
    ensures 4.0 * reg * Norm2(FilterValue(i, h, reg)) == Norm2(i) <==> (i == ZERO || h * h == reg)
  {
    hide FilterValue, Norm2;
    RegularisedPositive(h, reg);
    FilterSolves(i, h, reg);
    Norm2Zero(i);
    NormOfSolution(FilterValue(i, h, reg), i, h, h * h + reg);
    hide *;
    StableCore(h * h, reg, Norm2(FilterValue(i, h, reg)), Norm2(i));
  }

  lemma StableCore(k: real, reg: real, m: real, n: real)
    requires k + reg > 0.0 && n >= 0.0
    requires (k + reg) * (k + reg) * m == k * n
    ensures 4.0 * reg * m <= n
    ensures 4.0 * reg * m == n <==> (n == 0.0 || k == reg)
  {
    var dd, s := (k + reg) * (k + reg), (k - reg) * (k - reg);
    ProductSign(k + reg, k + reg);
    SquarePositive(k - reg);
    assert dd == 4.0 * (reg * k) + s;
    assert dd * (4.0 * reg * m) == 4.0 * reg * (k * n);
    assert dd * (n - 4.0 * reg * m) == s * n by {
      assert dd * n == 4.0 * (reg * k) * n + s * n;
    }
    StableStep(dd, 4.0 * reg * m, n, s);
  }

  lemma NormOfSolution(p: Complex, i: Complex, h: real, d: real)
    requires d * p.re == i.im * h && d * p.im == -(i.re * h)
    ensures d * d * Norm2(p) == h * h * Norm2(i)
  {
    var u, v, a, b := p.re, p.im, i.re, i.im;
    assert d * d * (u * u) == (d * u) * (d * u);
    assert d * d * (v * v) == (d * v) * (d * v);
    assert (b * h) * (b * h) == h * h * (b * b) && (a * h) * (a * h) == h * h * (a * a);
  }

  lemma NegativeProduct(d: real, e: real)
    requires d > 0.0
    ensures e < 0.0 ==> d * e < 0.0
  {
  }

  lemma StableStep(dd: real, x: real, n: real, s: real)
    requires dd > 0.0 && n >= 0.0 && s >= 0.0
    requires dd * (n - x) == s * n
    ensures x <= n
    ensures x == n <==> n == 0.0 || s == 0.0
  {
    ProductNonNegative(s, n);
    NegativeProduct(dd, n - x);
    ProductSign(dd, n - x);
    if s * n == 0.0 {
      RealNoZeroDivisors(s, n);
    }
  }
}
