/** The element-wise loops of cvComplex.cpp over two-channel matrices. Each writes the real part of a
    pixel first and the imaginary part second, which matters when the output shares a buffer. */
module ComplexMats {
  import opened Grids
  import opened CircularShifts
  import opened ComplexField

  /** The right-hand side of an assignment to one channel, as a function of the two input pixels. */
  type Expression = (Complex, Complex) --> real

  /** What the second assignment sees of an input pixel once the first has stored r. */
  function Seen(x: Complex, r: real, shared: bool): Complex { if shared then x.(re := r) else x }

  /** Both assignments are defined for input pixels a and b; `first` and `second` say whether the output
      shares the buffer of that input. */
  ghost predicate Defined(re: Expression, im: Expression, a: Complex, b: Complex, first: bool, second: bool) {
    re.requires(a, b) && im.requires(Seen(a, re(a, b), first), Seen(b, re(a, b), second))
  }

  /** What the two assignments leave at a pixel. */
  function Written(re: Expression, im: Expression, a: Complex, b: Complex, first: bool, second: bool): Complex
    requires Defined(re, im, a, b, first, second)
  {
    var r := re(a, b);
    Complex(r, im(Seen(a, r, first), Seen(b, r, second)))
  }

  predicate Covers(a: array2<Complex>, rows: nat, cols: nat) { rows <= a.Length0 && cols <= a.Length1 }

  /** The output of an element-wise loop: allocated when empty, otherwise used as it is. */
  method Prepare(rows: nat, cols: nat, output: Mat<Complex>)
    modifies output
    ensures old(output.Empty()) ==> fresh(output.data) && output.data.Length0 == rows && output.data.Length1 == cols
    ensures !old(output.Empty()) ==> output.data == old(output.data)
  {
    if output.Empty() {
      output.data := new Complex[rows, cols];
    }
  }

  /** The two assignments of the innermost body, in their order. */
  method StorePixel(a: array2<Complex>, b: array2<Complex>, o: array2<Complex>, i: nat, j: nat, re: Expression, im: Expression)
    requires i < a.Length0 && j < a.Length1 && Covers(b, a.Length0, a.Length1) && Covers(o, a.Length0, a.Length1)
    requires Defined(re, im, a[i, j], b[i, j], o == a, o == b)
    modifies o
    ensures o[i, j] == old(Written(re, im, a[i, j], b[i, j], o == a, o == b))
    ensures forall r, c :: 0 <= r < o.Length0 && 0 <= c < o.Length1 && (r != i || c != j) ==> o[r, c] == old(o[r, c])
  {
    o[i, j] := o[i, j].(re := re(a[i, j], b[i, j]));
    o[i, j] := o[i, j].(im := im(a[i, j], b[i, j]));
  }

  /** The nested loops that `complexMultiply`, `complexDivide`, `complexInverse` and `complexConj` share. The
      ghost frame `want` names what every pixel of the first input's size is to become. */
  method StoreAll(a: array2<Complex>, b: array2<Complex>, o: array2<Complex>, re: Expression, im: Expression,
                  ghost want: seq<seq<Complex>>)
    requires Covers(b, a.Length0, a.Length1) && Covers(o, a.Length0, a.Length1) && Rect(want, a.Length0, a.Length1)
    requires forall r, c :: 0 <= r < a.Length0 && 0 <= c < a.Length1 ==>
      Defined(re, im, a[r, c], b[r, c], o == a, o == b) &&
      want[r][c] == Written(re, im, a[r, c], b[r, c], o == a, o == b)
    modifies o
    ensures forall r, c :: 0 <= r < a.Length0 && 0 <= c < a.Length1 ==> o[r, c] == want[r][c]
    ensures forall r, c :: 0 <= r < o.Length0 && 0 <= c < o.Length1 && (r >= a.Length0 || c >= a.Length1) ==>
      o[r, c] == old(o[r, c])
  {
    hide Written, Defined;
    for i := 0 to a.Length0
      invariant forall r, c :: 0 <= r < i && 0 <= c < a.Length1 ==> o[r, c] == want[r][c]
      invariant forall r, c :: 0 <= r < o.Length0 && 0 <= c < o.Length1 && (r >= i || c >= a.Length1) ==>
        o[r, c] == old(o[r, c])
    {
      for j := 0 to a.Length1
        invariant forall r, c :: 0 <= r < i && 0 <= c < a.Length1 ==> o[r, c] == want[r][c]
        invariant forall c :: 0 <= c < j ==> o[i, c] == want[i][c]
        invariant forall r, c :: 0 <= r < o.Length0 && 0 <= c < o.Length1 && (r > i || (r == i && c >= j) || c >= a.Length1) ==>
          o[r, c] == old(o[r, c])
      {
        assert a[i, j] == old(a[i, j]) && b[i, j] == old(b[i, j]);
        StorePixel(a, b, o, i, j, re, im);
      }
    }
  }

  /** Whether an output that need not be allocated works in the buffer of an input. */
  predicate Shares(m: Mat<Complex>, output: Mat<Complex>)
    reads m, output
  {
    !output.Empty() && m.data == output.data
  }

  /** The frame an element-wise loop leaves, for input frames of the first one's size. */
  ghost function WrittenFrame(re: Expression, im: Expression, a: seq<seq<Complex>>, b: seq<seq<Complex>>, h: nat, w: nat,
                              first: bool, second: bool): (f: seq<seq<Complex>>)
    requires |a| >= h && |b| >= h && forall r :: 0 <= r < h ==> |a[r]| >= w && |b[r]| >= w
    requires forall r, c :: 0 <= r < h && 0 <= c < w ==> Defined(re, im, a[r][c], b[r][c], first, second)
    ensures Rect(f, h, w)
    ensures forall r, c :: 0 <= r < h && 0 <= c < w ==> f[r][c] == Written(re, im, a[r][c], b[r][c], first, second)
  {
    seq(h, r requires 0 <= r < h => seq(w, c requires 0 <= c < w => Written(re, im, a[r][c], b[r][c], first, second)))
  }

  /** An element-wise operation: allocate the output if it is empty, then run the loops. */
  method ElementWise(m1: Mat<Complex>, m2: Mat<Complex>, output: Mat<Complex>, re: Expression, im: Expression)
    requires Covers(m2.data, m1.data.Length0, m1.data.Length1)
    requires !output.Empty() ==> Covers(output.data, m1.data.Length0, m1.data.Length1)
    requires forall r, c :: 0 <= r < m1.data.Length0 && 0 <= c < m1.data.Length1 ==>
      Defined(re, im, m1.data[r, c], m2.data[r, c], Shares(m1, output), Shares(m2, output))
    modifies output, output.data
    ensures old(output.Empty()) ==> fresh(output.data)
    ensures old(output.Empty()) ==>
      output.data.Length0 == old(m1.data.Length0) && output.data.Length1 == old(m1.data.Length1)
    ensures !old(output.Empty()) ==> output.data == old(output.data)
    ensures Covers(output.data, old(m1.data.Length0), old(m1.data.Length1))
    ensures forall r, c :: 0 <= r < old(m1.data.Length0) && 0 <= c < old(m1.data.Length1) ==>
      output.data[r, c] == old(Written(re, im, m1.data[r, c], m2.data[r, c], Shares(m1, output), Shares(m2, output)))
    ensures !old(output.Empty()) ==> KeptOutside(output.data, old(View(output.data)), old(m1.data.Length0), old(m1.data.Length1))
  {
    hide Written, Defined;
    var a, b := m1.data, m2.data;
    ghost var first, second := Shares(m1, output), Shares(m2, output);
    ghost var before := View(output.data);
    ghost var want := WrittenFrame(re, im, View(a), View(b), a.Length0, a.Length1, first, second);
    Prepare(a.Length0, a.Length1, output);
    StoreAll(a, b, output.data, re, im, want);
  }

  /** The pixels of a buffer outside its first h rows and w columns are as they were. */
  ghost predicate KeptOutside(o: array2<Complex>, before: seq<seq<Complex>>, h: nat, w: nat)
    requires Rect(before, o.Length0, o.Length1)
    reads o
  {
    forall r, c :: 0 <= r < o.Length0 && 0 <= c < o.Length1 && (r >= h || c >= w) ==> o[r, c] == before[r][c]
  }

  // ---- multiplication

  function ProductRe(a: Complex, b: Complex): real { a.re * b.re - a.im * b.im }

  function ProductIm(a: Complex, b: Complex): real { a.re * b.im + a.im * b.re }

  /** What `complexMultiply` leaves at a pixel. */
  function WrittenProduct(a: Complex, b: Complex, first: bool, second: bool): Complex {
    Written(ProductRe, ProductIm, a, b, first, second)
  }

  /** On separate buffers it is the product. In place it is the product exactly where the imaginary part of
      the other factor is zero or the new real part equals the old one, squaring in place included. */
  lemma ProductInPlace(a: Complex, b: Complex)
    ensures WrittenProduct(a, b, false, false) == Mul(a, b)
    ensures WrittenProduct(a, b, true, false) == Mul(a, b) <==> b.im == 0.0 || Mul(a, b).re == a.re
    ensures WrittenProduct(a, b, false, true) == Mul(a, b) <==> a.im == 0.0 || Mul(a, b).re == b.re
    ensures WrittenProduct(a, a, true, true) == Mul(a, a) <==> a.im == 0.0 || Mul(a, a).re == a.re
  {
    ProductInOne(a, b);
    SquareInPlace(a);
    hide *;
  }

  lemma ProductInOne(a: Complex, b: Complex)
    ensures WrittenProduct(a, b, false, false) == Mul(a, b)
    ensures WrittenProduct(a, b, true, false) == Mul(a, b) <==> b.im == 0.0 || Mul(a, b).re == a.re
    ensures WrittenProduct(a, b, false, true) == Mul(a, b) <==> a.im == 0.0 || Mul(a, b).re == b.re
  {
    SameSummand(Mul(a, b).re, a.re, b.im, a.im * b.re);
    SameSummand(Mul(a, b).re, b.re, a.im, a.re * b.im);
  }

  lemma SquareInPlace(a: Complex)
    ensures WrittenProduct(a, a, true, true) == Mul(a, a) <==> a.im == 0.0 || Mul(a, a).re == a.re
  {
    SameSummand(Mul(a, a).re, a.re, 2.0 * a.im, 0.0);
    SameIm(Mul(a, a).re, a);
  }

  lemma SameIm(r: real, a: Complex)
    ensures ProductIm(Seen(a, r, true), Seen(a, r, true)) == r * (2.0 * a.im)
    ensures Mul(a, a).im == a.re * (2.0 * a.im)
  {
  }

  lemma SameSummand(x: real, y: real, t: real, rest: real)
    ensures x * t + rest == y * t + rest <==> t == 0.0 || x == y
    ensures rest + t * x == rest + t * y <==> t == 0.0 || x == y
  {
    if x * t == y * t {
      assert (x - y) * t == 0.0;
      RealNoZeroDivisors(x - y, t);
    }
  }

  method ComplexMultiply(m1: Mat<Complex>, m2: Mat<Complex>, output: Mat<Complex>)
    requires Covers(m2.data, m1.data.Length0, m1.data.Length1)
    requires !output.Empty() ==> Covers(output.data, m1.data.Length0, m1.data.Length1)
    modifies output, output.data
    ensures old(output.Empty()) ==> fresh(output.data)
    ensures old(output.Empty()) ==>
      output.data.Length0 == old(m1.data.Length0) && output.data.Length1 == old(m1.data.Length1)
    ensures !old(output.Empty()) ==> output.data == old(output.data)
    ensures Covers(output.data, old(m1.data.Length0), old(m1.data.Length1))
    ensures forall r, c :: 0 <= r < old(m1.data.Length0) && 0 <= c < old(m1.data.Length1) ==>
      output.data[r, c] == old(WrittenProduct(m1.data[r, c], m2.data[r, c], Shares(m1, output), Shares(m2, output)))
    ensures !old(output.Empty()) ==> KeptOutside(output.data, old(View(output.data)), old(m1.data.Length0), old(m1.data.Length1))
  {
    ElementWise(m1, m2, output, ProductRe, ProductIm);
  }

  // ---- division

  function QuotientRe(a: Complex, b: Complex): real
    requires b != ZERO
  {
    Norm2Zero(b);
    (a.re * b.re + a.im * b.im) / Norm2(b)
  }

  function QuotientIm(a: Complex, b: Complex): real
    requires b != ZERO
  {
    Norm2Zero(b);
    (a.im * b.re - a.re * b.im) / Norm2(b)
  }

  /** The quotient by the formula of `complexDivide`. */
  function Quotient(a: Complex, b: Complex): Complex
    requires b != ZERO
  {
    Complex(QuotientRe(a, b), QuotientIm(a, b))
  }

  /** Neither assignment divides by zero; the second sees the divisor that the first may have changed. */
  predicate Divisible(a: Complex, b: Complex, second: bool) {
    b != ZERO && Seen(b, QuotientRe(a, b), second) != ZERO
  }

  /** What `complexDivide` leaves at a pixel. */
  function WrittenQuotient(a: Complex, b: Complex, first: bool, second: bool): Complex
    requires Divisible(a, b, second)
  {
    Written(QuotientRe, QuotientIm, a, b, first, second)
  }

  /** The quotient is the product with the conjugate, over the squared modulus. */
  lemma QuotientByConjugate(a: Complex, b: Complex)
    requires b != ZERO
    ensures Norm2(b) != 0.0 && Quotient(a, b) == Scale(1.0 / Norm2(b), Mul(a, Conj(b)))
  {
    Norm2Zero(b);
    var n, u, v := Norm2(b), a.re * b.re + a.im * b.im, a.im * b.re - a.re * b.im;
    assert Mul(a, Conj(b)) == Complex(u, v);
    OverAsFactor(u, n);
    OverAsFactor(v, n);
  }

  lemma OverAsFactor(u: real, n: real)
    requires n != 0.0
    ensures u / n == 1.0 / n * u
  {
  }

  lemma ScaleMoves(k: real, a: Complex, b: Complex)
    ensures Mul(Scale(k, a), b) == Scale(k, Mul(a, b))
  {
    assert k * a.re * b.re == k * (a.re * b.re) && k * a.im * b.im == k * (a.im * b.im);
    assert k * a.re * b.im == k * (a.re * b.im) && k * a.im * b.re == k * (a.im * b.re);
  }

  lemma ScaleUndone(n: real, a: Complex)
    requires n != 0.0
    ensures Scale(1.0 / n, Mul(a, Complex(n, 0.0))) == a
  {
    assert Mul(a, Complex(n, 0.0)) == Complex(a.re * n, a.im * n);
    assert 1.0 / n * (a.re * n) == a.re && 1.0 / n * (a.im * n) == a.im;
  }

  /** Division and multiplication undo each other wherever the divisor is not zero. */
  lemma DivisionUndone(a: Complex, b: Complex)
    requires b != ZERO
    ensures Mul(Quotient(a, b), b) == a
    ensures Quotient(Mul(a, b), b) == a
  {
    hide Mul, Norm2, Conj, Quotient, Scale;
    QuotientByConjugate(a, b);
    QuotientByConjugate(Mul(a, b), b);
    ScaleMoves(1.0 / Norm2(b), Mul(a, Conj(b)), b);
    MulAssociates(a, Conj(b), b);
    MulAssociates(a, b, Conj(b));
    MulCommutes(Conj(b), b);
    Norm2Conj(b);
    ScaleUndone(Norm2(b), a);
  }

  /** On separate buffers `complexDivide` gives the quotient. In the dividend's buffer it does so exactly if the
      divisor is real or the real part does not change, and dividing a matrix by itself in place is right. */
  lemma QuotientInPlace(a: Complex, b: Complex)
    requires b != ZERO
    ensures WrittenQuotient(a, b, false, false) == Quotient(a, b)
    ensures WrittenQuotient(a, b, true, false) == Quotient(a, b) <==> b.im == 0.0 || Quotient(a, b).re == a.re
    ensures Divisible(b, b, true) && WrittenQuotient(b, b, true, true) == Quotient(b, b) == ONE
  {
    Norm2Zero(b);
    DifferenceOver(QuotientRe(a, b), a.re, b.im, a.im * b.re, Norm2(b));
    SelfQuotient(b);
  }

  lemma DifferenceOver(x: real, y: real, t: real, rest: real, n: real)
    requires n != 0.0
    ensures (rest - x * t) / n == (rest - y * t) / n <==> t == 0.0 || x == y
  {
    SameSummand(x, y, t, 0.0);
    SameOver(rest - x * t, rest - y * t, n);
  }

  lemma SameOver(u: real, v: real, n: real)
    requires n != 0.0
    ensures u / n == v / n <==> u == v
  {
    assert u / n * n == u && v / n * n == v;
  }

  lemma SelfQuotient(b: Complex)
    requires b != ZERO
    ensures QuotientRe(b, b) == 1.0 && Quotient(b, b) == ONE
    ensures Divisible(b, b, true) && WrittenQuotient(b, b, true, true) == ONE
  {
    Norm2Zero(b);
    RatioOfEquals(b.re * b.re + b.im * b.im, Norm2(b));
    RatioOfZero(b.im * b.re - b.re * b.im, Norm2(b));
  }

  lemma RatioOfEquals(u: real, n: real)
    requires u == n && n != 0.0
    ensures u / n == 1.0
  {
  }

  lemma RatioOfZero(u: real, n: real)
    requires u == 0.0 && n != 0.0
    ensures u / n == 0.0
  {
  }

  /** What a caller of an in-place division by b into its own buffer may check beforehand. */
  predicate KeepsQuotient(a: Complex, b: Complex) {
    var n, u, v := Norm2(b), a.re * b.re + a.im * b.im, a.im * b.re - a.re * b.im;
    u == b.re * n || u == 0.0 || v == b.im * n
  }

  /** In the divisor's buffer the result is the quotient exactly where its real part is that of the divisor or
      zero, or its imaginary part is that of the divisor. */
  lemma QuotientInDivisor(a: Complex, b: Complex)
    requires Divisible(a, b, true)
    ensures var q := Quotient(a, b);
      WrittenQuotient(a, b, false, true) == q <==> q.re == b.re || q.re == 0.0 || q.im == b.im
    ensures WrittenQuotient(a, b, false, true) == Quotient(a, b) <==> KeepsQuotient(a, b)
  {
    hide Quotient, WrittenQuotient, QuotientRe, QuotientIm, Norm2, Mul, KeepsQuotient, Miss;
    var q := Quotient(a, b);
    QuotientParts(a, b, q.re);
    DivisionUndone(a, b);
    var e, m := a.im * q.re - a.re * b.im, Norm2(Seen(b, q.re, true));
    MissFactor(a, b, q, e, m);
    ImaginaryKept(b, q, e, m);
    QuotientKept(a, b, q);
  }

  /** The conditions on the quotient as conditions on the operands. */
  lemma QuotientKept(a: Complex, b: Complex, q: Complex)
    requires Norm2(b) != 0.0 && q == Complex((a.re * b.re + a.im * b.im) / Norm2(b), (a.im * b.re - a.re * b.im) / Norm2(b))
    ensures KeepsQuotient(a, b) <==> q.re == b.re || q.re == 0.0 || q.im == b.im
  {
    var n := Norm2(b);
    hide Norm2;
    RatioIs(a.re * b.re + a.im * b.im, n, b.re);
    RatioIs(a.re * b.re + a.im * b.im, n, 0.0);
    RatioIs(a.im * b.re - a.re * b.im, n, b.im);
  }

  lemma RatioIs(u: real, n: real, x: real)
    requires n != 0.0
    ensures u / n == x <==> u == x * n
  {
    assert u / n * n == u;
    if u == x * n {
      assert (u / n - x) * n == 0.0;
      RealNoZeroDivisors(u / n - x, n);
    }
  }

  /** By how much the second assignment misses, times its denominator. */
  function Miss(q: Complex, b: Complex): real { q.re * ((q.re - b.re) * (b.im - q.im)) }

  lemma MissZero(q: Complex, b: Complex)
    ensures Miss(q, b) == 0.0 <==> q.re == b.re || q.re == 0.0 || q.im == b.im
  {
    var x, y := q.re - b.re, b.im - q.im;
    ZeroProduct(q.re, x * y);
    ZeroProduct(x, y);
  }

  lemma MissFactor(a: Complex, b: Complex, q: Complex, e: real, m: real)
    requires a == Mul(q, b) && e == a.im * q.re - a.re * b.im && m == Norm2(Seen(b, q.re, true))
    ensures e - q.im * m == Miss(q, b)
  {
    var r, s, x, y := q.re, q.im, b.re, b.im;
    assert e == (r * y + s * x) * r - (r * x - s * y) * y;
    assert s * m == s * (r * r + y * y);
  }

  /** The second assignment for the quotient q by b leaves e / m once q.re has replaced b.re. */
  lemma ImaginaryKept(b: Complex, q: Complex, e: real, m: real)
    requires e - q.im * m == Miss(q, b) && m != 0.0
    ensures e / m == q.im <==> q.re == b.re || q.re == 0.0 || q.im == b.im
  {
    MissZero(q, b);
    hide Miss;
    RatioIs(e, m, q.im);
  }

  lemma QuotientParts(a: Complex, b: Complex, r: real)
    requires Divisible(a, b, true) && r == Quotient(a, b).re
    ensures Norm2(b) != 0.0 && Norm2(Seen(b, r, true)) != 0.0
    ensures Quotient(a, b) == Complex((a.re * b.re + a.im * b.im) / Norm2(b), (a.im * b.re - a.re * b.im) / Norm2(b))
    ensures WrittenQuotient(a, b, false, true) == Complex(r, (a.im * r - a.re * b.im) / Norm2(Seen(b, r, true)))
  {
    Norm2Zero(b);
    Norm2Zero(Seen(b, r, true));
    hide Norm2;
  }

  lemma ZeroProduct(x: real, y: real)
    ensures x * y == 0.0 <==> x == 0.0 || y == 0.0
  {
    if x * y == 0.0 {
      RealNoZeroDivisors(x, y);
    }
  }

  method ComplexDivide(m1: Mat<Complex>, m2: Mat<Complex>, output: Mat<Complex>)
    requires Covers(m2.data, m1.data.Length0, m1.data.Length1)
    requires !output.Empty() ==> Covers(output.data, m1.data.Length0, m1.data.Length1)
    requires forall r, c :: 0 <= r < m1.data.Length0 && 0 <= c < m1.data.Length1 ==>
      Divisible(m1.data[r, c], m2.data[r, c], Shares(m2, output))
    modifies output, output.data
    ensures old(output.Empty()) ==> fresh(output.data)
    ensures old(output.Empty()) ==>
      output.data.Length0 == old(m1.data.Length0) && output.data.Length1 == old(m1.data.Length1)
    ensures !old(output.Empty()) ==> output.data == old(output.data)
    ensures Covers(output.data, old(m1.data.Length0), old(m1.data.Length1))
    ensures forall r, c :: 0 <= r < old(m1.data.Length0) && 0 <= c < old(m1.data.Length1) ==>
      output.data[r, c] == old(WrittenQuotient(m1.data[r, c], m2.data[r, c], Shares(m1, output), Shares(m2, output)))
    ensures !old(output.Empty()) ==> KeptOutside(output.data, old(View(output.data)), old(m1.data.Length0), old(m1.data.Length1))
  {
    ElementWise(m1, m2, output, QuotientRe, QuotientIm);
  }

  // ---- inversion

  function InverseRe(a: Complex, b: Complex): real
    requires b != ZERO
  {
    Norm2Zero(b);
    (b.re + b.im) / Norm2(b)
  }

  function InverseIm(a: Complex, b: Complex): real
    requires b != ZERO
  {
    Norm2Zero(b);
    (b.re - b.im) / Norm2(b)
  }

  /** What `complexInverse` leaves at a pixel: the first operand enters with its size only. */
  function WrittenInverse(b: Complex, second: bool): Complex
    requires b != ZERO
  {
    InverseDefined(b);
    Written(InverseRe, InverseIm, b, b, false, second)
  }

  /** Storing the real part never makes the operand zero. */
  lemma InverseDefined(b: Complex)
    requires b != ZERO
    ensures Seen(b, InverseRe(b, b), true) != ZERO
  {
    Norm2Zero(b);
    if b.im == 0.0 {
      assert b.re != 0.0;
      assert InverseRe(b, b) * Norm2(b) == b.re;
    }
  }

  /** `complexInverse` yields (1 + i) / b: its product with b is 1 + i at every pixel, never 1. */
  lemma InverseIsOff(b: Complex)
    requires b != ZERO
    ensures WrittenInverse(b, false) == Quotient(Complex(1.0, 1.0), b)
    ensures Mul(WrittenInverse(b, false), b) == Complex(1.0, 1.0) != ONE
  {
    DivisionUndone(Complex(1.0, 1.0), b);
    hide Mul;
  }

  /** In the operand's own buffer it yields (1 + i) / b exactly where this holds; b = 2 is a counterexample. */
  predicate KeepsInverse(b: Complex) {
    var n := Norm2(b);
    b.re + b.im == b.re * n || b.re + b.im == 0.0 || b.re - b.im == b.im * n
  }

  /** In place, the inverse is the in-place quotient of 1 + i. */
  lemma InverseInPlace(b: Complex)
    requires b != ZERO
    ensures WrittenInverse(b, true) == Quotient(Complex(1.0, 1.0), b) <==> KeepsInverse(b)
  {
    InverseDefined(b);
    InverseAsQuotient(b);
    QuotientInDivisor(Complex(1.0, 1.0), b);
    hide WrittenInverse, WrittenQuotient, Quotient, Divisible;
  }

  lemma InverseAsQuotient(b: Complex)
    requires b != ZERO
    ensures Divisible(Complex(1.0, 1.0), b, true)
    ensures WrittenInverse(b, true) == WrittenQuotient(Complex(1.0, 1.0), b, false, true)
  {
    InverseDefined(b);
    assert QuotientRe(Complex(1.0, 1.0), b) == InverseRe(b, b);
  }

  /** Not even in place is it ever the inverse. */
  lemma InverseNeverRight(b: Complex, second: bool)
    requires b != ZERO
    ensures Mul(WrittenInverse(b, second), b) != ONE
  {
    var w := WrittenInverse(b, second);
    if second {
      InverseDefined(b);
      InverseParts(b, w);
      hide WrittenInverse;
      var r, y := w.re, b.im;
      if Mul(w, b) == ONE {
        RealPartOf(w, b);
        assert y == 0.0;
        RealNoZeroDivisors(w.im, b.re);
        RealNoZeroDivisors(w.re, w.re);
      }
    } else {
      InverseIsOff(b);
    }
  }

  lemma InverseParts(b: Complex, w: Complex)
    requires b != ZERO && w == WrittenInverse(b, true)
    ensures w.re * Norm2(b) == b.re + b.im
    ensures w.im * Norm2(Seen(b, w.re, true)) == w.re - b.im
  {
    InverseDefined(b);
    Norm2Zero(b);
    Norm2Zero(Seen(b, w.re, true));
    hide Norm2;
  }

  lemma RealPartOf(w: Complex, b: Complex)
    requires Mul(w, b) == ONE
    ensures w.re * Norm2(b) == b.re
  {
    var x, y := b.re, b.im;
    assert (w.re * x - w.im * y) * x + (w.re * y + w.im * x) * y == w.re * (x * x + y * y);
  }

  lemma InverseOfTwo()
    ensures WrittenInverse(Complex(2.0, 0.0), true) == Complex(0.5, 2.0)
    ensures Quotient(Complex(1.0, 1.0), Complex(2.0, 0.0)) == Complex(0.5, 0.5)
  {
  }

  method ComplexInverse(m1: Mat<Complex>, m2: Mat<Complex>, output: Mat<Complex>)
    requires Covers(m2.data, m1.data.Length0, m1.data.Length1)
    requires !output.Empty() ==> Covers(output.data, m1.data.Length0, m1.data.Length1)
    requires forall r, c :: 0 <= r < m1.data.Length0 && 0 <= c < m1.data.Length1 ==> m2.data[r, c] != ZERO
    modifies output, output.data
    ensures old(output.Empty()) ==> fresh(output.data)
    ensures old(output.Empty()) ==>
      output.data.Length0 == old(m1.data.Length0) && output.data.Length1 == old(m1.data.Length1)
    ensures !old(output.Empty()) ==> output.data == old(output.data)
    ensures Covers(output.data, old(m1.data.Length0), old(m1.data.Length1))
    ensures forall r, c :: 0 <= r < old(m1.data.Length0) && 0 <= c < old(m1.data.Length1) ==>
      output.data[r, c] == old(WrittenInverse(m2.data[r, c], Shares(m2, output)))
    ensures !old(Shares(m2, output)) ==> forall r, c :: 0 <= r < old(m1.data.Length0) && 0 <= c < old(m1.data.Length1) ==>
      Mul(output.data[r, c], old(m2.data[r, c])) == Complex(1.0, 1.0)
    ensures forall r, c :: 0 <= r < old(m1.data.Length0) && 0 <= c < old(m1.data.Length1) ==>
      (output.data[r, c] == Quotient(Complex(1.0, 1.0), old(m2.data[r, c])) <==>
       !old(Shares(m2, output)) || KeepsInverse(old(m2.data[r, c])))
    ensures !old(output.Empty()) ==> KeptOutside(output.data, old(View(output.data)), old(m1.data.Length0), old(m1.data.Length1))
  {
    var h, w := m1.data.Length0, m1.data.Length1;
    forall r, c | 0 <= r < h && 0 <= c < w
      ensures Defined(InverseRe, InverseIm, m1.data[r, c], m2.data[r, c], Shares(m1, output), Shares(m2, output))
      ensures Written(InverseRe, InverseIm, m1.data[r, c], m2.data[r, c], Shares(m1, output), Shares(m2, output))
              == WrittenInverse(m2.data[r, c], Shares(m2, output))
      ensures !Shares(m2, output) ==> Mul(WrittenInverse(m2.data[r, c], false), m2.data[r, c]) == Complex(1.0, 1.0)
      ensures WrittenInverse(m2.data[r, c], Shares(m2, output)) == Quotient(Complex(1.0, 1.0), m2.data[r, c]) <==>
              !Shares(m2, output) || KeepsInverse(m2.data[r, c])
    {
      InverseInPlace(m2.data[r, c]);
      InverseDefined(m2.data[r, c]);
      InverseIsOff(m2.data[r, c]);
      InverseAlone(m1.data[r, c], m2.data[r, c], Shares(m1, output), Shares(m2, output));
    }
    hide Written, Defined, Mul, WrittenInverse, Quotient, KeepsInverse;
    ElementWise(m1, m2, output, InverseRe, InverseIm);
  }

  /** The first operand does not enter, shared or not. */
  lemma InverseAlone(a: Complex, b: Complex, first: bool, second: bool)
    requires b != ZERO
    ensures Defined(InverseRe, InverseIm, a, b, first, second)
    ensures Written(InverseRe, InverseIm, a, b, first, second) == WrittenInverse(b, second)
  {
    InverseDefined(b);
  }

  // ---- conjugation

  function ConjRe(a: Complex, b: Complex): real { a.re }

  function ConjIm(a: Complex, b: Complex): real { -1.0 * a.im }

  method ComplexConj(m: Mat<Complex>, output: Mat<Complex>)
    requires !output.Empty() ==> Covers(output.data, m.data.Length0, m.data.Length1)
    modifies output, output.data
    ensures old(output.Empty()) ==> fresh(output.data)
    ensures old(output.Empty()) ==>
      output.data.Length0 == old(m.data.Length0) && output.data.Length1 == old(m.data.Length1)
    ensures !old(output.Empty()) ==> output.data == old(output.data)
    ensures Covers(output.data, old(m.data.Length0), old(m.data.Length1))
    ensures forall r, c :: 0 <= r < old(m.data.Length0) && 0 <= c < old(m.data.Length1) ==>
      output.data[r, c] == Conj(old(m.data[r, c]))
    ensures !old(output.Empty()) ==> KeptOutside(output.data, old(View(output.data)), old(m.data.Length0), old(m.data.Length1))
  {
    ElementWise(m, m, output, ConjRe, ConjIm);
  }
}
