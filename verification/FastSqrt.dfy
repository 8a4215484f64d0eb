/** The square root of cvComplex.cpp: range reduction, Newton iteration, rescaling. */
module FastSqrt {
  import opened ComplexField

  /** Powers of two, of either sign. */
  function Pow2(e: int): real
    decreases if e < 0 then -e else e
  {
    if e == 0 then 1.0 else if e > 0 then 2.0 * Pow2(e - 1) else Pow2(e + 1) / 2.0
  }

  lemma {:induction false} Pow2Step(e: int)
    ensures Pow2(e) > 0.0 && Pow2(e + 1) == 2.0 * Pow2(e)
    decreases if e < 0 then -e else e
  {
    if e > 0 {
      Pow2Step(e - 1);
    } else if e < 0 {
      Pow2Step(e + 1);
    }
  }

  lemma {:induction false} Pow2Square(k: int)
    ensures Pow2(2 * k) == Pow2(k) * Pow2(k)
    decreases if k < 0 then -k else k
  {
    if k > 0 {
      Pow2Square(k - 1);
      Pow2Step(2 * k - 2);
      Pow2Step(2 * k - 1);
      Pow2Step(k - 1);
    } else if k < 0 {
      Pow2Square(k + 1);
      Pow2Step(2 * k);
      Pow2Step(2 * k + 1);
      Pow2Step(k);
    }
  }

  /** Halving a number of at least one lowers its integer part; doubling one below a half lowers that of its inverse. */
  lemma HalvingProgress(m: real)
    requires m > 0.0
    ensures m >= 1.0 ==> (m / 2.0).Floor < m.Floor
    ensures m < 0.5 ==> (1.0 / (m * 2.0)).Floor < (1.0 / m).Floor
  {
    if m < 0.5 {
      var i := 1.0 / m;
      assert i * m == 1.0;
      assert i > 2.0;
      assert 1.0 / (m * 2.0) == i / 2.0;
    }
  }

  /** Mantissa in [1/2, 1) and binary exponent of a positive number, as `frexp` returns them. */
  method Frexp(x: real) returns (m: real, e: int)
    requires x > 0.0
    ensures x == m * Pow2(e) && 0.5 <= m < 1.0
  {
    hide Pow2;
    m, e := x, 0;
    assert x == m * Pow2(e) by {
      PowZero();
    }
    while m >= 1.0
      invariant m > 0.0 && x == m * Pow2(e)
      decreases m.Floor
    {
      Pow2Step(e);
      HalvingProgress(m);
      m, e := m / 2.0, e + 1;
    }
    while m < 0.5
      invariant 0.0 < m < 1.0 && x == m * Pow2(e)
      decreases (1.0 / m).Floor
    {
      Pow2Step(e - 1);
      HalvingProgress(m);
      m, e := m * 2.0, e - 1;
    }
  }

  lemma PowZero()
    ensures Pow2(0) == 1.0
  {
  }

  /** The reduced number and its even exponent: the input of the iteration. */
  method Reduce(input: real) returns (x: real, exp: int)
    requires input > 0.0
    ensures input == x * Pow2(exp) && 0.5 <= x < 2.0 && exp % 2 == 0
  {
    x, exp := Frexp(input);
    if exp % 2 == 1 {
      Pow2Step(exp - 1);
      exp := exp - 1;
      x := x * 2.0;
    }
  }

  /** One Newton step towards the square root of x. */
  function Newton(x: real, y: real): real
    requires y != 0.0
  {
    (y + x / y) / 2.0
  }

  /** By how much the square of y exceeds x. */
  function Excess(x: real, y: real): real { y * y - x }

  /** The error after a step is the square of the error before, over four times the square of the iterate. */
  lemma NewtonError(x: real, y: real)
    requires y > 0.0 && x > 0.0
    ensures Newton(x, y) > 0.0
    ensures Excess(x, Newton(x, y)) * (4.0 * Squared(y)) == Squared(Excess(x, y))
    ensures Excess(x, Newton(x, y)) >= 0.0
  {
    var q, n := x / y, Newton(x, y);
    assert q * y == x && q > 0.0;
    hide Newton;
    assert 2.0 * n == y + q;
    assert 2.0 * n * y == y * y + x;
    NewtonSquare(x, y, n);
  }

  lemma NewtonSquare(x: real, y: real, n: real)
    requires y > 0.0 && 2.0 * n * y == y * y + x
    ensures Excess(x, n) * (4.0 * Squared(y)) == Squared(Excess(x, y))
    ensures Excess(x, n) >= 0.0
  {
    var yy, d := y * y, y * y - x;
    assert (2.0 * n * y) * (2.0 * n * y) == 4.0 * (n * n) * yy;
    assert (yy + x) * (yy + x) == d * d + 4.0 * (x * yy);
    assert (n * n - x) * (4.0 * yy) == d * d;
    SquarePositive(d);
    SquarePositive(y);
    assert n * n < x ==> (n * n - x) * (4.0 * yy) < 0.0;
  }

  /** The k-th iterate in exact arithmetic. */
  function Iterate(x: real, k: nat): (y: real)
    requires x > 0.0
    ensures y > 0.0
  {
    if k == 0 then (1.0 + x) / 2.0 else
    NewtonError(x, Iterate(x, k - 1));
    Newton(x, Iterate(x, k - 1))
  }

  /** One eighth, squared k times: 8 to the power -(2^k). */
  function Tiny(k: nat): (t: real)
    ensures t > 0.0
  {
    if k == 0 then 0.125 else Squared(Tiny(k - 1))
  }

  /** The first approximation overshoots by a quarter of the squared distance from one. */
  lemma FirstError(x: real)
    requires x > 0.0
    ensures 4.0 * Excess(x, (1.0 + x) / 2.0) == Squared(1.0 - x)
  {
    var y := (1.0 + x) / 2.0;
    assert 4.0 * (y * y) == (1.0 + x) * (1.0 + x);
  }

  lemma SmallSquare(d: real)
    requires -1.0 <= d <= 1.0
    ensures 0.0 <= Squared(d) <= 1.0
  {
    ProductNonNegative(1.0 - d, 1.0 + d);
    assert (1.0 - d) * (1.0 + d) == 1.0 - d * d;
    SquarePositive(d);
  }

  /** Convergence is quadratic on the reduced range, and from above. */
  lemma {:induction false} IterateConverges(x: real, k: nat)
    requires 0.5 <= x < 2.0
    ensures 0.0 <= Excess(x, Iterate(x, k)) <= 2.0 * Tiny(k)
  {
    hide Newton, Excess, Squared;
    if k == 0 {
      FirstError(x);
      SmallSquare(1.0 - x);
    } else {
      IterateConverges(x, k - 1);
      var y, t := Iterate(x, k - 1), Tiny(k - 1);
      NewtonError(x, y);
      SquareAtLeast(x, y);
      ErrorShrinks(Excess(x, Newton(x, y)), Squared(y), Excess(x, y), t);
    }
  }

  lemma SquareAtLeast(x: real, y: real)
    ensures Squared(y) == x + Excess(x, y)
  {
  }

  lemma ErrorShrinks(next: real, yy: real, error: real, t: real)
    requires next * (4.0 * yy) == Squared(error) && yy >= 0.5
    requires 0.0 <= error <= 2.0 * t && next >= 0.0
    ensures next <= 2.0 * Squared(t)
  {
    assert error * error <= 4.0 * (t * t) by {
      assert (2.0 * t - error) * (2.0 * t + error) >= 0.0;
    }
    assert next * (4.0 * yy) >= next * 2.0;
  }

  /** In exact arithmetic the iterates stop changing only for x = 1, whose first approximation is already
      the root: otherwise the loop of the source ends only because its arithmetic is rounded. */
  lemma ExactIterationStops(x: real)
    requires x > 0.0
    ensures (exists k: nat :: Iterate(x, k + 1) == Iterate(x, k)) <==> x == 1.0
  {
    if x == 1.0 {
      assert Iterate(x, 0) == 1.0;
      assert Iterate(x, 0 + 1) == Iterate(x, 0);
    } else {
      forall k: nat ensures Iterate(x, k + 1) != Iterate(x, k) {
        IterateMisses(x, k);
        FixedPoint(x, Iterate(x, k));
      }
    }
  }

  lemma {:induction false} Pow2Grows(a: int, b: int)
    requires a <= b
    ensures 0.0 < Pow2(a) <= Pow2(b)
    decreases b - a
  {
    Pow2Step(a);
    if a < b {
      Pow2Grows(a, b - 1);
      Pow2Step(b - 1);
      hide Pow2;
    }
  }

  /** Different even powers are at least a factor of four apart. */
  lemma EvenPowersApart(a: int, b: int)
    requires a % 2 == 0 && b % 2 == 0 && a < b
    ensures 0.0 < Pow2(a) && 4.0 * Pow2(a) <= Pow2(b)
  {
    Pow2Step(a);
    Pow2Step(a + 1);
    Pow2Grows(a + 2, b);
    hide Pow2;
  }

  /** The number stays within a factor of two of the power taken out of it. */
  lemma MantissaBetween(x: real, p: real, q: real)
    requires x * p == q && 0.5 <= x < 2.0 && p > 0.0
    ensures 0.5 * p <= q < 2.0 * p
    ensures p == q ==> x == 1.0
  {
    ProductNonNegative(x - 0.5, p);
    assert (2.0 - x) * p > 0.0;
    assert (x - 1.0) * p == q - p;
    if p == q {
      RealNoZeroDivisors(x - 1.0, p);
    }
  }

  lemma ReducedToOne(x: real, exp: int, e: int)
    requires x * Pow2(exp) == Pow2(e) && 0.5 <= x < 2.0 && exp % 2 == 0 && e % 2 == 0
    ensures x == 1.0
  {
    hide Pow2;
    Pow2Step(exp);
    MantissaBetween(x, Pow2(exp), Pow2(e));
    if e > exp {
      EvenPowersApart(exp, e);
    } else if e < exp {
      EvenPowersApart(e, exp);
    }
  }

  /** The mantissa of the reduced number is one exactly when the number is an even power of two. */
  lemma MantissaOne(input: real, x: real, exp: int)
    requires input == x * Pow2(exp) && 0.5 <= x < 2.0 && exp % 2 == 0
    ensures x == 1.0 <==> exists k: int :: input == Pow2(2 * k)
  {
    hide Pow2;
    if x == 1.0 {
      assert exp == 2 * (exp / 2);
      assert input == Pow2(2 * (exp / 2));
    }
    forall k: int | input == Pow2(2 * k) ensures x == 1.0 {
      ReducedToOne(x, exp, 2 * k);
    }
  }

  /** In exact arithmetic the loop of the source ends for the even powers of two and for no other number. */
  lemma LoopEndsExactly(input: real, x: real, exp: int)
    requires input == x * Pow2(exp) && 0.5 <= x < 2.0 && exp % 2 == 0
    ensures (exists k: nat :: Iterate(x, k + 1) == Iterate(x, k)) <==> exists k: int :: input == Pow2(2 * k)
  {
    hide Pow2, Iterate;
    ExactIterationStops(x);
    MantissaOne(input, x, exp);
  }

  lemma {:induction false} IterateMisses(x: real, k: nat)
    requires x > 0.0 && x != 1.0
    ensures Excess(x, Iterate(x, k)) > 0.0
  {
    hide Newton, Excess;
    if k == 0 {
      FirstError(x);
      SquarePositive(1.0 - x);
    } else {
      hide Squared;
      IterateMisses(x, k - 1);
      var y := Iterate(x, k - 1);
      NewtonError(x, y);
      ErrorRemains(Excess(x, Newton(x, y)), Squared(y), Excess(x, y));
    }
  }

  lemma ErrorRemains(next: real, yy: real, error: real)
    requires next * (4.0 * yy) == Squared(error) && error > 0.0 && next >= 0.0
    ensures next > 0.0
  {
    SquarePositive(error);
    assert next == 0.0 ==> next * (4.0 * yy) == 0.0;
  }

  lemma FixedPoint(x: real, y: real)
    requires y > 0.0
    ensures Newton(x, y) == y <==> Excess(x, y) == 0.0
  {
    var q := x / y;
    assert q * y == x;
  }

  /** The result after k exact passes, scaled back. */
  function ScaledBack(x: real, exp: int, k: nat): real
    requires x > 0.0
  {
    Iterate(x, k) * Pow2(exp / 2)
  }

  function RelativeBound(k: nat, input: real): real { 2.0 * (2.0 * Tiny(k)) * input }

  /** The relative error of the square of the result after k exact passes is at most 4 Tiny(k). */
  lemma RescaledError(input: real, x: real, exp: int, k: nat)
    requires input == x * Pow2(exp) && 0.5 <= x < 2.0 && exp % 2 == 0
    ensures 0.0 <= Excess(input, ScaledBack(x, exp, k)) <= RelativeBound(k, input)
  {
    hide Iterate, Tiny, Pow2, Excess, Squared;
    IterateConverges(x, k);
    EvenPower(exp);
    Rescale(Iterate(x, k), x, Pow2(exp / 2), Pow2(exp), Tiny(k), input, ScaledBack(x, exp, k), RelativeBound(k, input));
  }

  lemma EvenPower(exp: int)
    requires exp % 2 == 0
    ensures Pow2(exp) > 0.0 && Pow2(exp) == Squared(Pow2(exp / 2))
  {
    Pow2Step(exp);
    Pow2Square(exp / 2);
    assert 2 * (exp / 2) == exp;
    hide Pow2;
  }

  lemma Rescale(y: real, x: real, s: real, p: real, t: real, input: real, r: real, bound: real)
    requires p == Squared(s) && p > 0.0 && x >= 0.5 && 0.0 <= Excess(x, y) <= 2.0 * t
    requires input == x * p && r == y * s && bound == 2.0 * (2.0 * t) * input
    ensures 0.0 <= Excess(input, r) <= bound
  {
    var e, b := y * y - x, 2.0 * t;
    assert (y * s) * (y * s) - x * p == e * p;
    ProductNonNegative(e, p);
    ProductNonNegative(b - e, p);
    ProductNonNegative(b, 2.0 * x - 1.0);
    ProductNonNegative(b * (2.0 * x - 1.0), p);
    assert b * (2.0 * x - 1.0) * p == 2.0 * b * (x * p) - b * p;
    assert (b - e) * p == b * p - e * p;
  }

  /** A rounding to integers, to the nearest one, however it breaks ties. */
  ghost predicate ToNearest(round: real -> int) {
    forall t: real :: t - 0.5 <= round(t) as real <= t + 0.5
  }

  /** The n-th point of the grid of spacing u. */
  function GridPoint(n: int, u: real): real { n as real * u }

  /** The index of the grid point to which a value is rounded. */
  function GridIndex(t: real, u: real, round: real -> int): int
    requires u > 0.0
  {
    round(t / u)
  }

  /** A Newton step from the n-th grid point, rounded to the grid. */
  function NextIndex(x: real, n: int, u: real, round: real -> int): int
    requires n > 0 && u > 0.0
  {
    GridPositive(n, u);
    GridIndex(Newton(x, GridPoint(n, u)), u, round)
  }

  lemma GridPositive(n: int, u: real)
    requires n > 0 && u > 0.0
    ensures GridPoint(n, u) > 0.0
  {
  }

  /** A number in units in which the grid points are the integers and their squares are squares. */
  function Units(x: real, u: real): real
    requires u > 0.0
  {
    x / u / u
  }

  /** In those units the step from n is the Newton step for the number x / (u u). */
  lemma StepInUnits(x: real, n: int, u: real)
    requires n > 0 && u > 0.0 && x > 0.0
    ensures GridPoint(n, u) == n as real * u > 0.0 && Units(x, u) > 0.0
    ensures Newton(x, GridPoint(n, u)) / u == Newton(Units(x, u), n as real)
    ensures Excess(x, GridPoint(n, u)) == Excess(Units(x, u), n as real) * u * u
  {
    var m, v := n as real, x / u;
    GridPositive(n, u);
    assert v * u == x && v > 0.0;
    var w := v / u;
    assert w * u == v && w > 0.0;
    StepRatio(x, m, u, v, w);
    assert m * u * (m * u) - w * u * u == (m * m - w) * u * u;
  }

  lemma StepRatio(x: real, m: real, u: real, v: real, w: real)
    requires m > 0.0 && u > 0.0 && v * u == x && w * u == v
    ensures (m * u + x / (m * u)) / 2.0 / u == (m + w / m) / 2.0
  {
    var q := w / m;
    assert q * m == w;
    assert q * u * (m * u) == x by {
      assert q * u * (m * u) == q * m * u * u;
    }
    QuotientIs(x, m * u, q * u);
    assert (m * u + q * u) / 2.0 == (m + q) / 2.0 * u;
    QuotientIs((m + q) / 2.0 * u, u, (m + q) / 2.0);
  }

  lemma QuotientIs(a: real, b: real, q: real)
    requires b > 0.0 && q * b == a
    ensures a / b == q
  {
    assert (a / b - q) * b == 0.0;
    RealNoZeroDivisors(a / b - q, b);
  }

  /** Rounding a value at or above the root does not go below the grid point under the root. */
  lemma NearestAbove(x: real, t: real, n: int)
    requires x > 0.0 && t > 0.5 && t * t >= x && n as real >= t - 0.5
    ensures n >= 1 && x < (n + 1) as real * (n + 1) as real
  {
    var m := (n + 1) as real;
    assert m > t;
    assert (m - t) * (m + t) > 0.0;
    assert (m - t) * (m + t) == m * m - t * t;
  }

  /** Where an exact step from the integer m leads: the root is never above it, and its distance from m is
      half the error over m. */
  lemma ExactStep(x: real, m: real)
    requires x > 0.0 && m >= 1.0
    ensures var t := Newton(x, m);
      t > 0.5 && t * t >= x && 2.0 * (t - m) * m == x - m * m
  {
    var q := x / m;
    assert q * m == x && q > 0.0;
    NewtonError(x, m);
    assert 2.0 * ((m + q) / 2.0 - m) * m == q * m - m * m;
  }

  /** A rounded step stays on or above the grid point under the root. From above the root it does not go up;
      from the grid point under the root it stays or goes to the next one. */
  lemma NearestStep(x: real, n: int, n': int)
    requires x > 0.0 && n >= 1
    requires var t := Newton(x, n as real); t - 0.5 <= n' as real <= t + 0.5
    ensures n' >= 1 && x < (n' + 1) as real * (n' + 1) as real
    ensures x <= n as real * n as real ==> n' <= n
    ensures n as real * n as real < x < (n + 1) as real * (n + 1) as real ==> n <= n' <= n + 1
  {
    var m, t := n as real, Newton(x, n as real);
    ExactStep(x, m);
    NearestAbove(x, t, n');
    hide Newton;
    SignOfStep(x, m, t);
  }

  lemma SignOfStep(x: real, m: real, t: real)
    requires m >= 1.0 && 2.0 * (t - m) * m == x - m * m
    ensures x <= m * m ==> t <= m
    ensures m * m < x ==> t > m
    ensures x < (m + 1.0) * (m + 1.0) ==> t < m + 1.5
  {
    var d := t - m;
    assert 2.0 * d * m == 2.0 * (d * m);
    assert d > 0.0 ==> d * m > 0.0;
    assert d <= 0.0 ==> d * m <= 0.0;
    assert (m + 1.0) * (m + 1.0) == m * m + 2.0 * m + 1.0;
    assert d >= 1.5 ==> (d - 1.5) * m >= 0.0;
    assert (d - 1.5) * m == d * m - 1.5 * m;
  }

  /** A rounded step stays where it is if the error is below n, and only if it is at most n. */
  lemma StopsExactly(x: real, n: int, n': int)
    requires x > 0.0 && n >= 1
    requires var t := Newton(x, n as real); t - 0.5 <= n' as real <= t + 0.5
    ensures n' == n ==> -(n as real) <= Excess(x, n as real) <= n as real
    ensures -(n as real) < Excess(x, n as real) < n as real ==> n' == n
  {
    var m, t := n as real, Newton(x, n as real);
    ExactStep(x, m);
    hide Newton;
    StopRange(x, m, t);
  }

  lemma StopRange(x: real, m: real, t: real)
    requires m >= 1.0 && 2.0 * (t - m) * m == x - m * m
    ensures -0.5 <= t - m <= 0.5 <==> -m <= m * m - x <= m
    ensures -0.5 < t - m < 0.5 <==> -m < m * m - x < m
  {
    var d := 2.0 * (t - m);
    assert d * m == x - m * m;
    Below(d, 1.0, m);
    Below(1.0, d, m);
    Below(d, -1.0, m);
    Below(-1.0, d, m);
  }

  lemma Below(a: real, b: real, m: real)
    requires m > 0.0
    ensures a < b ==> a * m < b * m
    ensures a <= b ==> a * m <= b * m
  {
    assert (b - a) * m == b * m - a * m;
    assert b > a ==> (b - a) * m > 0.0;
  }

  /** No oscillation: if the grid point under the root is left for the next one, that one is kept. Both steps
      round up exactly if x is at least n (n + 1), and on that tie they round the same value. */
  lemma NoReturn(x: real, n: int, round: real -> int)
    requires ToNearest(round) && n >= 1 && n as real * n as real < x < (n + 1) as real * (n + 1) as real
    requires round(Newton(x, n as real)) == n + 1
    ensures round(Newton(x, (n + 1) as real)) == n + 1
  {
    var m := n as real;
    var t, t' := Newton(x, m), Newton(x, m + 1.0);
    SquarePositive(m);
    ExactStep(x, m);
    ExactStep(x, m + 1.0);
    assert t >= m + 0.5;
    hide Newton;
    SameTie(x, m, t, t');
    if t' == m + 0.5 {
      assert t' == t;
    } else {
      assert m + 0.5 < t' < m + 1.0;
      assert m < round(t') as real < m + 2.0;
    }
  }

  lemma SameTie(x: real, m: real, t: real, t': real)
    requires m >= 1.0 && 2.0 * (t - m) * m == x - m * m && x < (m + 1.0) * (m + 1.0)
    requires 2.0 * (t' - (m + 1.0)) * (m + 1.0) == x - (m + 1.0) * (m + 1.0)
    requires t >= m + 0.5
    ensures m + 0.5 <= t' < m + 1.0
    ensures t' == m + 0.5 ==> t == m + 0.5
  {
    var d, e, k := 2.0 * (t - m), 2.0 * (t' - (m + 1.0)), m + 1.0;
    TieCore(x, m, k, m * m, k * k, d, e);
  }

  lemma TieCore(x: real, m: real, k: real, mm: real, kk: real, d: real, e: real)
    requires m > 0.0 && k == m + 1.0 && mm == m * m && kk == k * k && x < kk && d >= 1.0
    requires d * m == x - mm && e * k == x - kk
    ensures -1.0 <= e < 0.0
    ensures e == -1.0 ==> d == 1.0
  {
    assert kk == mm + m + k;
    OrderInUnits(1.0, d, m, m, x - mm);
    OrderInUnits(e, -1.0, k, x - kk, -k);
    OrderInUnits(e, 0.0, k, x - kk, 0.0);
  }

  /** The loop goes on for at most so many passes from the n-th grid point. */
  ghost function Rank(x: real, n: int, u: real, round: real -> int): (k: nat)
    requires n > 0 && u > 0.0
    ensures k > 0
  {
    if NextIndex(x, n, u, round) == n then 1
    else if Excess(Units(x, u), n as real) < 0.0 then 2
    else n + 2
  }

  /** The root is below the grid point after the n-th. */
  ghost predicate Reached(x: real, n: int, u: real)
    requires u > 0.0
  {
    n >= 1 && Units(x, u) < (n + 1) as real * (n + 1) as real
  }

  /** Every pass that moves brings the loop closer to its end, whichever way ties are broken. */
  lemma RankDrops(x: real, n: int, u: real, round: real -> int)
    requires x > 0.0 && u > 0.0 && ToNearest(round) && Reached(x, n, u)
    ensures var n' := NextIndex(x, n, u, round);
      Reached(x, n', u) && (n' != n ==> Rank(x, n', u, round) < Rank(x, n, u, round))
  {
    var w, n' := Units(x, u), NextIndex(x, n, u, round);
    StepInUnits(x, n, u);
    NearestStep(w, n, n');
    StepInUnits(x, n', u);
    if n' != n && Excess(w, n as real) < 0.0 {
      NoReturn(w, n, round);
    }
  }

  /** A grid step stays where it is if the error of the square is below u y, and only if it is at most u y. */
  lemma GridStep(x: real, n: int, u: real, round: real -> int)
    requires x > 0.0 && u > 0.0 && n >= 1 && ToNearest(round)
    ensures var y := GridPoint(n, u);
      (NextIndex(x, n, u, round) == n ==> -(u * y) <= Excess(x, y) <= u * y) &&
      (-(u * y) < Excess(x, y) < u * y ==> NextIndex(x, n, u, round) == n)
  {
    hide Newton, Units, Excess;
    var w, n' := Units(x, u), NextIndex(x, n, u, round);
    StepInUnits(x, n, u);
    StopsExactly(w, n, n');
    hide *;
    ErrorInUnits(n as real, Excess(w, n as real), u, GridPoint(n, u), Excess(x, GridPoint(n, u)));
  }

  lemma ErrorInUnits(m: real, e: real, u: real, y: real, error: real)
    requires u > 0.0 && y == m * u && error == e * u * u
    ensures -(u * y) <= error <= u * y <==> -m <= e <= m
    ensures -(u * y) < error < u * y <==> -m < e < m
  {
    var uu := u * u;
    SquarePositive(u);
    Regrouped(m, u, y, uu);
    Regrouped(e, u, e * u, uu);
    OrderInUnits(e, m, uu, error, u * y);
    OrderInUnits(-m, e, uu, -(u * y), error);
  }

  lemma Regrouped(m: real, u: real, y: real, uu: real)
    requires y == m * u && uu == u * u
    ensures u * y == m * uu && y * u == m * uu
  {
    assert m * (u * u) == m * u * u;
  }

  lemma OrderInUnits(a: real, b: real, m: real, am: real, bm: real)
    requires m > 0.0 && am == a * m && bm == b * m
    ensures a < b <==> am < bm
    ensures a == b <==> am == bm
  {
    Below(a, b, m);
    Below(b, a, m);
  }

  /** The loop of the source with every step rounded to the nearest multiple of u. It terminates however ties
      are broken, and its result squared is within u y of x. */
  method Iterated(x: real, u: real, round: real -> int) returns (y: real)
    requires x > 0.0 && 0.0 < u < 1.0 + x && ToNearest(round)
    ensures y > 0.0 && -(u * y) <= Excess(x, y) <= u * y
  {
    hide Newton, Excess, Units, GridPoint, ToNearest, Reached, Rank;
    var first := (1.0 + x) / 2.0;
    ghost var n := GridIndex(first, u, round);
    FirstReached(x, u, round);
    GridPositive(n, u);
    y := GridPoint(GridIndex(first, u, round), u);
    var z := 0.0;
    while y != z
      invariant Reached(x, n, u) && n > 0 && y == GridPoint(n, u) > 0.0
      invariant y == z ==> NextIndex(x, n, u, round) == n
      decreases if y == z then 0 else Rank(x, n, u, round)
    {
      z := y;
      RankDrops(x, n, u, round);
      y := GridPoint(GridIndex(Newton(x, y), u, round), u);
      assert y == GridPoint(NextIndex(x, n, u, round), u);
      n := NextIndex(x, n, u, round);
      GridPositive(n, u);
    }
    GridStep(x, n, u, round);
  }

  /** The first approximation lands on or above the grid point under the root. */
  lemma FirstReached(x: real, u: real, round: real -> int)
    requires x > 0.0 && 0.0 < u < 1.0 + x && ToNearest(round)
    ensures Reached(x, GridIndex((1.0 + x) / 2.0, u, round), u)
  {
    var first, w := (1.0 + x) / 2.0, Units(x, u);
    var t := first / u;
    FirstError(x);
    SquarePositive(1.0 - x);
    assert t * u == first;
    ClearOfRoot(x, first, u, t, w);
    NearestAbove(w, t, round(t));
  }

  lemma ClearOfRoot(x: real, first: real, u: real, t: real, w: real)
    requires x > 0.0 && first > 0.0 && u > 0.0 && t * u == first && 2.0 * first > u && first * first >= x && w == x / u / u
    ensures w > 0.0 && t > 0.5 && t * t >= w
  {
    var v := x / u;
    assert v * u == x && w * u == v;
    assert v > 0.0;
    assert w > 0.0;
    Below(t, 0.5, u);
    var uu := u * u;
    assert uu > 0.0;
    assert t * t * uu == first * first by {
      assert t * t * uu == (t * u) * (t * u);
    }
    assert w * uu == x;
    Below(t * t, w, uu);
  }

  /** The square root of the source in the grid model: zero for numbers that are not positive, otherwise with
      a relative error of its square of at most 2 u. */
  method Sqrt(input: real, u: real, round: real -> int) returns (r: real)
    requires 0.0 < u <= 0.5 && ToNearest(round)
    ensures input <= 0.0 ==> r == 0.0
    ensures input > 0.0 ==> r > 0.0 && -(2.0 * u * Squared(r)) <= Excess(input, r) <= 2.0 * u * Squared(r)
  {
    if input <= 0.0 {
      return 0.0;
    }
    hide Pow2, Excess, Squared, ToNearest;
    var x, exp := Reduce(input);
    var y := Iterated(x, u, round);
    r := y * Pow2(exp / 2);
    EvenPower(exp);
    Pow2Step(exp / 2);
    FinalError(y, x, Pow2(exp / 2), Pow2(exp), u, input, r);
  }

  lemma FinalError(y: real, x: real, s: real, p: real, u: real, input: real, r: real)
    requires p == Squared(s) && p > 0.0 && s > 0.0 && x >= 0.5 && y > 0.0 && 0.0 < u <= 0.5
    requires -(u * y) <= Excess(x, y) <= u * y
    requires input == x * p && r == y * s
    ensures r > 0.0 && -(2.0 * u * Squared(r)) <= Excess(input, r) <= 2.0 * u * Squared(r)
  {
    var e, yy := y * y - x, y * y;
    var b := 2.0 * u * yy;
    NotTooSmall(x, y, u);
    ErrorBound(y, u, e, b);
    RootScaled(y, s, p, yy, r);
    ErrorScaled(e, yy, x, p, input, r);
    BoundScaled(u, yy, p, b, r);
    hide Excess, Squared;
    OrderInUnits(e, b, p, Excess(input, r), b * p);
    OrderInUnits(-b, e, p, -(b * p), Excess(input, r));
  }

  lemma ErrorBound(y: real, u: real, e: real, b: real)
    requires y >= 0.5 && u > 0.0 && -(u * y) <= e <= u * y && b == 2.0 * u * (y * y)
    ensures -b <= e <= b
  {
    Below(1.0, 2.0 * y, u * y);
    assert 2.0 * y * (u * y) == 2.0 * u * (y * y);
  }

  lemma RootScaled(y: real, s: real, p: real, yy: real, r: real)
    requires p == Squared(s) && yy == y * y && r == y * s && y > 0.0 && s > 0.0
    ensures r > 0.0 && Squared(r) == yy * p
  {
    assert (y * s) * (y * s) == y * y * (s * s);
  }

  lemma ErrorScaled(e: real, yy: real, x: real, p: real, input: real, r: real)
    requires e == yy - x && Squared(r) == yy * p && input == x * p
    ensures Excess(input, r) == e * p
  {
    assert (yy - x) * p == yy * p - x * p;
  }

  lemma BoundScaled(u: real, yy: real, p: real, b: real, r: real)
    requires b == 2.0 * u * yy && Squared(r) == yy * p
    ensures b * p == 2.0 * u * Squared(r)
  {
    hide Squared;
    assert 2.0 * u * yy * p == 2.0 * u * (yy * p);
  }

  lemma NotTooSmall(x: real, y: real, u: real)
    requires x >= 0.5 && y > 0.0 && 0.0 < u <= 0.5 && -(u * y) <= y * y - x
    ensures y >= 0.5
  {
    if y < 0.5 {
      Below(y, 0.5, y);
      Below(u, 0.5, y);
    }
  }
}
