/** Finite sums of complex numbers over an index function. Summands are named functions, so that two
    mentions of one summand are the same value. */
module Sums {
  import opened Modulo
  import opened ComplexField

  type Signal = int -> Complex
  type Plane = (int, int) -> Complex

  function Sum(f: Signal, n: nat): Complex {
    if n == 0 then ZERO else Add(Sum(f, n - 1), f(n - 1))
  }

  function Scaled(c: Complex, f: Signal): Signal { j => Mul(c, f(j)) }

  function Plus(f: Signal, g: Signal): Signal { j => Add(f(j), g(j)) }

  function Product(f: Signal, g: Signal): Signal { j => Mul(f(j), g(j)) }

  function Conjugated(f: Signal): Signal { j => Conj(f(j)) }

  function RowOf(m: Plane, i: int): Signal { j => m(i, j) }

  function ColumnOf(m: Plane, j: int): Signal { i => m(i, j) }

  function RowSums(m: Plane, w: nat): Signal { i => Sum(RowOf(m, i), w) }

  function ColumnSums(m: Plane, h: nat): Signal { j => Sum(ColumnOf(m, j), h) }

  ghost predicate Agree(f: Signal, g: Signal, n: nat) {
    forall j :: 0 <= j < n ==> f(j) == g(j)
  }

  lemma {:induction false} SumAgree(f: Signal, g: Signal, n: nat)
    requires Agree(f, g, n)
    ensures Sum(f, n) == Sum(g, n)
  {
    if n > 0 {
      SumAgree(f, g, n - 1);
    }
  }

  lemma {:induction false} SumPlus(f: Signal, g: Signal, n: nat)
    ensures Sum(Plus(f, g), n) == Add(Sum(f, n), Sum(g, n))
  {
    if n > 0 {
      SumPlus(f, g, n - 1);
    }
  }

  lemma {:induction false} SumScaled(c: Complex, f: Signal, n: nat)
    ensures Sum(Scaled(c, f), n) == Mul(c, Sum(f, n))
  {
    if n > 0 {
      SumScaled(c, f, n - 1);
      MulDistributes(c, Sum(f, n - 1), f(n - 1));
    }
  }

  lemma {:induction false} SumConjugated(f: Signal, n: nat)
    ensures Sum(Conjugated(f), n) == Conj(Sum(f, n))
  {
    if n > 0 {
      SumConjugated(f, n - 1);
    }
  }

  /** A sum with one term other than zero is that term. */
  lemma {:induction false} SumSingle(f: Signal, n: nat, k: int)
    requires forall j :: 0 <= j < n && j != k ==> f(j) == ZERO
    ensures Sum(f, n) == if 0 <= k < n then f(k) else ZERO
  {
    if n > 0 {
      SumSingle(f, n - 1, k);
    }
  }

  /** A sum of real terms that are not negative is real and not negative, and positive with any term. */
  lemma {:induction false} SumReal(f: Signal, n: nat)
    requires forall j :: 0 <= j < n ==> f(j).im == 0.0 && f(j).re >= 0.0
    ensures Sum(f, n).im == 0.0 && Sum(f, n).re >= 0.0
    ensures forall j :: 0 <= j < n ==> Sum(f, n).re >= f(j).re
  {
    if n > 0 {
      SumReal(f, n - 1);
    }
  }

  lemma ScaleStep(k: nat, c: Complex)
    ensures Scale((k + 1) as real, c) == Add(Scale(k as real, c), c)
  {
    assert (k + 1) as real == k as real + 1.0;
  }

  lemma {:induction false} SumConstant(f: Signal, n: nat, c: Complex)
    requires forall j :: 0 <= j < n ==> f(j) == c
    ensures Sum(f, n) == Scale(n as real, c)
  {
    if n > 0 {
      hide Scale, Add;
      SumConstant(f, n - 1, c);
      ScaleStep(n - 1, c);
    }
  }

  /** A double sum may be taken by rows or by columns. */
  lemma {:induction false} SumSwap(m: Plane, h: nat, w: nat)
    ensures Sum(RowSums(m, w), h) == Sum(ColumnSums(m, h), w)
  {
    if h == 0 {
      SumConstant(ColumnSums(m, 0), w, ZERO);
    } else {
      SumSwap(m, h - 1, w);
      SumPlus(ColumnSums(m, h - 1), RowOf(m, h - 1), w);
      SumAgree(ColumnSums(m, h), Plus(ColumnSums(m, h - 1), RowOf(m, h - 1)), w);
    }
  }

  function Reflected(f: Signal, n: int): Signal
    requires 0 < n
  {
    j => f((-j) % n)
  }

  function Turned(f: Signal, n: int, s: int): Signal
    requires 0 < n
  {
    j => f((j + s) % n)
  }

  /** Summing a period backwards. */
  lemma SumReflected(f: Signal, n: nat)
    requires 0 < n
    ensures Sum(Reflected(f, n), n) == Sum(f, n)
  {
    ReflectedPrefix(f, n, n);
    assert Sum(f, 1) == Add(Sum(f, 0), f(0));
  }

  lemma {:induction false} ReflectedPrefix(f: Signal, n: nat, m: nat)
    requires 1 <= m <= n
    ensures Add(Sum(Reflected(f, n), m), Sum(f, n - m + 1)) == Add(Sum(f, n), f(0))
  {
    if m == 1 {
      DivModUnique(0, n, 0, 0);
      assert Sum(Reflected(f, n), 1) == Add(Sum(Reflected(f, n), 0), f(0));
    } else {
      ReflectedPrefix(f, n, m - 1);
      DivModUnique(-(m - 1), n, -1, n - m + 1);
      assert Sum(Reflected(f, n), m) == Add(Sum(Reflected(f, n), m - 1), f(n - m + 1));
      assert Sum(f, n - m + 2) == Add(Sum(f, n - m + 1), f(n - m + 1));
    }
  }

  /** Summing a period from any starting point. */
  lemma SumTurned(f: Signal, n: nat, s: int)
    requires 0 < n
    ensures Sum(Turned(f, n, s), n) == Sum(f, n)
  {
    var t := s % n;
    forall j | 0 <= j < n ensures Turned(f, n, s)(j) == Turned(f, n, t)(j) {
      ModEarly(s, j, n);
    }
    SumAgree(Turned(f, n, s), Turned(f, n, t), n);
    TurnedPrefix(f, n, t, n);
  }

  lemma {:induction false} TurnedPrefix(f: Signal, n: nat, s: nat, m: nat)
    requires s < n && m <= n
    ensures Add(Sum(Turned(f, n, s), m), Sum(f, s)) ==
      if m <= n - s then Sum(f, s + m) else Add(Sum(f, n), Sum(f, m - (n - s)))
  {
    if m > 0 {
      TurnedPrefix(f, n, s, m - 1);
      ModWrap(m - 1, s, n);
    }
  }
}
