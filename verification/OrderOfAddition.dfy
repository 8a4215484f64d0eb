/** When the order of additions to a saturating signed accumulator matters. */
module OrderOfAddition {
  import opened Totals
  import opened Accumulators

  /** The signed accumulator after adding signed terms in order. */
  function Fold(s: seq<int>): (r: int)
    ensures -32768 <= r <= 32767
  {
    if s == [] then 0 else SaturateS(Fold(s[..|s| - 1]) + s[|s| - 1])
  }

  function Gain(x: int): int { if x > 0 then x else 0 }

  function Loss(x: int): int { if x < 0 then -x else 0 }

  /** What the terms add, and what they take away. */
  function Gains(s: seq<int>): (g: int)
    ensures g >= 0
  {
    if s == [] then 0 else Gains(s[..|s| - 1]) + Gain(s[|s| - 1])
  }

  function Losses(s: seq<int>): (l: int)
    ensures l >= 0
  {
    if s == [] then 0 else Losses(s[..|s| - 1]) + Loss(s[|s| - 1])
  }

  /** Both fit into signed sixteen bits, or there is only one of them. */
  ghost predicate OrderSafe(s: seq<int>) {
    (Gains(s) <= 32767 && Losses(s) <= 32768) || Gains(s) == 0 || Losses(s) == 0
  }

  /** Safe terms end at their true sum cut to sixteen bits. */
  lemma {:induction false} FoldSafe(s: seq<int>)
    requires OrderSafe(s)
    ensures Fold(s) == SaturateS(Gains(s) - Losses(s))
  {
    if s != [] {
      FoldSafe(s[..|s| - 1]);
    }
  }

  lemma {:induction false} FoldDown(a: seq<int>, b: seq<int>)
    requires Gains(b) == 0
    ensures Fold(a + b) == SaturateS(Fold(a) - Losses(b))
  {
    if b == [] {
      assert a + b == a;
    } else {
      FoldDown(a, b[..|b| - 1]);
      assert (a + b)[..|a + b| - 1] == a + b[..|b| - 1];
    }
  }

  lemma {:induction false} FoldUp(a: seq<int>, b: seq<int>)
    requires Losses(b) == 0
    ensures Fold(a + b) == SaturateS(Fold(a) + Gains(b))
  {
    if b == [] {
      assert a + b == a;
    } else {
      FoldUp(a, b[..|b| - 1]);
      assert (a + b)[..|a + b| - 1] == a + b[..|b| - 1];
    }
  }

  /** Gains first and losses first end at different values unless the terms are safe. */
  lemma ExtremesDiffer(up: seq<int>, down: seq<int>)
    requires Losses(up) == 0 && Gains(down) == 0
    requires Gains(up) > 0 && Losses(down) > 0 && (Gains(up) > 32767 || Losses(down) > 32768)
    ensures Fold(up + down) != Fold(down + up)
  {
    FoldDown(up, down);
    FoldUp(down, up);
    FoldSafe(up);
    FoldSafe(down);
  }

  lemma {:induction false} GainsSummed(s: seq<int>)
    ensures Gains(s) == Sum(Image(Gain, s)) && Losses(s) == Sum(Image(Loss, s))
  {
    if s != [] {
      var n := |s| - 1;
      GainsSummed(s[..n]);
      assert Image(Gain, s)[..n] == Image(Gain, s[..n]) && Image(Loss, s)[..n] == Image(Loss, s[..n]);
    }
  }

  /** Gains and losses do not depend on the order. */
  lemma GainsPermuted(a: seq<int>, b: seq<int>)
    requires multiset(a) == multiset(b)
    ensures Gains(a) == Gains(b) && Losses(a) == Losses(b)
  {
    GainsSummed(a);
    GainsSummed(b);
    ImagePermuted(Gain, a, b);
    ImagePermuted(Loss, a, b);
    SumPermuted(Image(Gain, a), Image(Gain, b));
    SumPermuted(Image(Loss, a), Image(Loss, b));
  }

  /** The elements whose terms do not take anything away, or the others. */
  ghost function Kept<T>(f: T -> int, a: seq<T>, up: bool): seq<T> {
    if a == [] then [] else
    var n := |a| - 1;
    Kept(f, a[..n], up) + if (f(a[n]) >= 0) == up then [a[n]] else []
  }

  lemma {:induction false} KeptPermutes<T>(f: T -> int, a: seq<T>)
    ensures multiset(Kept(f, a, true)) + multiset(Kept(f, a, false)) == multiset(a)
  {
    if a != [] {
      var n := |a| - 1;
      KeptPermutes(f, a[..n]);
      var u, d := Kept(f, a[..n], true), Kept(f, a[..n], false);
      assert a == a[..n] + [a[n]];
      if f(a[n]) >= 0 {
        assert Kept(f, a, true) == u + [a[n]] && Kept(f, a, false) == d;
      } else {
        assert Kept(f, a, true) == u && Kept(f, a, false) == d + [a[n]];
      }
    }
  }

  lemma {:induction false} KeptTerms<T>(f: T -> int, a: seq<T>, up: bool)
    ensures Gains(Image(f, Kept(f, a, up))) == if up then Gains(Image(f, a)) else 0
    ensures Losses(Image(f, Kept(f, a, up))) == if up then 0 else Losses(Image(f, a))
  {
    if a == [] {
      assert Image(f, a) == [] && Image(f, Kept(f, a, up)) == [];
    } else {
      hide Gains, Losses;
      var n := |a| - 1;
      KeptTerms(f, a[..n], up);
      assert a == a[..n] + [a[n]];
      TermsAppended(f, a[..n], a[n]);
      var kept := Kept(f, a[..n], up);
      TermsAppended(f, kept, a[n]);
      assert kept + [] == kept;
    }
  }

  lemma TermsAppended<T>(f: T -> int, a: seq<T>, x: T)
    ensures Gains(Image(f, a + [x])) == Gains(Image(f, a)) + Gain(f(x))
    ensures Losses(Image(f, a + [x])) == Losses(Image(f, a)) + Loss(f(x))
  {
    assert Image(f, a + [x])[..|a|] == Image(f, a);
  }

  /** The accumulator ends alike in every order of the elements exactly when their terms are safe. */
  lemma OrderFreeExactly<T(!new)>(f: T -> int, a: seq<T>)
    ensures (forall b: seq<T> | multiset(b) == multiset(a) :: Fold(Image(f, b)) == Fold(Image(f, a)))
            <==> OrderSafe(Image(f, a))
  {
    if OrderSafe(Image(f, a)) {
      forall b: seq<T> | multiset(b) == multiset(a) ensures Fold(Image(f, b)) == Fold(Image(f, a)) {
        ImagePermuted(f, a, b);
        GainsPermuted(Image(f, a), Image(f, b));
        FoldSafe(Image(f, a));
        FoldSafe(Image(f, b));
      }
    } else {
      UnsafeOrders(f, a);
    }
  }

  /** Two orders of unsafe terms that end at different values. */
  lemma UnsafeOrders<T>(f: T -> int, a: seq<T>)
    requires !OrderSafe(Image(f, a))
    ensures var u, d := Kept(f, a, true), Kept(f, a, false);
      multiset(u + d) == multiset(a) && multiset(d + u) == multiset(a) &&
      Fold(Image(f, u + d)) != Fold(Image(f, d + u))
  {
    hide Fold, Gains, Losses, Kept;
    var u, d := Kept(f, a, true), Kept(f, a, false);
    KeptPermutes(f, a);
    KeptTerms(f, a, true);
    KeptTerms(f, a, false);
    assert multiset(d + u) == multiset(u + d);
    ImageConcat(f, u, d);
    ImageConcat(f, d, u);
    ExtremesDiffer(Image(f, u), Image(f, d));
  }

  /** The signed terms that a differential accumulator adds: converted values, negative if subtracted. */
  function Terms(vals: seq<int>, plus: seq<bool>): (t: seq<int>)
    requires |vals| == |plus|
    ensures |t| == |vals| && forall k :: 0 <= k < |vals| ==> t[k] == Counted(SaturateS(vals[k]), plus[k])
  {
    seq(|vals|, k requires 0 <= k < |vals| => Counted(SaturateS(vals[k]), plus[k]))
  }

  lemma {:induction false} SignedFolds(vals: seq<int>, plus: seq<bool>)
    requires |vals| == |plus|
    ensures Signed(vals, plus) == Fold(Terms(vals, plus))
  {
    if vals != [] {
      var n := |vals| - 1;
      SignedFolds(vals[..n], plus[..n]);
      assert Terms(vals, plus)[..n] == Terms(vals[..n], plus[..n]);
    }
  }

  /** The terms together do not exceed the sum of the values. */
  lemma {:induction false} TermsWithinSum(vals: seq<int>, plus: seq<bool>)
    requires |vals| == |plus| && Pixels(vals)
    ensures Gains(Terms(vals, plus)) + Losses(Terms(vals, plus)) <= Sum(vals)
  {
    if vals != [] {
      var n := |vals| - 1;
      TermsWithinSum(vals[..n], plus[..n]);
      assert Terms(vals, plus)[..n] == Terms(vals[..n], plus[..n]);
    }
  }
}
