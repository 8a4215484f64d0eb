/** The discrete Fourier transform by its defining sum, Y = F(h) X F(w) with F(n)[j][k] = exp(-2 pi i j k / n). */
module Fourier {
  import opened Modulo
  import opened ComplexField
  import opened Sums

  /** Cues under which the laws of the exponential are used. */
  ghost predicate Cue(a: real, b: real) { true }

  ghost predicate IntCue(a: int, b: int) { true }

  /** What is assumed of t -> exp(i t): a homomorphism to the unit circle whose first return to one is at 2 pi. */
  ghost predicate IsPhase(cis: real -> Complex, pi: real) {
    && pi > 0.0
    && cis(2.0 * pi) == ONE
    && (forall a, b {:trigger Cue(a, b)} | Cue(a, b) :: cis(a + b) == Mul(cis(a), cis(b)))
    && (forall a {:trigger Cue(a, a)} | Cue(a, a) :: Norm2(cis(a)) == 1.0)
    && (forall t | 0.0 < t < 2.0 * pi :: cis(t) != ONE)
  }

  /** The powers of a primitive n-th root of one, forward or backward. */
  ghost predicate IsRoot(tw: Signal, n: nat) {
    && 0 < n
    && tw(n) == ONE
    && (forall a, b {:trigger IntCue(a, b)} | IntCue(a, b) :: tw(a + b) == Mul(tw(a), tw(b)))
    && (forall a {:trigger IntCue(a, a)} | IntCue(a, a) :: Norm2(tw(a)) == 1.0)
    && (forall k | 0 < k < n :: tw(k) != ONE)
  }

  /** The angle of step m around the circle in n steps, clockwise as in the forward transform. */
  function Angle(pi: real, n: nat, m: int): real
    requires 0 < n
  {
    -2.0 * pi / n as real * m as real
  }

  function Forward(cis: real -> Complex, pi: real, n: nat): Signal
    requires 0 < n
  {
    m => cis(Angle(pi, n, m))
  }

  function Backward(tw: Signal): Signal { m => tw(-m) }

  lemma PhaseZero(cis: real -> Complex, pi: real)
    requires IsPhase(cis, pi)
    ensures cis(0.0) == ONE
  {
    assert Cue(0.0, 0.0);
    var e := cis(0.0);
    assert Mul(e, e) == Mul(e, ONE);
    Norm2Zero(e);
    MulCancels(e, e, ONE);
  }

  lemma PhaseNegated(cis: real -> Complex, pi: real, t: real)
    requires IsPhase(cis, pi)
    ensures cis(-t) == Conj(cis(t))
  {
    PhaseZero(cis, pi);
    assert Cue(t, -t) && Cue(t, t);
    UnitInverse(cis(t), cis(-t));
  }

  lemma RootZero(tw: Signal, n: nat)
    requires IsRoot(tw, n)
    ensures tw(0) == ONE
  {
    assert IntCue(0, 0);
    var e := tw(0);
    assert Mul(e, e) == Mul(e, ONE);
    Norm2Zero(e);
    MulCancels(e, e, ONE);
  }

  lemma RootNegated(tw: Signal, n: nat, a: int)
    requires IsRoot(tw, n)
    ensures tw(-a) == Conj(tw(a))
  {
    RootZero(tw, n);
    assert IntCue(a, -a) && IntCue(a, a);
    assert a + -a == 0;
    UnitInverse(tw(a), tw(-a));
  }

  lemma BackwardRoot(tw: Signal, n: nat)
    requires IsRoot(tw, n)
    ensures IsRoot(Backward(tw), n)
  {
    hide Mul, Norm2, Conj;
    var bw := Backward(tw);
    forall a, b | IntCue(a, b) ensures bw(a + b) == Mul(bw(a), bw(b)) {
      assert IntCue(-a, -b);
      assert -(a + b) == -a + -b;
    }
    forall a | IntCue(a, a) ensures Norm2(bw(a)) == 1.0 {
      assert IntCue(-a, -a);
    }
    BackwardReturns(tw, n);
  }

  lemma BackwardReturns(tw: Signal, n: nat)
    requires IsRoot(tw, n)
    ensures Backward(tw)(n) == ONE
    ensures forall k | 0 < k < n :: Backward(tw)(k) != ONE
  {
    hide Mul, Norm2, Conj;
    RootNegated(tw, n, n);
    ConjOne(ONE);
    forall k | 0 < k < n ensures Backward(tw)(k) != ONE {
      RootNegated(tw, n, k);
      ConjOne(tw(k));
    }
  }

  /** The transform kernel that OpenCV documents is built from such roots. */
  lemma ForwardRoot(cis: real -> Complex, pi: real, n: nat)
    requires IsPhase(cis, pi) && 0 < n
    ensures IsRoot(Forward(cis, pi, n), n)
  {
    hide Mul, Norm2, Conj, Angle;
    var tw := Forward(cis, pi, n);
    forall a, b | IntCue(a, b) ensures tw(a + b) == Mul(tw(a), tw(b)) {
      AnglesAdd(pi, n, a, b);
      assert Cue(Angle(pi, n, a), Angle(pi, n, b));
    }
    forall a | IntCue(a, a) ensures Norm2(tw(a)) == 1.0 {
      assert Cue(Angle(pi, n, a), Angle(pi, n, a));
    }
    ForwardReturns(cis, pi, n);
  }

  lemma AnglesAdd(pi: real, n: nat, a: int, b: int)
    requires 0 < n
    ensures Angle(pi, n, a + b) == Angle(pi, n, a) + Angle(pi, n, b)
  {
    var s, x, y := -2.0 * pi / n as real, a as real, b as real;
    assert s * (x + y) == s * x + s * y;
    assert (a + b) as real == x + y;
  }

  /** The kernel returns to one at n steps and not before. */
  lemma ForwardReturns(cis: real -> Complex, pi: real, n: nat)
    requires IsPhase(cis, pi) && 0 < n
    ensures Forward(cis, pi, n)(n) == ONE
    ensures forall k | 0 < k < n :: Forward(cis, pi, n)(k) != ONE
  {
    hide Mul, Norm2, Conj;
    assert Angle(pi, n, n) == -(2.0 * pi);
    hide Angle;
    PhaseNegated(cis, pi, 2.0 * pi);
    ConjOne(ONE);
    forall k | 0 < k < n ensures Forward(cis, pi, n)(k) != ONE {
      AngleBounds(pi, n, k);
      var t := -Angle(pi, n, k);
      PhaseNegated(cis, pi, t);
      ConjOne(cis(t));
    }
  }

  lemma AngleBounds(pi: real, n: nat, k: nat)
    requires 0 < k < n && pi > 0.0
    ensures 0.0 < -Angle(pi, n, k) < 2.0 * pi
  {
    var q := 2.0 * pi / n as real;
    assert q * n as real == 2.0 * pi;
    assert -Angle(pi, n, k) == q * k as real;
    assert q > 0.0;
    assert q * (n - k) as real > 0.0;
    assert q * n as real == q * k as real + q * (n - k) as real;
  }

  lemma ConjOne(a: Complex)
    ensures Conj(a) == ONE <==> a == ONE
  {
  }

  lemma {:induction false} RootTurns(tw: Signal, n: nat, a: int, q: nat)
    requires IsRoot(tw, n)
    ensures tw(a + q * n) == tw(a)
  {
    if q > 0 {
      RootTurns(tw, n, a, q - 1);
      assert a + q * n == (a + (q - 1) * n) + n;
      assert IntCue(a + (q - 1) * n, n);
    }
  }

  /** Only the exponent modulo n matters. */
  lemma RootCongruent(tw: Signal, n: nat, a: int, b: int)
    requires IsRoot(tw, n) && a % n == b % n
    ensures tw(a) == tw(b)
  {
    var q := ModEqualTurns(a, b, n);
    if q >= 0 {
      RootTurns(tw, n, b, q);
    } else {
      assert b == a + (-q) * n;
      RootTurns(tw, n, a, -q);
    }
  }

  /** The character of frequency k. */
  function Character(tw: Signal, k: int): Signal { j => tw(j * k) }

  /** Characters of distinct frequencies are orthogonal: the powers of one of them sum to zero. */
  lemma CharacterSum(tw: Signal, n: nat, k: int)
    requires IsRoot(tw, n)
    ensures Sum(Character(tw, k), n) == if k % n == 0 then Complex(n as real, 0.0) else ZERO
  {
    var s := Sum(Character(tw, k), n);
    if k % n == 0 {
      forall j | 0 <= j < n ensures Character(tw, k)(j) == ONE {
        assert j * k == j * (k / n) * n by {
          assert k == (k / n) * n;
        }
        RootTurnsOne(tw, n, j * k, j * (k / n));
      }
      SumConstant(Character(tw, k), n, ONE);
      assert Scale(n as real, ONE) == Complex(n as real, 0.0);
    } else {
      CharacterTelescopes(tw, n, k, n);
      RootTurnsOne(tw, n, n * k, k);
      RootCongruent(tw, n, k, k % n) by {
        ModEarly(k, 0, n);
      }
      assert tw(k) != ONE;
      FixedPointZero(tw(k), s);
    }
  }

  lemma RootTurnsOne(tw: Signal, n: nat, a: int, q: int)
    requires IsRoot(tw, n) && a == q * n
    ensures tw(a) == ONE
  {
    DivModUnique(a, n, q, 0);
    DivModUnique(0, n, 0, 0);
    RootZero(tw, n);
    RootCongruent(tw, n, a, 0);
  }

  lemma FixedPointZero(a: Complex, s: Complex)
    requires Add(Mul(a, s), ONE) == Add(s, ONE) && a != ONE
    ensures s == ZERO
  {
    assert Mul(Sub(a, ONE), s) == Sub(Mul(a, s), s);
    NoZeroDivisors(Sub(a, ONE), s);
  }

  lemma {:induction false} CharacterTelescopes(tw: Signal, n: nat, k: int, m: nat)
    requires IsRoot(tw, n)
    ensures Add(Mul(tw(k), Sum(Character(tw, k), m)), ONE) == Add(Sum(Character(tw, k), m), tw(m * k))
  {
    if m == 0 {
      RootZero(tw, n);
    } else {
      CharacterTelescopes(tw, n, k, m - 1);
      var s, t := Sum(Character(tw, k), m - 1), tw((m - 1) * k);
      MulDistributes(tw(k), s, t);
      assert IntCue(k, (m - 1) * k);
      assert k + (m - 1) * k == m * k;
      hide Mul;
    }
  }
}
