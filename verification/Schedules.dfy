/** The pixel loop of `qDPC_loop` under arbitrary interleavings of the statements of its body. */
module Schedules {
  import opened Grids
  import opened ComplexField
  import opened Spectra
  import opened QuantDpcTheory
  import opened PhaseReality

  /** What the loop reads: two spectra, two transfer functions and the regularisation, on n by n frames. */
  datatype Inputs = Inputs(f0: Frame, f1: Frame, t0: RealFrame, t1: RealFrame, reg: real, n: nat)

  ghost predicate Proper(q: Inputs) {
    && Rect(q.f0, q.n, q.n) && Rect(q.f1, q.n, q.n) && Rect(q.t0, q.n, q.n) && Rect(q.t1, q.n, q.n)
    && Regular(q.t0, q.t1, q.reg, q.n)
  }

  /** The modulus of a purely imaginary number. */
  function Modulus(h: Complex): real
    requires h.re == 0.0
  {
    if h.im >= 0.0 then h.im else -h.im
  }

  /** The progress of one pixel's body and its local variables. */
  datatype Local = Local(pc: nat, hSum: Complex, hiSum: Complex, iSum: Complex, result: Complex)

  const START := Local(0, ZERO, ZERO, ZERO, ZERO)

  /** The three running sums take in one channel. */
  function Summed(l: Local, i: Complex, h: real): Local {
    l.(pc := l.pc + 1, hSum := Add(l.hSum, Complex(0.0, h)), hiSum := Add(l.hiSum, Complex(0.0, -1.0 * h)),
       iSum := Add(l.iSum, i))
  }

  /** The locals of pixel (r, c) after the statements before `pc`. */
  ghost function LocalAt(q: Inputs, r: nat, c: nat, pc: nat): Local
    requires Proper(q) && r < q.n && c < q.n
  {
    if pc == 0 then START
    else if pc == 1 then Summed(START, q.f0[r][c], q.t0[r][c])
    else
      var l := Summed(Summed(START, q.f0[r][c], q.t0[r][c]), q.f1[r][c], q.t1[r][c]);
      if pc == 2 then l else l.(pc := pc, result := Final(q)[r][c])
  }

  /** The filtered spectrum of the inputs. */
  ghost function Final(q: Inputs): (f: Frame)
    requires Proper(q)
    ensures Rect(f, q.n, q.n)
  {
    Filtered(q.f0, q.f1, q.t0, q.t1, q.reg, q.n)
  }

  /** The locals of all pixels and the two shared result matrices. */
  datatype Machine = Machine(locals: seq<seq<Local>>, re: RealFrame, im: RealFrame)

  /** Every pixel has the locals that belong to its program counter. */
  ghost predicate Sound(m: Machine, q: Inputs) {
    && Proper(q) && Rect(m.locals, q.n, q.n) && Rect(m.re, q.n, q.n) && Rect(m.im, q.n, q.n)
    && forall r: nat, c: nat :: r < q.n && c < q.n ==>
         m.locals[r][c].pc <= 5 && m.locals[r][c] == LocalAt(q, r, c, m.locals[r][c].pc)
  }

  /** After both sums the divisor is not zero, and dividing gives the filtered value. */
  lemma DivisionSound(q: Inputs, r: nat, c: nat)
    requires Proper(q) && r < q.n && c < q.n
    ensures var l := LocalAt(q, r, c, 2);
      l.hSum.re == 0.0 && Modulus(l.hSum) * Modulus(l.hSum) + q.reg != 0.0 &&
      Over(Mul(l.iSum, l.hiSum), Modulus(l.hSum) * Modulus(l.hSum) + q.reg) == Final(q)[r][c]
  {
    var l, h := LocalAt(q, r, c, 2), Transfer(q.t0, q.t1, q.n, r, c);
    assert l.hSum == Complex(0.0, h) && l.hiSum == Complex(0.0, -h);
    assert l.iSum == Add(q.f0[r][c], q.f1[r][c]);
    assert Modulus(l.hSum) * Modulus(l.hSum) == h * h;
    hide Mul, Over;
  }

  /** The locals after the next statement of pixel (r, c). */
  ghost function NextLocal(l: Local, q: Inputs, r: nat, c: nat): (l': Local)
    requires Proper(q) && r < q.n && c < q.n && l.pc <= 5 && l == LocalAt(q, r, c, l.pc)
    ensures l'.pc == if l.pc < 5 then l.pc + 1 else 5
    ensures l' == LocalAt(q, r, c, l'.pc)
  {
    DivisionSound(q, r, c);
    if l.pc == 0 then Summed(l, q.f0[r][c], q.t0[r][c])
    else if l.pc == 1 then Summed(l, q.f1[r][c], q.t1[r][c])
    else if l.pc == 2 then
      l.(pc := 3, result := Over(Mul(l.iSum, l.hiSum), Modulus(l.hSum) * Modulus(l.hSum) + q.reg))
    else if l.pc < 5 then l.(pc := l.pc + 1)
    else l
  }

  /** Some thread executes the next statement of pixel (r, c): a change of its locals, or one of the two
      stores. A finished pixel has none. */
  ghost function Step(m: Machine, q: Inputs, r: nat, c: nat): (m': Machine)
    requires Sound(m, q) && r < q.n && c < q.n
    ensures Sound(m', q)
  {
    hide LocalAt, NextLocal, Proper;
    var l := m.locals[r][c];
    Machine(m.locals[r := m.locals[r][c := NextLocal(l, q, r, c)]],
            if l.pc == 3 then m.re[r := m.re[r][c := l.result.re]] else m.re,
            if l.pc == 4 then m.im[r := m.im[r][c := l.result.im]] else m.im)
  }

  ghost predicate Within(ws: seq<(nat, nat)>, n: nat) { forall k :: 0 <= k < |ws| ==> ws[k].0 < n && ws[k].1 < n }

  /** Before the loop: no pixel has begun, and the result matrices hold whatever they hold. */
  ghost function Initial(q: Inputs, re: RealFrame, im: RealFrame): (m: Machine)
    requires Proper(q) && Rect(re, q.n, q.n) && Rect(im, q.n, q.n)
    ensures Sound(m, q) && m.re == re && m.im == im
    ensures forall r: nat, c: nat :: r < q.n && c < q.n ==> m.locals[r][c] == START
  {
    Machine(seq(q.n, i => seq(q.n, j => START)), re, im)
  }

  /** The state after statements of the given pixels were executed, in the order in which they happened to be. */
  ghost function Run(m: Machine, q: Inputs, ws: seq<(nat, nat)>): (m': Machine)
    requires Sound(m, q) && Within(ws, q.n)
    ensures Sound(m', q)
  {
    if ws == [] then m else
    var k := |ws| - 1;
    Step(Run(m, q, ws[..k]), q, ws[k].0, ws[k].1)
  }

  /** How many statements of a pixel a run has executed. */
  function Executed(ws: seq<(nat, nat)>, r: nat, c: nat): nat { multiset(ws)[(r, c)] }

  /** At every moment of every interleaving: a pixel has executed as many of its five statements as it was
      given, and each entry of the result matrices is final or has not been touched. */
  lemma {:induction false} RunEntry(q: Inputs, re: RealFrame, im: RealFrame, ws: seq<(nat, nat)>, r: nat, c: nat)
    requires Proper(q) && Rect(re, q.n, q.n) && Rect(im, q.n, q.n) && Within(ws, q.n) && r < q.n && c < q.n
    ensures var m := Run(Initial(q, re, im), q, ws);
      var k := Executed(ws, r, c);
      m.locals[r][c].pc == (if k < 5 then k else 5) &&
      m.re[r][c] == (if k >= 4 then Final(q)[r][c].re else re[r][c]) &&
      m.im[r][c] == (if k >= 5 then Final(q)[r][c].im else im[r][c])
  {
    if ws != [] {
      var k := |ws| - 1;
      RunEntry(q, re, im, ws[..k], r, c);
      StepEntry(Run(Initial(q, re, im), q, ws[..k]), q, ws[k].0, ws[k].1, r, c);
      LastExecuted(ws, r, c);
      hide Run, Initial, Proper, Final, Step, Sound, LocalAt, Executed;
    }
  }

  lemma LastExecuted(ws: seq<(nat, nat)>, r: nat, c: nat)
    requires ws != []
    ensures var k := |ws| - 1;
      Executed(ws, r, c) == Executed(ws[..k], r, c) + if ws[k] == (r, c) then 1 else 0
  {
    assert ws == ws[..|ws| - 1] + [ws[|ws| - 1]];
  }

  /** One step moves its own pixel on and leaves every other alone. */
  lemma StepEntry(m: Machine, q: Inputs, i: nat, j: nat, r: nat, c: nat)
    requires Sound(m, q) && i < q.n && j < q.n && r < q.n && c < q.n
    ensures var m' := Step(m, q, i, j);
      var k := m.locals[r][c].pc;
      var here := i == r && j == c;
      m'.locals[r][c].pc == (if here && k < 5 then k + 1 else k) &&
      m'.re[r][c] == (if here && k == 3 then Final(q)[r][c].re else m.re[r][c]) &&
      m'.im[r][c] == (if here && k == 4 then Final(q)[r][c].im else m.im[r][c])
  {
    hide NextLocal, Proper, Final;
  }

  /** The contents the sequential double loop leaves. */
  ghost predicate Done(m: Machine, q: Inputs)
    requires Sound(m, q)
  {
    forall r: nat, c: nat :: r < q.n && c < q.n ==> m.re[r][c] == Final(q)[r][c].re && m.im[r][c] == Final(q)[r][c].im
  }

  /** Every pixel gets to execute its five statements. */
  ghost predicate Finishing(ws: seq<(nat, nat)>, n: nat) {
    forall r: nat, c: nat :: r < n && c < n ==> Executed(ws, r, c) >= 5
  }

  /** A frame of equal values. */
  function Flat(x: real, n: nat): (g: RealFrame)
    ensures Rect(g, n, n)
    ensures forall i, j :: 0 <= i < n && 0 <= j < n ==> g[i][j] == x
  {
    seq(n, i => seq(n, j => x))
  }

  /** Whatever the interleaving, and whatever the result matrices held before, a run ends with the filtered
      spectrum in them exactly when every pixel has executed its five statements. */
  lemma ScheduleIndependent(q: Inputs, ws: seq<(nat, nat)>)
    requires Proper(q) && Within(ws, q.n)
    ensures (forall re: RealFrame, im: RealFrame | Rect(re, q.n, q.n) && Rect(im, q.n, q.n) ::
               Done(Run(Initial(q, re, im), q, ws), q))
            <==> Finishing(ws, q.n)
  {
    hide Proper, Final, Run, Initial, LocalAt, Executed;
    if Finishing(ws, q.n) {
      forall re: RealFrame, im: RealFrame | Rect(re, q.n, q.n) && Rect(im, q.n, q.n)
        ensures Done(Run(Initial(q, re, im), q, ws), q)
      {
        forall r: nat, c: nat | r < q.n && c < q.n
          ensures Run(Initial(q, re, im), q, ws).re[r][c] == Final(q)[r][c].re
          ensures Run(Initial(q, re, im), q, ws).im[r][c] == Final(q)[r][c].im
        {
          RunEntry(q, re, im, ws, r, c);
        }
      }
    } else {
      var r: nat, c: nat :| r < q.n && c < q.n && Executed(ws, r, c) < 5;
      var g := Flat(Final(q)[r][c].im + 1.0, q.n);
      RunEntry(q, g, g, ws, r, c);
      assert !Done(Run(Initial(q, g, g), q, ws), q);
    }
  }

  /** The five statements of the loop body at a pixel: sum channel 0, sum channel 1, divide, store the real
      part, store the imaginary part. */
  ghost function Visit(i: nat, j: nat): seq<(nat, nat)> { [(i, j), (i, j), (i, j), (i, j), (i, j)] }

  /** The visits of the first j pixels of row i, in the order of the inner loop. */
  ghost function RowVisits(i: nat, j: nat): seq<(nat, nat)> {
    if j == 0 then [] else RowVisits(i, j - 1) + Visit(i, j - 1)
  }

  /** The visits of the first i rows, in the order of the outer loop. */
  ghost function RowMajor(n: nat, i: nat): seq<(nat, nat)> {
    if i == 0 then [] else RowMajor(n, i - 1) + RowVisits(i - 1, n)
  }

  /** The state after the five statements of one pixel. */
  ghost function Visited(m: Machine, q: Inputs, i: nat, j: nat): (m': Machine)
    requires Sound(m, q) && i < q.n && j < q.n
    ensures Sound(m', q)
  {
    Step(Step(Step(Step(Step(m, q, i, j), q, i, j), q, i, j), q, i, j), q, i, j)
  }

  lemma NothingRun(m: Machine, q: Inputs)
    requires Sound(m, q)
    ensures Within([], q.n) && Run(m, q, []) == m
  {
  }

  /** A run is continued by one statement. */
  lemma RunStep(m: Machine, q: Inputs, ws: seq<(nat, nat)>, i: nat, j: nat)
    requires Sound(m, q) && Within(ws, q.n) && i < q.n && j < q.n
    ensures Within(ws + [(i, j)], q.n) && Run(m, q, ws + [(i, j)]) == Step(Run(m, q, ws), q, i, j)
  {
    hide Step, Sound;
    assert (ws + [(i, j)])[..|ws|] == ws;
  }

  /** A run is continued by a whole pixel. */
  lemma RunVisit(m: Machine, q: Inputs, ws: seq<(nat, nat)>, i: nat, j: nat)
    requires Sound(m, q) && Within(ws, q.n) && i < q.n && j < q.n
    ensures Within(ws + Visit(i, j), q.n) && Run(m, q, ws + Visit(i, j)) == Visited(Run(m, q, ws), q, i, j)
  {
    hide Step, Sound, Run, Within;
    var v := [(i, j)];
    RunStep(m, q, ws, i, j);
    RunStep(m, q, ws + v, i, j);
    RunStep(m, q, ws + v + v, i, j);
    RunStep(m, q, ws + v + v + v, i, j);
    RunStep(m, q, ws + v + v + v + v, i, j);
    assert ws + Visit(i, j) == ws + v + v + v + v + v;
  }

  /** Counting over two runs, one after the other. */
  lemma Counted(a: seq<(nat, nat)>, b: seq<(nat, nat)>, r: nat, c: nat)
    ensures Executed(a + b, r, c) == Executed(a, r, c) + Executed(b, r, c)
  {
  }

  lemma NoneExecuted(r: nat, c: nat)
    ensures Executed([], r, c) == 0
  {
  }

  lemma VisitCounted(i: nat, j: nat, r: nat, c: nat)
    ensures Executed(Visit(i, j), r, c) == if r == i && c == j then 5 else 0
  {
    var v := (i, j);
    assert multiset(Visit(i, j)) == multiset{v, v, v, v, v};
  }

  lemma {:induction false} RowVisited(i: nat, j: nat, r: nat, c: nat)
    ensures Executed(RowVisits(i, j), r, c) == if r == i && c < j then 5 else 0
  {
    hide Executed;
    if j == 0 {
      NoneExecuted(r, c);
    } else {
      RowVisited(i, j - 1, r, c);
      VisitCounted(i, j - 1, r, c);
      Counted(RowVisits(i, j - 1), Visit(i, j - 1), r, c);
      hide Visit;
    }
  }

  lemma {:induction false} RowMajorVisited(n: nat, i: nat, r: nat, c: nat)
    ensures Executed(RowMajor(n, i), r, c) == if r < i && c < n then 5 else 0
  {
    hide Executed, RowVisits;
    if i == 0 {
      NoneExecuted(r, c);
    } else {
      RowMajorVisited(n, i - 1, r, c);
      RowVisited(i - 1, n, r, c);
      Counted(RowMajor(n, i - 1), RowVisits(i - 1, n), r, c);
    }
  }

  /** A run that executes nothing outside n by n stays within it. */
  lemma StaysWithin(ws: seq<(nat, nat)>, n: nat)
    requires forall r: nat, c: nat :: Executed(ws, r, c) > 0 ==> r < n && c < n
    ensures Within(ws, n)
  {
    forall k | 0 <= k < |ws| ensures ws[k].0 < n && ws[k].1 < n {
      assert ws[k] in multiset(ws);
      assert Executed(ws, ws[k].0, ws[k].1) > 0;
    }
  }

  /** What three statements do to a pixel that has not begun. */
  lemma ThreeSteps(m: Machine, q: Inputs, i: nat, j: nat)
    requires Sound(m, q) && i < q.n && j < q.n && m.locals[i][j].pc == 0
    ensures var m' := Step(Step(Step(m, q, i, j), q, i, j), q, i, j);
      m'.locals[i][j] == LocalAt(q, i, j, 3) && m'.re == m.re && m'.im == m.im
  {
    var a := Step(m, q, i, j);
    var b := Step(a, q, i, j);
    StepForward(m, q, i, j);
    StepForward(a, q, i, j);
    StepForward(b, q, i, j);
    hide LocalAt, Step;
  }

  /** A statement before the stores moves its pixel on and touches no result matrix. */
  lemma StepForward(m: Machine, q: Inputs, i: nat, j: nat)
    requires Sound(m, q) && i < q.n && j < q.n && m.locals[i][j].pc < 3
    ensures var m' := Step(m, q, i, j);
      m'.locals[i][j].pc == m.locals[i][j].pc + 1 && m'.locals[i][j] == LocalAt(q, i, j, m'.locals[i][j].pc) &&
      m'.re == m.re && m'.im == m.im
  {
    hide NextLocal, LocalAt, Proper;
  }

  /** The sequential loop comes to a pixel that has not begun, and goes on to the next one in its row. */
  lemma NextVisit(q: Inputs, re: RealFrame, im: RealFrame, i: nat, j: nat)
    requires Proper(q) && Rect(re, q.n, q.n) && Rect(im, q.n, q.n) && i < q.n && j < q.n
    ensures var start, ws := Initial(q, re, im), RowMajor(q.n, i) + RowVisits(i, j);
      Within(ws, q.n) && Run(start, q, ws).locals[i][j].pc == 0 &&
      ws + Visit(i, j) == RowMajor(q.n, i) + RowVisits(i, j + 1) &&
      Within(ws + Visit(i, j), q.n) && Run(start, q, ws + Visit(i, j)) == Visited(Run(start, q, ws), q, i, j)
  {
    var start, ws := Initial(q, re, im), RowMajor(q.n, i) + RowVisits(i, j);
    assert ws + Visit(i, j) == RowMajor(q.n, i) + RowVisits(i, j + 1);
    hide Visit, RowMajor, RowVisits, Executed, Run, Initial, Visited, Proper, Final;
    forall r: nat, c: nat
      ensures Executed(ws, r, c) == if (r < i && c < q.n) || (r == i && c < j) then 5 else 0
    {
      RowMajorVisited(q.n, i, r, c);
      RowVisited(i, j, r, c);
      Counted(RowMajor(q.n, i), RowVisits(i, j), r, c);
    }
    StaysWithin(ws, q.n);
    RunEntry(q, re, im, ws, i, j);
    RunVisit(start, q, ws, i, j);
  }

  /** The order in which `FilterLoop` executes the statements is one of these runs, so it and every finishing
      interleaving leave the same matrices. */
  lemma SequentialRuns(q: Inputs, re: RealFrame, im: RealFrame)
    requires Proper(q) && Rect(re, q.n, q.n) && Rect(im, q.n, q.n)
    ensures Within(RowMajor(q.n, q.n), q.n) && Finishing(RowMajor(q.n, q.n), q.n)
    ensures Done(Run(Initial(q, re, im), q, RowMajor(q.n, q.n)), q)
  {
    hide Proper, Final, Run, Initial, Sound, Executed, Done, RowMajor;
    forall r: nat, c: nat ensures Executed(RowMajor(q.n, q.n), r, c) == if r < q.n && c < q.n then 5 else 0 {
      RowMajorVisited(q.n, q.n, r, c);
    }
    StaysWithin(RowMajor(q.n, q.n), q.n);
    ScheduleIndependent(q, RowMajor(q.n, q.n));
  }
}
