/** The phase inversion loop of jni_qDPC.cpp over image buffers, and the order in which its statements run. */
module QuantDpc {
  import opened Grids
  import opened ComplexField
  import opened Spectra
  import opened QuantDpcTheory
  import opened PhaseReality
  import opened Schedules

  predicate Square(a: array2<real>, n: nat) { a.Length0 == n && a.Length1 == n }

  /** The first three statements of the loop body at one frequency: the local variables they leave. */
  method FilterStep(i0: Complex, i1: Complex, h0: real, h1: real, reg: real) returns (l: Local)
    requires (h0 + h1) * (h0 + h1) + reg != 0.0
    ensures l.result == FilterValue(Add(i0, i1), h0 + h1, reg)
    ensures l == Summed(Summed(START, i0, h0), i1, h1).(pc := 3, result := l.result)
  {
    l := START;
    l := Summed(l, i0, h0);
    l := Summed(l, i1, h1);
    assert l.iSum == Add(i0, i1) && l.hiSum == Complex(0.0, -(h0 + h1)) && l.hSum == Complex(0.0, h0 + h1);
    var m := Modulus(l.hSum);
    assert m * m == (h0 + h1) * (h0 + h1);
    l := l.(pc := 3, result := Over(Mul(l.iSum, l.hiSum), m * m + reg));
  }

  /** The two planes of the spectrum of a real image. */
  method DpcSpectrum(lib: Library, d: array2<real>, n: nat) returns (re: array2<real>, im: array2<real>)
    requires 0 < n && Square(d, n)
    ensures fresh(re) && fresh(im) && Square(re, n) && Square(im, n)
    ensures forall i, j :: 0 <= i < n && 0 <= j < n ==>
      Complex(re[i, j], im[i, j]) == Fft(lib, Complexified(View(d), n, n), n, n)[i][j]
  {
    hide Fft;
    var spectrum: Frame := Fft(lib, Complexified(View(d), n, n), n, n);
    re := new real[n, n]((i, j) requires 0 <= i < n && 0 <= j < n => spectrum[i][j].re);
    im := new real[n, n]((i, j) requires 0 <= i < n && 0 <= j < n => spectrum[i][j].im);
  }

  /** The buffers that the loop reads hold the inputs of the machine. */
  ghost predicate Holds(re0: array2<real>, im0: array2<real>, re1: array2<real>, im1: array2<real>,
                        t0: array2<real>, t1: array2<real>, q: Inputs)
    reads re0, im0, re1, im1, t0, t1
  {
    && Proper(q)
    && Square(re0, q.n) && Square(im0, q.n) && Square(re1, q.n) && Square(im1, q.n) && Square(t0, q.n) && Square(t1, q.n)
    && forall i, j :: 0 <= i < q.n && 0 <= j < q.n ==>
         q.f0[i][j] == Complex(re0[i, j], im0[i, j]) && q.f1[i][j] == Complex(re1[i, j], im1[i, j]) &&
         q.t0[i][j] == t0[i, j] && q.t1[i][j] == t1[i, j]
  }

  /** The buffers that the loop writes hold the result matrices of the machine. */
  ghost predicate Shows(re: array2<real>, im: array2<real>, m: Machine)
    reads re, im
  {
    View(re) == m.re && View(im) == m.im
  }

  /** The last two statements of the loop body, for the local variables that the first three have left. */
  method StoreResult(re: array2<real>, im: array2<real>, i: nat, j: nat, l: Local, ghost q: Inputs, ghost m: Machine)
    returns (ghost m': Machine)
    requires Sound(m, q) && i < q.n && j < q.n && Square(re, q.n) && Square(im, q.n) && re != im
    requires m.locals[i][j].pc == 0 && l == LocalAt(q, i, j, 3) && Shows(re, im, m)
    modifies re, im
    ensures Sound(m', q) && m' == Visited(m, q, i, j) && Shows(re, im, m')
  {
    m' := Step(Step(Step(m, q, i, j), q, i, j), q, i, j);
    assert m'.locals[i][j] == l && m'.re == m.re && m'.im == m.im by {
      ThreeSteps(m, q, i, j);
    }
    hide LocalAt;
    re[i, j] := l.result.re;
    m' := Step(m', q, i, j);
    GridEqual(View(re), m'.re, q.n, q.n);
    im[i, j] := l.result.im;
    m' := Step(m', q, i, j);
    GridEqual(View(im), m'.im, q.n, q.n);
  }

  /** The loop body at a pixel that has not begun. */
  method VisitPixel(i0: Complex, i1: Complex, h0: real, h1: real, re: array2<real>, im: array2<real>, i: nat, j: nat,
                    reg: real, ghost q: Inputs, ghost m: Machine)
    returns (ghost m': Machine)
    requires Sound(m, q) && i < q.n && j < q.n && Square(re, q.n) && Square(im, q.n) && re != im
    requires i0 == q.f0[i][j] && i1 == q.f1[i][j] && h0 == q.t0[i][j] && h1 == q.t1[i][j] && reg == q.reg
    requires m.locals[i][j].pc == 0 && Shows(re, im, m)
    modifies re, im
    ensures Sound(m', q) && m' == Visited(m, q, i, j) && Shows(re, im, m')
  {
    hide LocalAt, Shows, View, Visited, FilterValue, Add, Summed;
    assert Transfer(q.t0, q.t1, q.n, i, j) == h0 + h1;
    var l := FilterStep(i0, i1, h0, h1, reg);
    AfterDivision(q, i, j, l);
    m' := StoreResult(re, im, i, j, l, q, m);
  }

  /** The nested pixel loops: `i` over columns and `j` over rows, indexed as (i, j). The ghost sequence `trace`
      records the order of the statements, and at every moment the buffers are those of the machine that has
      executed them. */
  method FilterLoop(re0: array2<real>, im0: array2<real>, re1: array2<real>, im1: array2<real>,
                    t0: array2<real>, t1: array2<real>, reg: real, n: nat, ghost q: Inputs)
    returns (re: array2<real>, im: array2<real>, ghost trace: seq<(nat, nat)>)
    requires Holds(re0, im0, re1, im1, t0, t1, q) && q.n == n && q.reg == reg
    ensures fresh(re) && fresh(im) && Square(re, n) && Square(im, n)
    ensures trace == RowMajor(n, n) && Within(trace, n)
    ensures Shows(re, im, Run(Initial(q, Flat(0.0, n), Flat(0.0, n)), q, trace))
    ensures forall i, j :: 0 <= i < n && 0 <= j < n ==> Complex(re[i, j], im[i, j]) == Final(q)[i][j]
  {
    hide Final, Sound, Step, Run, Visited, Initial, Proper, LocalAt, Within, Visit;
    re, im := new real[n, n]((i, j) => 0.0), new real[n, n]((i, j) => 0.0);
    ghost var zeros := Flat(0.0, n);
    GridEqual(View(re), zeros, n, n);
    GridEqual(View(im), zeros, n, n);
    ghost var start := Initial(q, zeros, zeros);
    ghost var m := start;
    trace := [];
    NothingRun(start, q);
    for i := 0 to n
      invariant trace == RowMajor(n, i) && Within(trace, n) && Sound(m, q) && m == Run(start, q, trace)
      invariant Shows(re, im, m)
    {
      for j := 0 to n
        invariant trace == RowMajor(n, i) + RowVisits(i, j)
        invariant Within(trace, n) && Sound(m, q) && m == Run(start, q, trace) && Shows(re, im, m)
      {
        NextVisit(q, zeros, zeros, i, j);
        m := VisitPixel(Complex(re0[i, j], im0[i, j]), Complex(re1[i, j], im1[i, j]), t0[i, j], t1[i, j],
                        re, im, i, j, reg, q, m);
        trace := trace + Visit(i, j);
      }
    }
    SequentialRuns(q, zeros, zeros);
  }

  /** `FilterStep` leaves the local variables of the machine. */
  lemma AfterDivision(q: Inputs, i: nat, j: nat, l: Local)
    requires Proper(q) && i < q.n && j < q.n
    requires l.result == FilterValue(Add(q.f0[i][j], q.f1[i][j]), Transfer(q.t0, q.t1, q.n, i, j), q.reg)
    requires l == Summed(Summed(START, q.f0[i][j], q.t0[i][j]), q.f1[i][j], q.t1[i][j]).(pc := 3, result := l.result)
    ensures l == LocalAt(q, i, j, 3)
  {
    hide FilterValue, Add, Summed;
  }

  /** The phase image of two differential images and two transfer functions. The backward transform is
      not scaled, and its second plane is dropped. */
  method QdpcLoop(lib: Library, dpcList: seq<array2<real>>, transferFunctionList: seq<array2<real>>, reg: real, n: nat)
    returns (phase: array2<real>)
    requires 0 < n && |dpcList| >= 2 && |transferFunctionList| >= 2
    requires Square(dpcList[0], n) && Square(dpcList[1], n)
    requires Square(transferFunctionList[0], n) && Square(transferFunctionList[1], n)
    requires Regular(View(transferFunctionList[0]), View(transferFunctionList[1]), reg, n)
    ensures fresh(phase) && Square(phase, n)
    ensures View(phase) == RealPart(ComplexPhase(lib, View(dpcList[0]), View(dpcList[1]),
      View(transferFunctionList[0]), View(transferFunctionList[1]), reg, n), n)
  {
    hide Fft, UnscaledIfft, FilterValue, Add;
    var t0, t1 := transferFunctionList[0], transferFunctionList[1];
    ghost var f0, f1 := Fft(lib, Complexified(View(dpcList[0]), n, n), n, n), Fft(lib, Complexified(View(dpcList[1]), n, n), n, n);
    var re0, im0 := DpcSpectrum(lib, dpcList[0], n);
    var re1, im1 := DpcSpectrum(lib, dpcList[1], n);
    ghost var q := Inputs(f0, f1, View(t0), View(t1), reg, n);
    var re, im, _ := FilterLoop(re0, im0, re1, im1, t0, t1, reg, n, q);
    phase := PhasePlane(lib, re, im, n, Final(q));
  }

  /** The planes of a spectrum merged, transformed back without scaling, and the first plane of the result. */
  method PhasePlane(lib: Library, re: array2<real>, im: array2<real>, n: nat, ghost want: Frame)
    returns (phase: array2<real>)
    requires 0 < n && Square(re, n) && Square(im, n) && Rect(want, n, n)
    requires forall i, j :: 0 <= i < n && 0 <= j < n ==> Complex(re[i, j], im[i, j]) == want[i][j]
    ensures fresh(phase) && Square(phase, n)
    ensures View(phase) == RealPart(UnscaledIfft(lib, want, n, n), n)
  {
    hide UnscaledIfft;
    var merged := new Complex[n, n]((i, j) requires 0 <= i < n && 0 <= j < n reads re, im =>
      Complex(re[i, j], im[i, j]));
    GridEqual(View(merged), want, n, n);
    var image: Frame := UnscaledIfft(lib, View(merged), n, n);
    phase := new real[n, n]((i, j) requires 0 <= i < n && 0 <= j < n => image[i][j].re);
    GridEqual(View(phase), RealPart(image, n), n, n);
  }
}
