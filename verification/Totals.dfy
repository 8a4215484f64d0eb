/** Sums of integer sequences and pixel totals of integer images. */
module Totals {
  import opened Modulo
  import opened Grids

  function Sum(s: seq<int>): int {
    if s == [] then 0 else Sum(s[..|s| - 1]) + s[|s| - 1]
  }

  lemma {:induction false} SumConcat(a: seq<int>, b: seq<int>)
    ensures Sum(a + b) == Sum(a) + Sum(b)
  {
    if b == [] {
      assert a + b == a;
    } else {
      assert (a + b)[..|a + b| - 1] == a + b[..|b| - 1];
      SumConcat(a, b[..|b| - 1]);
    }
  }

  lemma SumSplit(s: seq<int>, k: nat)
    requires k <= |s|
    ensures Sum(s) == Sum(s[..k]) + Sum(s[k..])
  {
    assert s == s[..k] + s[k..];
    SumConcat(s[..k], s[k..]);
  }

  /** Taking an element out of a sum. */
  lemma SumWithout(s: seq<int>, k: nat)
    requires k < |s|
    ensures Sum(s) == s[k] + Sum(s[..k] + s[k + 1..])
  {
    SumSplit(s, k + 1);
    assert s[..k + 1][..k] == s[..k];
    SumConcat(s[..k], s[k + 1..]);
  }

  lemma WithoutOne<T>(s: seq<T>, k: nat)
    requires k < |s|
    ensures multiset(s[..k] + s[k + 1..]) == multiset(s) - multiset{s[k]}
  {
    assert s == s[..k] + [s[k]] + s[k + 1..];
  }

  /** A sum does not depend on the order of its terms. */
  lemma {:induction false} SumPermuted(a: seq<int>, b: seq<int>)
    requires multiset(a) == multiset(b)
    ensures Sum(a) == Sum(b)
  {
    if a == [] {
      assert |multiset(b)| == 0;
    } else {
      var n := |a| - 1;
      assert a[n] in multiset(a);
      var k :| 0 <= k < |b| && b[k] == a[n];
      WithoutOne(a, n);
      WithoutOne(b, k);
      SumPermuted(a[..n] + a[n + 1..], b[..k] + b[k + 1..]);
      SumWithout(a, n);
      SumWithout(b, k);
    }
  }

  /** A sequence read from a shifted start, wrapping around. */
  function Turned(s: seq<int>, d: int): (t: seq<int>)
    ensures |t| == |s|
    ensures forall j :: 0 <= j < |s| ==> t[j] == s[(j - d) % |s|]
  {
    seq(|s|, j requires 0 <= j < |s| => s[(j - d) % |s|])
  }

  lemma SumTurned(s: seq<int>, d: int)
    ensures Sum(Turned(s, d)) == Sum(s)
  {
    var n := |s|;
    if n > 0 {
      var k := d % n;
      forall j | 0 <= j < n ensures Turned(s, d)[j] == (s[n - k..] + s[..n - k])[j] {
        ModEarly(d, j, n);
        ModWrap(j, k, n);
      }
      assert Turned(s, d) == s[n - k..] + s[..n - k];
      SumConcat(s[n - k..], s[..n - k]);
      SumSplit(s, n - k);
    }
  }

  /** The sums of the rows of an image. */
  function RowTotals(g: seq<seq<int>>): (t: seq<int>)
    ensures |t| == |g| && forall i :: 0 <= i < |g| ==> t[i] == Sum(g[i])
  {
    seq(|g|, i requires 0 <= i < |g| => Sum(g[i]))
  }

  /** The total of all pixels. */
  function Total(g: seq<seq<int>>): int { Sum(RowTotals(g)) }

  /** A shift keeps the total: it only moves pixels. */
  lemma TotalRotated(g: seq<seq<int>>, h: nat, w: nat, dy: int, dx: int)
    requires Rect(g, h, w) && 0 < h && 0 < w
    ensures Total(Rotate(g, h, w, dy, dx)) == Total(g)
  {
    var r := Rotate(g, h, w, dy, dx);
    forall i | 0 <= i < h ensures RowTotals(r)[i] == Turned(RowTotals(g), dy)[i] {
      var row := g[(i - dy) % h];
      assert r[i] == Turned(row, dx);
      SumTurned(row, dx);
    }
    assert RowTotals(r) == Turned(RowTotals(g), dy);
    SumTurned(RowTotals(g), dy);
  }

  lemma {:induction false} SumPointwise(a: seq<int>, b: seq<int>, c: seq<int>)
    requires |a| == |b| == |c| && forall i :: 0 <= i < |a| ==> c[i] == a[i] + b[i]
    ensures Sum(c) == Sum(a) + Sum(b)
  {
    if a != [] {
      SumPointwise(a[..|a| - 1], b[..|b| - 1], c[..|c| - 1]);
    }
  }

  /** The total of a pixelwise sum is the sum of the totals. */
  lemma TotalPointwise(a: seq<seq<int>>, b: seq<seq<int>>, c: seq<seq<int>>, h: nat, w: nat)
    requires Rect(a, h, w) && Rect(b, h, w) && Rect(c, h, w)
    requires forall i, j :: 0 <= i < h && 0 <= j < w ==> c[i][j] == a[i][j] + b[i][j]
    ensures Total(c) == Total(a) + Total(b)
  {
    forall i | 0 <= i < h ensures RowTotals(c)[i] == RowTotals(a)[i] + RowTotals(b)[i] {
      SumPointwise(a[i], b[i], c[i]);
    }
    SumPointwise(RowTotals(a), RowTotals(b), RowTotals(c));
  }

  lemma {:induction false} SumCompared(a: seq<int>, b: seq<int>)
    requires |a| == |b| && forall i :: 0 <= i < |a| ==> a[i] <= b[i]
    ensures Sum(a) <= Sum(b)
    ensures Sum(a) == Sum(b) <==> a == b
  {
    if a != [] {
      var k := |a| - 1;
      SumCompared(a[..k], b[..k]);
      assert a == a[..k] + [a[k]] && b == b[..k] + [b[k]];
    }
  }

  /** An image that is nowhere brighter has no greater total, and the same total only if it is the same image. */
  lemma TotalCompared(a: seq<seq<int>>, b: seq<seq<int>>, h: nat, w: nat)
    requires Rect(a, h, w) && Rect(b, h, w)
    requires forall i, j :: 0 <= i < h && 0 <= j < w ==> a[i][j] <= b[i][j]
    ensures Total(a) <= Total(b)
    ensures Total(a) == Total(b) <==> a == b
  {
    forall i | 0 <= i < h ensures RowTotals(a)[i] <= RowTotals(b)[i] && (RowTotals(a)[i] == RowTotals(b)[i] <==> a[i] == b[i]) {
      SumCompared(a[i], b[i]);
    }
    SumCompared(RowTotals(a), RowTotals(b));
    if Total(a) == Total(b) {
      forall i | 0 <= i < h ensures a[i] == b[i] {
        assert RowTotals(a)[i] == RowTotals(b)[i];
      }
    }
  }

  lemma {:induction false} SumZero(s: seq<int>)
    requires forall i :: 0 <= i < |s| ==> s[i] == 0
    ensures Sum(s) == 0
  {
    if s != [] {
      SumZero(s[..|s| - 1]);
    }
  }

  /** The image of a sequence under a function. */
  ghost function Image<T>(f: T -> int, s: seq<T>): (t: seq<int>)
    ensures |t| == |s| && forall k :: 0 <= k < |s| ==> t[k] == f(s[k])
  {
    seq(|s|, k requires 0 <= k < |s| => f(s[k]))
  }

  lemma ImageConcat<T>(f: T -> int, a: seq<T>, b: seq<T>)
    ensures Image(f, a + b) == Image(f, a) + Image(f, b)
  {
  }

  lemma ImageWithout<T>(f: T -> int, s: seq<T>, k: nat)
    requires k < |s|
    ensures multiset(Image(f, s)) == multiset(Image(f, s[..k] + s[k + 1..])) + multiset{f(s[k])}
  {
    assert Image(f, s) == Image(f, s[..k]) + [f(s[k])] + Image(f, s[k + 1..]);
    ImageConcat(f, s[..k], s[k + 1..]);
  }

  /** Reordering a sequence reorders its image. */
  lemma {:induction false} ImagePermuted<T>(f: T -> int, a: seq<T>, b: seq<T>)
    requires multiset(a) == multiset(b)
    ensures multiset(Image(f, a)) == multiset(Image(f, b))
  {
    if a == [] {
      assert |multiset(b)| == 0;
    } else {
      var n := |a| - 1;
      assert a[n] in multiset(a);
      var k :| 0 <= k < |b| && b[k] == a[n];
      WithoutOne(a, n);
      WithoutOne(b, k);
      ImagePermuted(f, a[..n] + a[n + 1..], b[..k] + b[k + 1..]);
      ImageWithout(f, a, n);
      ImageWithout(f, b, k);
    }
  }
}
