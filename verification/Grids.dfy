/** Arithmetic modulo a variable modulus, as the index arithmetic of an image frame needs it. */
module Modulo {

  /** The quotient and remainder of a division are the only ones there are. */
  lemma DivModUnique(x: int, n: int, q: int, r: int)
    requires 0 < n && x == q * n + r && 0 <= r < n
    ensures x / n == q && x % n == r
  {
    var d := x / n - q;
    assert d * n == r - x % n by {
      assert x == (x / n) * n + x % n;
    }
    assert d >= 1 ==> d * n >= n;
    assert d <= -1 ==> d * n <= -n;
  }

  /** Whole turns do not change a remainder. */
  lemma ModTurns(x: int, n: int, k: int)
    requires 0 < n
    ensures (x + k * n) % n == x % n
  {
    var q, r := x / n, x % n;
    assert x + k * n == (q + k) * n + r;
    DivModUnique(x + k * n, n, q + k, r);
  }

  /** Two numbers have the same remainder exactly when they differ by whole turns. */
  lemma ModEqualTurns(x: int, y: int, n: int) returns (k: int)
    requires 0 < n && x % n == y % n
    ensures x == y + k * n
  {
    k := x / n - y / n;
    assert x == (x / n) * n + x % n;
    assert y == (y / n) * n + y % n;
    assert (x / n) * n - (y / n) * n == k * n;
  }

  /** A remainder may be taken early. */
  lemma ModEarly(x: int, y: int, n: int)
    requires 0 < n
    ensures (x % n + y) % n == (x + y) % n
    ensures (y + x % n) % n == (x + y) % n
    ensures (y - x % n) % n == (y - x) % n
    ensures (x % n - y) % n == (x - y) % n
  {
    var q := x / n;
    assert x == q * n + x % n;
    ModTurns(x % n + y, n, q);
    ModTurns(y - x % n, n, -q);
    ModTurns(x % n - y, n, q);
    assert -q * n == -(q * n);
  }

  /** Equal remainders mean a difference of whole turns. */
  lemma ModDifference(x: int, y: int, n: int)
    requires 0 < n
    ensures x % n == y % n <==> (x - y) % n == 0
  {
    if x % n == y % n {
      var k := ModEqualTurns(x, y, n);
      DivModUnique(x - y, n, k, 0);
    }
    if (x - y) % n == 0 {
      ModEarly(x - y, y, n);
    }
  }

  /** Adding an index that is already reduced wraps at most once. */
  lemma ModWrap(r: int, s: int, n: int)
    requires 0 <= r < n && 0 <= s < n
    ensures (r + s) % n == if r + s < n then r + s else r + s - n
    ensures (r - s) % n == if r >= s then r - s else r - s + n
  {
    if r + s < n { DivModUnique(r + s, n, 0, r + s); } else { DivModUnique(r + s, n, 1, r + s - n); }
    if r >= s { DivModUnique(r - s, n, 0, r - s); } else { DivModUnique(r - s, n, -1, r - s + n); }
  }

  /** Moving forward and back again is the identity on reduced indices. */
  lemma ModBack(i: int, a: int, n: int)
    requires 0 <= i < n
    ensures ((i + a) % n - a) % n == i
    ensures ((i - a) % n + a) % n == i
  {
    ModEarly(i + a, a, n);
    ModEarly(i - a, a, n);
    DivModUnique(i, n, 0, i);
  }
}

/** Image frames as values: a grid is a sequence of rows of equal length. */
module Grids {
  import opened Modulo

  ghost predicate Rect<T>(g: seq<seq<T>>, h: nat, w: nat) {
    && |g| == h
    && forall i :: 0 <= i < h ==> |g[i]| == w
  }

  /** The pixels of a two-dimensional buffer. */
  function View<T>(a: array2<T>): (g: seq<seq<T>>)
    reads a
    ensures Rect(g, a.Length0, a.Length1)
    ensures forall i, j :: 0 <= i < a.Length0 && 0 <= j < a.Length1 ==> g[i][j] == a[i, j]
  {
    seq(a.Length0, i requires 0 <= i < a.Length0 reads a =>
      seq(a.Length1, j requires 0 <= j < a.Length1 reads a => a[i, j]))
  }

  lemma GridEqual<T>(a: seq<seq<T>>, b: seq<seq<T>>, h: nat, w: nat)
    requires Rect(a, h, w) && Rect(b, h, w)
    requires forall i, j :: 0 <= i < h && 0 <= j < w ==> a[i][j] == b[i][j]
    ensures a == b
  {
    forall i | 0 <= i < h ensures a[i] == b[i] {
      assert |a[i]| == |b[i]| == w;
    }
  }

  /** The frame rotated down by `dy` rows and right by `dx` columns, wrapping at the edges. */
  function Rotate<T>(g: seq<seq<T>>, h: nat, w: nat, dy: int, dx: int): (r: seq<seq<T>>)
    requires Rect(g, h, w) && 0 < h && 0 < w
    ensures Rect(r, h, w)
    ensures forall i, j :: 0 <= i < h && 0 <= j < w ==> r[i][j] == g[(i - dy) % h][(j - dx) % w]
  {
    seq(h, i requires 0 <= i < h => seq(w, j requires 0 <= j < w => g[(i - dy) % h][(j - dx) % w]))
  }

  /** The frame `base` with its top left corner replaced by `top`. */
  function Overlay<T>(base: seq<seq<T>>, bh: nat, bw: nat, top: seq<seq<T>>, h: nat, w: nat): (r: seq<seq<T>>)
    requires Rect(base, bh, bw) && Rect(top, h, w) && h <= bh && w <= bw
    ensures Rect(r, bh, bw)
    ensures forall i, j :: 0 <= i < bh && 0 <= j < bw ==>
      r[i][j] == if i < h && j < w then top[i][j] else base[i][j]
  {
    seq(bh, i requires 0 <= i < bh => seq(bw, j requires 0 <= j < bw =>
      if i < h && j < w then top[i][j] else base[i][j]))
  }

  /** Every source pixel lands where its coordinates, shifted and wrapped, say. */
  lemma RotateLands<T>(g: seq<seq<T>>, h: nat, w: nat, dy: int, dx: int, r: int, c: int)
    requires Rect(g, h, w) && 0 <= r < h && 0 <= c < w
    ensures Rotate(g, h, w, dy, dx)[(r + dy) % h][(c + dx) % w] == g[r][c]
  {
    ModBack(r, dy, h);
    ModBack(c, dx, w);
  }

  /** Shifting by (a, b) and then by (c, d) is shifting by (a + c, b + d). */
  lemma RotateCompose<T>(g: seq<seq<T>>, h: nat, w: nat, a: int, b: int, c: int, d: int)
    requires Rect(g, h, w) && 0 < h && 0 < w
    ensures Rotate(Rotate(g, h, w, a, b), h, w, c, d) == Rotate(g, h, w, a + c, b + d)
  {
    hide Rotate, Back;
    var lhs, rhs := Rotate(Rotate(g, h, w, a, b), h, w, c, d), Rotate(g, h, w, a + c, b + d);
    forall i, j | 0 <= i < h && 0 <= j < w ensures lhs[i][j] == rhs[i][j] {
      RotatedAt(Rotate(g, h, w, a, b), h, w, c, d, i, j);
      RotatedAt(g, h, w, a, b, Back(i, c, h), Back(j, d, w));
      RotatedAt(g, h, w, a + c, b + d, i, j);
      BackTwice(i, c, a, h);
      BackTwice(j, d, b, w);
    }
    GridEqual(lhs, rhs, h, w);
  }

  /** Where the pixel at index i comes from under a shift by dy. */
  function Back(i: int, dy: int, n: nat): (r: nat)
    requires 0 < n
    ensures r < n
  {
    (i - dy) % n
  }

  lemma RotatedAt<T>(g: seq<seq<T>>, h: nat, w: nat, dy: int, dx: int, i: nat, j: nat)
    requires Rect(g, h, w) && i < h && j < w
    ensures Rotate(g, h, w, dy, dx)[i][j] == g[Back(i, dy, h)][Back(j, dx, w)]
  {
  }

  lemma BackTwice(i: int, c: int, a: int, n: nat)
    requires 0 < n
    ensures Back(Back(i, c, n), a, n) == Back(i, a + c, n)
  {
    ModTwice(i - c, a, i - (a + c), n);
  }

  lemma ModTwice(x: int, a: int, y: int, n: int)
    requires 0 < n && y == x - a
    ensures (x % n - a) % n == y % n
  {
    ModEarly(x, a, n);
  }

  /** Only the shift modulo the frame size matters. */
  lemma RotateCongruent<T>(g: seq<seq<T>>, h: nat, w: nat, a: int, b: int, c: int, d: int)
    requires Rect(g, h, w) && 0 < h && 0 < w
    requires a % h == c % h && b % w == d % w
    ensures Rotate(g, h, w, a, b) == Rotate(g, h, w, c, d)
  {
    var lhs, rhs := Rotate(g, h, w, a, b), Rotate(g, h, w, c, d);
    forall i, j | 0 <= i < h && 0 <= j < w ensures lhs[i][j] == rhs[i][j] {
      ModEarly(a, i, h);
      ModEarly(c, i, h);
      ModEarly(b, j, w);
      ModEarly(d, j, w);
    }
    GridEqual(lhs, rhs, h, w);
  }

  /** A shift by whole turns is the identity. */
  lemma RotateTurns<T>(g: seq<seq<T>>, h: nat, w: nat, a: int, b: int)
    requires Rect(g, h, w) && 0 < h && 0 < w
    requires a % h == 0 && b % w == 0
    ensures Rotate(g, h, w, a, b) == g
  {
    var r := Rotate(g, h, w, a, b);
    forall i, j | 0 <= i < h && 0 <= j < w ensures r[i][j] == g[i][j] {
      ModEarly(a, i, h);
      ModEarly(b, j, w);
      DivModUnique(i, h, 0, i);
      DivModUnique(j, w, 0, j);
    }
    GridEqual(r, g, h, w);
  }

  /** Two shifts that add up to whole turns undo each other. */
  lemma RotateUndone<T>(g: seq<seq<T>>, h: nat, w: nat, a: int, b: int, c: int, d: int)
    requires Rect(g, h, w) && 0 < h && 0 < w
    requires (a + c) % h == 0 && (b + d) % w == 0
    ensures Rotate(Rotate(g, h, w, a, b), h, w, c, d) == g
  {
    RotateCompose(g, h, w, a, b, c, d);
    RotateTurns(g, h, w, a + c, b + d);
  }

  /** The frame that is marked at one pixel only. */
  function Mark(h: nat, w: nat, r: int, c: int): (g: seq<seq<bool>>)
    ensures Rect(g, h, w)
    ensures forall i, j :: 0 <= i < h && 0 <= j < w ==> (g[i][j] <==> i == r && j == c)
  {
    seq(h, i => seq(w, j => i == r && j == c))
  }

  /** Two shifts act alike on every frame exactly when they agree modulo the frame size. */
  lemma RotateFaithful(h: nat, w: nat, a: int, b: int, c: int, d: int)
    requires 0 < h && 0 < w
    ensures (forall g: seq<seq<bool>> | Rect(g, h, w) :: Rotate(g, h, w, a, b) == Rotate(g, h, w, c, d))
            <==> (a % h == c % h && b % w == d % w)
  {
    if a % h == c % h && b % w == d % w {
      forall g: seq<seq<bool>> | Rect(g, h, w)
        ensures Rotate(g, h, w, a, b) == Rotate(g, h, w, c, d)
      {
        RotateCongruent(g, h, w, a, b, c, d);
      }
    } else {
      var g := Mark(h, w, 0, 0);
      RotateLands(g, h, w, a, b, 0, 0);
      var i, j := a % h, b % w;
      ModEarly(a, -c, h);
      ModEarly(b, -d, w);
      ModDifference(a, c, h);
      ModDifference(b, d, w);
      assert Rotate(g, h, w, a, b)[i][j] && !Rotate(g, h, w, c, d)[i][j];
      assert Rotate(g, h, w, a, b) != Rotate(g, h, w, c, d);
    }
  }

  /** Writing a frame over a buffer forgets what the buffer held exactly when it covers the buffer. */
  lemma OverlayForgets(bh: nat, bw: nat, h: nat, w: nat)
    requires 0 < h <= bh && 0 < w <= bw
    ensures (forall x: seq<seq<bool>>, y: seq<seq<bool>>, top: seq<seq<bool>>
              | Rect(x, bh, bw) && Rect(y, bh, bw) && Rect(top, h, w) ::
              Overlay(x, bh, bw, top, h, w) == Overlay(y, bh, bw, top, h, w))
            <==> (h == bh && w == bw)
  {
    if h == bh && w == bw {
      forall x: seq<seq<bool>>, y: seq<seq<bool>>, top: seq<seq<bool>>
        | Rect(x, bh, bw) && Rect(y, bh, bw) && Rect(top, h, w)
        ensures Overlay(x, bh, bw, top, h, w) == Overlay(y, bh, bw, top, h, w)
      {
        GridEqual(Overlay(x, bh, bw, top, h, w), Overlay(y, bh, bw, top, h, w), bh, bw);
      }
    } else {
      var x, y, top := Mark(bh, bw, -1, -1), Mark(bh, bw, bh - 1, bw - 1), Mark(h, w, -1, -1);
      assert Overlay(x, bh, bw, top, h, w)[bh - 1][bw - 1] != Overlay(y, bh, bw, top, h, w)[bh - 1][bw - 1];
    }
  }
}
