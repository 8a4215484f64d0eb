/** The 16-bit accumulators of the refocusing loop, one pixel at a time. */
module Accumulators {
  import opened Totals

  /** Saturation to unsigned and to signed sixteen bits. */
  function SaturateU(x: int): (r: int)
    ensures 0 <= r <= 65535
  {
    if x < 0 then 0 else if x > 65535 then 65535 else x
  }

  function SaturateS(x: int): (r: int)
    ensures -32768 <= r <= 32767
  {
    if x < -32768 then -32768 else if x > 32767 then 32767 else x
  }

  ghost predicate Pixels(vals: seq<int>) { forall k :: 0 <= k < |vals| ==> 0 <= vals[k] <= 65535 }

  /** The unsigned accumulator after adding the values in order. */
  function Bright(vals: seq<int>): (r: int)
    ensures 0 <= r <= 65535
  {
    if vals == [] then 0 else SaturateU(Bright(vals[..|vals| - 1]) + vals[|vals| - 1])
  }

  /** One step of a signed accumulator: the value is converted to signed sixteen bits, then added or subtracted. */
  function SignedStep(acc: int, v: int, plus: bool): (r: int)
    ensures -32768 <= r <= 32767
  {
    SaturateS(if plus then acc + SaturateS(v) else acc - SaturateS(v))
  }

  /** The signed accumulator after adding or subtracting the values in order. */
  function Signed(vals: seq<int>, plus: seq<bool>): (r: int)
    requires |vals| == |plus|
    ensures -32768 <= r <= 32767
  {
    if vals == [] then 0 else
    SignedStep(Signed(vals[..|vals| - 1], plus[..|vals| - 1]), vals[|vals| - 1], plus[|vals| - 1])
  }

  /** A value with the sign under which it counts. */
  function Counted(v: int, plus: bool): int { if plus then v else -v }

  /** The values with the sign under which they count. */
  function WithSigns(vals: seq<int>, plus: seq<bool>): (s: seq<int>)
    requires |vals| == |plus|
    ensures |s| == |vals| && forall k :: 0 <= k < |vals| ==> s[k] == Counted(vals[k], plus[k])
  {
    seq(|vals|, k requires 0 <= k < |vals| => Counted(vals[k], plus[k]))
  }

  /** The values that are subtracted, with zero in place of the others. */
  function Subtracted(vals: seq<int>, plus: seq<bool>): (s: seq<int>)
    requires |vals| == |plus|
    ensures |s| == |vals| && forall k :: 0 <= k < |vals| ==> s[k] == if plus[k] then 0 else vals[k]
  {
    seq(|vals|, k requires 0 <= k < |vals| => if plus[k] then 0 else vals[k])
  }

  lemma {:induction false} PixelsSum(vals: seq<int>)
    requires Pixels(vals)
    ensures 0 <= Sum(vals)
  {
    if vals != [] {
      PixelsSum(vals[..|vals| - 1]);
    }
  }

  /** The unsigned accumulator holds the true sum, cut off at 65535, whatever the order. */
  lemma {:induction false} BrightExact(vals: seq<int>)
    requires Pixels(vals)
    ensures Bright(vals) == if Sum(vals) <= 65535 then Sum(vals) else 65535
  {
    if vals != [] {
      BrightExact(vals[..|vals| - 1]);
      PixelsSum(vals[..|vals| - 1]);
    }
  }

  lemma BrightOrderFree(a: seq<int>, b: seq<int>)
    requires Pixels(a) && Pixels(b) && multiset(a) == multiset(b)
    ensures Bright(a) == Bright(b)
  {
    BrightExact(a);
    BrightExact(b);
    SumPermuted(a, b);
  }

  /** Every value fits into signed sixteen bits, and so does the sum of every prefix. */
  ghost predicate NeverClips(vals: seq<int>, plus: seq<bool>)
    requires |vals| == |plus|
  {
    vals == [] ||
    (var n := |vals| - 1;
     NeverClips(vals[..n], plus[..n]) && vals[n] <= 32767 && -32768 <= Sum(WithSigns(vals, plus)) <= 32767)
  }

  /** After every prefix, the signed accumulator holds the true signed sum. */
  ghost predicate TracksSum(vals: seq<int>, plus: seq<bool>)
    requires |vals| == |plus|
  {
    Signed(vals, plus) == Sum(WithSigns(vals, plus)) &&
    (vals == [] || TracksSum(vals[..|vals| - 1], plus[..|vals| - 1]))
  }

  lemma SignedSumStep(vals: seq<int>, plus: seq<bool>)
    requires |vals| == |plus| && vals != []
    ensures var n := |vals| - 1;
      Sum(WithSigns(vals, plus)) == Sum(WithSigns(vals[..n], plus[..n])) + Counted(vals[n], plus[n])
  {
    var n := |vals| - 1;
    assert WithSigns(vals, plus)[..n] == WithSigns(vals[..n], plus[..n]);
  }

  /** The signed accumulator holds the true signed sum at every moment exactly when nothing clips. */
  lemma {:induction false} SignedExact(vals: seq<int>, plus: seq<bool>)
    requires |vals| == |plus| && Pixels(vals)
    ensures TracksSum(vals, plus) <==> NeverClips(vals, plus)
  {
    if vals != [] {
      SignedExact(vals[..|vals| - 1], plus[..|vals| - 1]);
      SignedSumStep(vals, plus);
    }
  }

  /** If no value exceeds m and the count times m fits into signed sixteen bits, nothing clips. */
  lemma {:induction false} SmallNeverClips(vals: seq<int>, plus: seq<bool>, m: nat)
    requires |vals| == |plus| && |vals| * m <= 32767
    requires forall k :: 0 <= k < |vals| ==> 0 <= vals[k] <= m
    ensures NeverClips(vals, plus)
    ensures -(|vals| * m) <= Sum(WithSigns(vals, plus)) <= |vals| * m
    ensures 0 <= Sum(vals) <= |vals| * m
  {
    if vals != [] {
      var n := |vals| - 1;
      assert |vals| * m == n * m + m;
      SmallNeverClips(vals[..n], plus[..n], m);
      SignedSumStep(vals, plus);
    }
  }

  /** The signed accumulator never exceeds the unsigned one in size, with or without clipping. */
  lemma {:induction false} SignedWithinBright(vals: seq<int>, plus: seq<bool>)
    requires |vals| == |plus| && Pixels(vals)
    ensures -Bright(vals) <= Signed(vals, plus) <= Bright(vals)
  {
    if vals != [] {
      SignedWithinBright(vals[..|vals| - 1], plus[..|vals| - 1]);
    }
  }

  lemma {:induction false} SignsAndSubtracted(vals: seq<int>, plus: seq<bool>)
    requires |vals| == |plus|
    ensures Sum(vals) - Sum(WithSigns(vals, plus)) == 2 * Sum(Subtracted(vals, plus))
  {
    if vals != [] {
      var n := |vals| - 1;
      SignsAndSubtracted(vals[..n], plus[..n]);
      SignedSumStep(vals, plus);
      assert Subtracted(vals, plus)[..n] == Subtracted(vals[..n], plus[..n]);
    }
  }

  /** Without clipping, the two accumulators differ by twice the sum of the subtracted values. */
  lemma BrightMinusSigned(vals: seq<int>, plus: seq<bool>)
    requires |vals| == |plus| && Pixels(vals) && NeverClips(vals, plus) && Sum(vals) <= 65535
    ensures Bright(vals) - Signed(vals, plus) == 2 * Sum(Subtracted(vals, plus))
  {
    BrightExact(vals);
    SignedExact(vals, plus);
    SignsAndSubtracted(vals, plus);
  }

  /** A pair of orders of the same three images, two added and one subtracted, that end at different values. */
  lemma ClippingDependsOnOrder()
    ensures Signed([32767, 32767, 32767], [true, true, false]) == 0
    ensures Signed([32767, 32767, 32767], [true, false, true]) == 32767
  {
    var v: seq<int> := [32767, 32767, 32767];
    assert v[..2] == [32767, 32767] && v[..1] == [32767] && v[..2][..1] == [32767];
    var p, q := [true, true, false], [true, false, true];
    assert p[..2] == [true, true] && p[..2][..1] == [true];
    assert q[..2] == [true, false] && q[..2][..1] == [true];
    assert [32767][..0] == [] && [true][..0] == [];
    assert Signed([32767], [true]) == 32767;
    assert Signed([32767, 32767], [true, true]) == 32767;
    assert Signed([32767, 32767], [true, false]) == 0;
  }
}
