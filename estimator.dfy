/**
 * The required-cache estimator of the allocator (`get_required_llc`): elbow
 * detection on a miss-rate curve by repeated ordinary-least-squares fits.
 * Occupancies and miss ratios are exact reals here, not doubles.
 */
module Estimator {
  import opened Bytes

  /** A class of service: its id and its bitmask over the cache ways. */
  datatype Clos = Clos(id: u32, mask: u64)

  /**
   * One last-level cache and its allocation capabilities. The C++ header
   * declares only id, clos_count and clos_list; num_ways and way_size are the
   * fields the allocator fills and reads.
   */
  datatype LlcCa = LlcCa(id: int, numWays: u32, waySize: u32, closCount: u32, closList: seq<Clos>)

  /** One point of a miss-rate curve: the cache occupancy and the miss ratio observed at it. */
  datatype Sample = Sample(occupancy: u64, missRatio: real)

  /** The slope (times the cache size) above which the curve counts as flat. */
  const Threshold: real := -0.05

  /** A curve as a `std::map` iterates it: occupancies strictly ascending, so no key twice. */
  predicate IsCurve(mrc: seq<Sample>)
  {
    forall i, j :: 0 <= i < j < |mrc| ==> mrc[i].occupancy < mrc[j].occupancy
  }

  predicate Increasing(x: seq<real>)
  {
    forall i, j :: 0 <= i < j < |x| ==> x[i] < x[j]
  }

  /**
   * The size of the last-level cache as the allocator computes it: number of
   * caches times the first cache's way count and way size, stored in a 32-bit
   * `unsigned`, so the product wraps modulo 2^32.
   */
  function LlcSize(llcs: seq<LlcCa>): (r: u32)
    requires |llcs| > 0
    ensures |llcs| * llcs[0].numWays * llcs[0].waySize < 0x1_0000_0000 ==>
              r == |llcs| * llcs[0].numWays * llcs[0].waySize
    ensures r as int == (|llcs| * llcs[0].numWays * llcs[0].waySize) % 0x1_0000_0000
  {
    var p := |llcs| * llcs[0].numWays * llcs[0].waySize;
    assert p >= 0 by {
      var w: nat := |llcs| * llcs[0].numWays;
      assert p == w * llcs[0].waySize;
    }
    p % 0x1_0000_0000
  }

  /** The occupancies of a curve, as the vector `x` of doubles holds them. */
  function Xs(mrc: seq<Sample>): (x: seq<real>)
    ensures |x| == |mrc|
    ensures forall i :: 0 <= i < |mrc| ==> x[i] == mrc[i].occupancy as real
  {
    seq(|mrc|, i requires 0 <= i < |mrc| => mrc[i].occupancy as real)
  }

  /** The miss ratios of a curve, as the vector `y` holds them. */
  function Ys(mrc: seq<Sample>): (y: seq<real>)
    ensures |y| == |mrc|
    ensures forall i :: 0 <= i < |mrc| ==> y[i] == mrc[i].missRatio
  {
    seq(|mrc|, i requires 0 <= i < |mrc| => mrc[i].missRatio)
  }

  function Sum(s: seq<real>): (r: real)
  {
    if s == [] then 0.0 else s[0] + Sum(s[1..])
  }

  function Mean(s: seq<real>): (r: real)
    requires |s| > 0
  {
    Sum(s) / |s| as real
  }

  /** Multiplication of reals, named so that the sign lemmas below can speak about it. */
  function Product(a: real, b: real): (r: real)
  {
    a * b
  }

  /** The sum of the products of the deviations of `x` from `mx` and of `y` from `my`. */
  function CoDeviation(x: seq<real>, y: seq<real>, mx: real, my: real): (r: real)
    requires |x| == |y|
  {
    if x == [] then 0.0 else Product(x[0] - mx, y[0] - my) + CoDeviation(x[1..], y[1..], mx, my)
  }

  /** The sum of the squared deviations of `x` from its mean (n times its variance). */
  function Spread(x: seq<real>): (r: real)
    requires |x| > 0
  {
    CoDeviation(x, x, Mean(x), Mean(x))
  }

  /**
   * The least-squares slope of the points (x[i], y[i]): covariance over
   * variance. It is positive exactly when x and y deviate from their means
   * together, and negative exactly when they deviate against each other.
   */
  function OlsSlope(x: seq<real>, y: seq<real>): (r: real)
    requires |x| == |y| > 0 && Spread(x) != 0.0
    ensures r > 0.0 <==> CoDeviation(x, y, Mean(x), Mean(y)) > 0.0
    ensures r < 0.0 <==> CoDeviation(x, y, Mean(x), Mean(y)) < 0.0
  {
    NonNegative(x, Mean(x));
    CoDeviation(x, y, Mean(x), Mean(y)) / Spread(x)
  }

  lemma PositiveProduct(d: real, e: real)
    requires d > 0.0 && e > 0.0
    ensures Product(d, e) > 0.0
  {
  }

  lemma NegateBoth(d: real, e: real)
    ensures Product(-d, -e) == Product(d, e)
  {
  }

  /** A square is never negative, and positive unless its root is zero. */
  lemma Square(d: real)
    ensures Product(d, d) >= 0.0
    ensures d != 0.0 ==> Product(d, d) > 0.0
  {
    if d > 0.0 {
      PositiveProduct(d, d);
    } else if d < 0.0 {
      PositiveProduct(-d, -d);
      NegateBoth(d, d);
    }
  }

  lemma {:induction false} NonNegative(x: seq<real>, m: real)
    ensures CoDeviation(x, x, m, m) >= 0.0
  {
    if x != [] {
      Square(x[0] - m);
      NonNegative(x[1..], m);
    }
  }

  /** One point away from `m` makes the sum of squared deviations from `m` positive. */
  lemma {:induction false} SpreadAbove(x: seq<real>, m: real, j: nat)
    requires j < |x| && x[j] != m
    ensures CoDeviation(x, x, m, m) > 0.0
  {
    Square(x[0] - m);
    if j == 0 {
      NonNegative(x[1..], m);
    } else {
      SpreadAbove(x[1..], m, j - 1);
    }
  }

  /** Two distinct occupancies are enough for a nonzero variance, so the fit never divides by zero. */
  lemma SpreadPositive(x: seq<real>)
    requires |x| >= 2 && Increasing(x)
    ensures Spread(x) > 0.0
  {
    var m := Mean(x);
    assert x[0] < x[1];
    if x[0] != m {
      SpreadAbove(x, m, 0);
    } else {
      SpreadAbove(x, m, 1);
    }
  }

  /**
   * The loop's test on the points that remain: the fitted slope times the
   * cache size exceeds the threshold. The guard on the spread never fails on
   * a curve (lemma SpreadPositive); it only keeps the division defined.
   */
  predicate Flat(x: seq<real>, y: seq<real>, size: real)
  {
    |x| == |y| >= 2 && Spread(x) > 0.0 && OlsSlope(x, y) * size > Threshold
  }

  /**
   * Index `k` is where the estimator stops: the points from `k` on pass the
   * test, or only one point is left, and every earlier suffix failed it.
   */
  predicate IsElbow(x: seq<real>, y: seq<real>, size: real, k: nat)
  {
    && k < |x| == |y|
    && (k == |x| - 1 || Flat(x[k..], y[k..], size))
    && forall j :: 0 <= j < k ==> !Flat(x[j..], y[j..], size)
  }

  /** The first suffix start at or after `from` that passes the test, or the last index. */
  function ElbowFrom(x: seq<real>, y: seq<real>, size: real, from: nat): (k: nat)
    requires |x| == |y| && from < |x|
    ensures from <= k < |x|
    ensures k == |x| - 1 || Flat(x[k..], y[k..], size)
    ensures forall j :: from <= j < k ==> !Flat(x[j..], y[j..], size)
    decreases |x| - from
  {
    if from == |x| - 1 || Flat(x[from..], y[from..], size) then from
    else ElbowFrom(x, y, size, from + 1)
  }

  /** Where the estimator stops on `mrc` for a cache of `size` bytes. */
  function ElbowIndex(mrc: seq<Sample>, size: real): (k: nat)
    requires |mrc| > 0 && IsCurve(mrc)
    ensures IsElbow(Xs(mrc), Ys(mrc), size, k)
    ensures |mrc| == 1 ==> k == 0
    ensures forall j :: 0 <= j < k ==> mrc[j].occupancy < mrc[k].occupancy
    ensures forall i :: k <= i < |mrc| ==> mrc[k].occupancy <= mrc[i].occupancy
  {
    ElbowFrom(Xs(mrc), Ys(mrc), size, 0)
  }

  /** At most one index is an elbow: the stopping point is determined by the curve and the size. */
  lemma ElbowUnique(x: seq<real>, y: seq<real>, size: real, k1: nat, k2: nat)
    requires IsElbow(x, y, size, k1) && IsElbow(x, y, size, k2)
    ensures k1 == k2
  {
  }

  /** A stop after `drops` failed tests is the elbow: the loop's exit condition pins down ElbowIndex. */
  lemma ElbowAt(mrc: seq<Sample>, size: real, drops: nat)
    requires |mrc| > 0 && IsCurve(mrc) && drops < |mrc|
    requires drops == |mrc| - 1 || Flat(Xs(mrc)[drops..], Ys(mrc)[drops..], size)
    requires forall j :: 0 <= j < drops ==> !Flat(Xs(mrc)[j..], Ys(mrc)[j..], size)
    ensures IsElbow(Xs(mrc), Ys(mrc), size, drops)
    ensures drops == ElbowIndex(mrc, size)
  {
    ElbowUnique(Xs(mrc), Ys(mrc), size, drops, ElbowIndex(mrc, size));
  }

  /** The suffixes of a curve's occupancies are increasing. */
  lemma CurveSuffix(mrc: seq<Sample>, d: nat)
    requires IsCurve(mrc) && d <= |mrc|
    ensures Increasing(Xs(mrc)[d..])
  {
  }

  /** The first loop of `get_required_llc`: push each point of the map, in key order, onto `x` and `y`. */
  method CopyCurve(mrc: seq<Sample>) returns (x: seq<real>, y: seq<real>)
    ensures x == Xs(mrc) && y == Ys(mrc)
  {
    x, y := [], [];
    for i := 0 to |mrc|
      invariant x == Xs(mrc)[..i] && y == Ys(mrc)[..i]
    {
      x := x + [mrc[i].occupancy as real];
      y := y + [mrc[i].missRatio];
    }
  }

  /**
   * `get_required_llc`: copy the curve into `x` and `y`, then fit, test and
   * drop the first point until the test passes or one point is left.
   * Requires a non-empty curve and a non-empty cache list, as the source
   * reads `llcs[0]` and `x[0]` unconditionally.
   */
  method GetRequiredLlc(mrc: seq<Sample>, llcs: seq<LlcCa>) returns (r: u64, ghost drops: nat)
    requires |mrc| > 0 && |llcs| > 0 && IsCurve(mrc)
    ensures exists k :: 0 <= k < |mrc| && r == mrc[k].occupancy
    ensures IsElbow(Xs(mrc), Ys(mrc), LlcSize(llcs) as real, drops)
    ensures r == mrc[drops].occupancy
    ensures r == mrc[ElbowIndex(mrc, LlcSize(llcs) as real)].occupancy
  {
    var size := LlcSize(llcs);
    var x, y := CopyCurve(mrc);

    ghost var X, Y := Xs(mrc), Ys(mrc);
    drops := 0;
    while |x| > 1
      invariant drops < |X| && x == X[drops..] && y == Y[drops..]
      invariant forall j :: 0 <= j < drops ==> !Flat(X[j..], Y[j..], size as real)
      decreases |x|
    {
      CurveSuffix(mrc, drops);
      var flat := Test(x, y, size as real);
      if flat {
        break;
      }
      x := x[1..];
      y := y[1..];
      drops := drops + 1;
    }
    assert x[0] == mrc[drops].occupancy as real;
    r := x[0].Floor as u64;
    ElbowAt(mrc, size as real, drops);
  }

  /** One test of the loop: fit a line to the points left and compare its slope times the cache size with the threshold. */
  method Test(x: seq<real>, y: seq<real>, size: real) returns (flat: bool)
    requires |x| == |y| >= 2 && Increasing(x)
    ensures flat == Flat(x, y, size)
  {
    SpreadPositive(x);
    var slope := OlsSlope(x, y);
    flat := slope * size > Threshold;
  }
}
