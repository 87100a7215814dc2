/**
 * The weighted centroid of a brain area (`xyz_weighted_centroid`): the
 * projection-metric-weighted mean of the experiments' peak-voxel
 * coordinates, each coordinate truncated toward zero as Python's `int()`
 * does, together with the mean weight.
 */
module Centroids {

  /** One experiment's contribution `[x, y, z, w]`. */
  datatype Sample = Sample(x: int, y: int, z: int, w: real)

  /** `[x, y, z, avg_projection]`. */
  datatype Centroid = Centroid(x: int, y: int, z: int, avgWeight: real)

  datatype Axis = X | Y | Z

  function Coord(s: Sample, a: Axis): int
  {
    match a
    case X => s.x
    case Y => s.y
    case Z => s.z
  }

  function CentroidCoord(c: Centroid, a: Axis): int
  {
    match a
    case X => c.x
    case Y => c.y
    case Z => c.z
  }

  /** `sum(exp[3] for exp in coordinates)`. */
  function SumW(s: seq<Sample>): real
    decreases |s|
  {
    if s == [] then 0.0 else SumW(s[..|s| - 1]) + s[|s| - 1].w
  }

  /** `sum(exp[a] * exp[3] for exp in coordinates)`. */
  function SumCW(s: seq<Sample>, a: Axis): real
    decreases |s|
  {
    if s == [] then 0.0
    else SumCW(s[..|s| - 1], a) + (Coord(s[|s| - 1], a) as real) * s[|s| - 1].w
  }

  /** Python `int()` on a float: the integer part, rounding toward zero. */
  function Trunc(r: real): (t: int)
    ensures r >= 0.0 ==> 0 <= t && t as real <= r < t as real + 1.0
    ensures r < 0.0 ==> t <= 0 && t as real - 1.0 < r <= t as real
  {
    if r >= 0.0 then r.Floor else -((-r).Floor)
  }

  /** The centroid of a non-empty sample list whose weights do not sum to
      zero (a zero sum makes the source divide by zero). */
  function WeightedCentroid(s: seq<Sample>): Centroid
    requires |s| > 0 && SumW(s) != 0.0
  {
    var denom := SumW(s);
    Centroid(Trunc(SumCW(s, X) / denom), Trunc(SumCW(s, Y) / denom), Trunc(SumCW(s, Z) / denom),
             denom / (|s| as real))
  }

  // ---------------------------------------------------------------------
  // Properties

  /** Every sample weighs more than zero. */
  ghost predicate PositiveWeights(s: seq<Sample>)
  {
    forall i :: 0 <= i < |s| ==> s[i].w > 0.0
  }

  /** Every sample's coordinate on `a` lies in `[lo, hi]`. */
  ghost predicate CoordsWithin(s: seq<Sample>, a: Axis, lo: int, hi: int)
  {
    forall i :: 0 <= i < |s| ==> lo <= Coord(s[i], a) <= hi
  }

  lemma {:induction false} SumWPositive(s: seq<Sample>)
    requires |s| > 0 && PositiveWeights(s)
    ensures SumW(s) > 0.0
    decreases |s|
  {
    if |s| > 1 {
      SumWPositive(s[..|s| - 1]);
    }
  }

  lemma ScaleMonotone(a: real, b: real, w: real)
    requires a <= b && w > 0.0
    ensures a * w <= b * w
  {
    assert b * w - a * w == (b - a) * w;
  }

  /** With positive weights, the weighted sum is at least the smallest
      coordinate times the total weight ... */
  lemma {:induction false} SumCWLower(s: seq<Sample>, a: Axis, lo: int, hi: int)
    requires PositiveWeights(s) && CoordsWithin(s, a, lo, hi)
    ensures (lo as real) * SumW(s) <= SumCW(s, a)
    decreases |s|
  {
    if s != [] {
      var s' := Prefix(s, a, lo, hi);
      SumCWLower(s', a, lo, hi);
      var c, w := Unfold(s, a);
      LowerStep(lo as real, SumW(s'), SumCW(s', a), c, w, SumW(s), SumCW(s, a));
    }
  }

  /** ... and at most the largest coordinate times the total weight. */
  lemma {:induction false} SumCWUpper(s: seq<Sample>, a: Axis, lo: int, hi: int)
    requires PositiveWeights(s) && CoordsWithin(s, a, lo, hi)
    ensures SumCW(s, a) <= (hi as real) * SumW(s)
    decreases |s|
  {
    if s != [] {
      var s' := Prefix(s, a, lo, hi);
      SumCWUpper(s', a, lo, hi);
      var c, w := Unfold(s, a);
      UpperStep(hi as real, SumW(s'), SumCW(s', a), c, w, SumW(s), SumCW(s, a));
    }
  }

  /** Dropping the last sample keeps both bounds, and the last sample meets them. */
  lemma Prefix(s: seq<Sample>, a: Axis, lo: int, hi: int) returns (s': seq<Sample>)
    requires s != [] && PositiveWeights(s) && CoordsWithin(s, a, lo, hi)
    ensures s' == s[..|s| - 1]
    ensures PositiveWeights(s') && CoordsWithin(s', a, lo, hi)
    ensures s[|s| - 1].w > 0.0 && lo <= Coord(s[|s| - 1], a) <= hi
  {
    s' := s[..|s| - 1];
    assert forall i :: 0 <= i < |s'| ==> s'[i] == s[i];
  }

  /** The last sample's coordinate and weight, and how both sums split off it. */
  lemma Unfold(s: seq<Sample>, a: Axis) returns (c: real, w: real)
    requires s != []
    ensures c == Coord(s[|s| - 1], a) as real && w == s[|s| - 1].w
    ensures SumW(s) == SumW(s[..|s| - 1]) + w
    ensures SumCW(s, a) == SumCW(s[..|s| - 1], a) + c * w
  {
    c, w := Coord(s[|s| - 1], a) as real, s[|s| - 1].w;
  }

  /** One induction step of the lower bound, on the sums as plain numbers:
      `sum` and `sumCW` are the sums after adding a sample `c` weighing `w`. */
  lemma LowerStep(lo: real, sw: real, scw: real, c: real, w: real, sum: real, sumCW: real)
    requires lo * sw <= scw && lo <= c && w > 0.0
    requires sum == sw + w && sumCW == scw + c * w
    ensures lo * sum <= sumCW
  {
    ScaleMonotone(lo, c, w);
    Distribute(lo, sw, w);
  }

  /** One induction step of the upper bound. */
  lemma UpperStep(hi: real, sw: real, scw: real, c: real, w: real, sum: real, sumCW: real)
    requires scw <= hi * sw && c <= hi && w > 0.0
    requires sum == sw + w && sumCW == scw + c * w
    ensures sumCW <= hi * sum
  {
    ScaleMonotone(c, hi, w);
    Distribute(hi, sw, w);
  }

  lemma Distribute(k: real, a: real, b: real)
    ensures k * (a + b) == k * a + k * b
  {
  }

  lemma MeanBounds(num: real, den: real, lo: real, hi: real)
    requires den > 0.0 && lo * den <= num <= hi * den
    ensures lo <= num / den <= hi
  {
    var q := num / den;
    assert q * den == num;
    if q < lo {
      ScaleMonotone(q, lo, den);
      assert false;
    }
    if q > hi {
      ScaleMonotone(hi, q, den);
      assert false;
    }
  }

  lemma TruncBounds(r: real, lo: int, hi: int)
    requires lo as real <= r <= hi as real
    ensures lo <= Trunc(r) <= hi
  {
  }

  /** With positive weights, each centroid coordinate lies between the
      smallest and the largest sample coordinate on that axis. */
  lemma CentroidWithinBounds(s: seq<Sample>, a: Axis, lo: int, hi: int)
    requires |s| > 0
    requires forall i :: 0 <= i < |s| ==> s[i].w > 0.0 && lo <= Coord(s[i], a) <= hi
    ensures SumW(s) > 0.0
    ensures lo <= CentroidCoord(WeightedCentroid(s), a) <= hi
  {
    assert PositiveWeights(s) && CoordsWithin(s, a, lo, hi);
    MeanCoordWithin(s, a, lo, hi);
    CentroidAxis(s, a);
  }

  lemma MeanCoordWithin(s: seq<Sample>, a: Axis, lo: int, hi: int)
    requires |s| > 0 && PositiveWeights(s) && CoordsWithin(s, a, lo, hi)
    ensures SumW(s) > 0.0
    ensures lo <= Trunc(SumCW(s, a) / SumW(s)) <= hi
  {
    SumWPositive(s);
    SumCWLower(s, a, lo, hi);
    SumCWUpper(s, a, lo, hi);
    TruncMeanWithin(SumCW(s, a), SumW(s), lo, hi);
  }

  lemma TruncMeanWithin(num: real, den: real, lo: int, hi: int)
    requires den > 0.0 && (lo as real) * den <= num <= (hi as real) * den
    ensures lo <= Trunc(num / den) <= hi
  {
    MeanBounds(num, den, lo as real, hi as real);
    TruncBounds(num / den, lo, hi);
  }

  lemma TruncOfInt(n: int)
    ensures Trunc(n as real) == n
  {
  }

  /** One axis of `WeightedCentroid`, unfolded as a proof step for the
      bounds lemmas. */
  lemma CentroidAxis(s: seq<Sample>, a: Axis)
    requires |s| > 0 && SumW(s) != 0.0
    ensures CentroidCoord(WeightedCentroid(s), a) == Trunc(SumCW(s, a) / SumW(s))
  {
  }

  lemma OneAxis(p: Sample, a: Axis)
    requires p.w != 0.0
    ensures SumW([p]) == p.w
    ensures Trunc(SumCW([p], a) / SumW([p])) == Coord(p, a)
  {
    var s := [p];
    assert s[..0] == [];
    var c := Coord(p, a);
    assert SumCW(s, a) == (c as real) * p.w;
    assert SumW(s) == p.w;
    CancelWeight(c as real, p.w);
    assert SumCW(s, a) / SumW(s) == c as real;
    TruncOfInt(c);
  }

  lemma CancelWeight(x: real, w: real)
    requires w != 0.0
    ensures (x * w) / w == x
  {
  }

  /** The mean weight lies between the smallest and the largest weight. */
  lemma {:induction false} SumWBounds(s: seq<Sample>, lo: real, hi: real)
    requires forall i :: 0 <= i < |s| ==> lo <= s[i].w <= hi
    ensures lo * (|s| as real) <= SumW(s) <= hi * (|s| as real)
    decreases |s|
  {
    if s != [] {
      SumWBounds(s[..|s| - 1], lo, hi);
    }
  }

  lemma AverageWeightWithinBounds(s: seq<Sample>, lo: real, hi: real)
    requires |s| > 0 && SumW(s) != 0.0
    requires forall i :: 0 <= i < |s| ==> lo <= s[i].w <= hi
    ensures lo <= WeightedCentroid(s).avgWeight <= hi
  {
    SumWBounds(s, lo, hi);
    MeanBounds(SumW(s), |s| as real, lo, hi);
  }

  /** A single sample is its own centroid. */
  lemma CentroidOfOne(p: Sample)
    requires p.w != 0.0
    ensures SumW([p]) == p.w
    ensures WeightedCentroid([p]) == Centroid(p.x, p.y, p.z, p.w)
  {
    var s := [p];
    OneAxis(p, X);
    OneAxis(p, Y);
    OneAxis(p, Z);
    CentroidAxis(s, X);
    CentroidAxis(s, Y);
    CentroidAxis(s, Z);
  }

  /** Samples (0,0,0) weighing 1 and (10,0,0) weighing 3: x = int(30 / 4) = 7
      and the mean weight is 4 / 2. */
  lemma CentroidExample()
    ensures SumW([Sample(0, 0, 0, 1.0), Sample(10, 0, 0, 3.0)]) == 4.0
    ensures WeightedCentroid([Sample(0, 0, 0, 1.0), Sample(10, 0, 0, 3.0)]) == Centroid(7, 0, 0, 2.0)
  {
    var s := [Sample(0, 0, 0, 1.0), Sample(10, 0, 0, 3.0)];
    assert s[..1] == [Sample(0, 0, 0, 1.0)];
    assert s[..1][..0] == [];
    assert SumCW(s, X) == 30.0;
    assert SumCW(s, Y) == 0.0;
    assert SumCW(s, Z) == 0.0;
  }

  /** Truncation is toward zero, not down: a mean of -2.5 gives -2. */
  lemma TruncTowardZero()
    ensures Trunc(7.5) == 7 && Trunc(-2.5) == -2 && Trunc(-3.0) == -3
  {
  }
}
