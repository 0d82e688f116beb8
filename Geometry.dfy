/**
 The geometric vocabulary of the line topologizer: points, lines, the
 tolerance comparison `distance > T` and the nearest-point lookup of a
 point cloud.

 Coordinates are integers (a fixed unit such as a micrometre) and the
 tolerance is an integer in the same unit, so that `distance > T` can be
 decided exactly on squared distances without a square root.
 */
module Geometry {

  datatype Point = Point(x: int, y: int, z: int)

  /** A straight segment, as the host supplies it: `From` and `To` endpoints. */
  datatype Line = Line(from: Point, to: Point)

  /** Squared Euclidean distance. */
  function SqDist(p: Point, q: Point): (d: int)
    ensures d >= 0
    ensures d == 0 <==> p == q
  {
    var dx, dy, dz := p.x - q.x, p.y - q.y, p.z - q.z;
    SquareNonNegative(dx);
    SquareNonNegative(dy);
    SquareNonNegative(dz);
    dx * dx + dy * dy + dz * dz
  }

  lemma SquareNonNegative(a: int)
    ensures a * a >= 0
    ensures a * a == 0 <==> a == 0
  {
    if a < 0 {
      assert a * a == (-a) * (-a);
    }
  }

  lemma SqDistSymmetric(p: Point, q: Point)
    ensures SqDist(p, q) == SqDist(q, p)
  {
    assert (p.x - q.x) * (p.x - q.x) == (q.x - p.x) * (q.x - p.x);
    assert (p.y - q.y) * (p.y - q.y) == (q.y - p.y) * (q.y - p.y);
    assert (p.z - q.z) * (p.z - q.z) == (q.z - p.z) * (q.z - p.z);
  }

  /**
   The comparison `Dis > T`, given the square of the distance `Dis`.
   A negative tolerance is exceeded by every distance, zero included.
   */
  function ExceedsTolerance(sqDist: int, t: int): (b: bool)
    ensures sqDist == 0 ==> (b <==> t < 0)
  {
    t < 0 || sqDist > t * t
  }

  /**
   `p` and `q` are more than the tolerance `t` apart. A point is farther
   than `t` from itself exactly when `t` is negative.
   */
  function Farther(p: Point, q: Point, t: int): (b: bool)
    ensures p == q ==> (b <==> t < 0)
  {
    ExceedsTolerance(SqDist(p, q), t)
  }

  lemma PositiveProduct(a: real, b: real)
    requires a > 0.0 && b > 0.0
    ensures a * b > 0.0
  {
  }

  lemma NonNegativeProduct(a: real, b: real)
    requires a >= 0.0 && b >= 0.0
    ensures a * b >= 0.0
  {
  }

  /**
   Deciding `Dis > T` on squares agrees with deciding it on the distance
   itself: for every non-negative real `dis` whose square is `sq`, and for
   every tolerance.
   */
  lemma ExceedsToleranceIsDistanceAbove(sq: nat, dis: real, t: int)
    requires dis >= 0.0 && dis * dis == sq as real
    ensures ExceedsTolerance(sq, t) <==> dis > t as real
  {
    if t >= 0 {
      var tr := t as real;
      assert (t * t) as real == tr * tr;
      assert dis * dis - tr * tr == (dis - tr) * (dis + tr);
      if dis > tr {
        PositiveProduct(dis - tr, dis + tr);
      } else {
        NonNegativeProduct(tr - dis, tr + dis);
        assert tr * tr - dis * dis == (tr - dis) * (tr + dis);
      }
    }
  }

  /**
   The nearest-point lookup of a point cloud: the index of a cloud point
   at minimum distance from `p`. Ties go to the lowest index.
   */
  function ClosestPoint(cloud: seq<Point>, p: Point): (k: nat)
    requires |cloud| > 0
    ensures k < |cloud|
    decreases |cloud|
  {
    if |cloud| == 1 then 0
    else
      var k := ClosestPoint(cloud[..|cloud| - 1], p);
      if SqDist(cloud[|cloud| - 1], p) < SqDist(cloud[k], p) then |cloud| - 1 else k
  }

  /**
   `ClosestPoint` finds a point at minimum distance, and the first such
   point. (Only the first property is relied upon elsewhere.)
   */
  lemma {:induction false} ClosestPointIsNearest(cloud: seq<Point>, p: Point)
    requires |cloud| > 0
    ensures var k := ClosestPoint(cloud, p);
      forall j :: 0 <= j < |cloud| ==> SqDist(cloud[k], p) <= SqDist(cloud[j], p)
    ensures var k := ClosestPoint(cloud, p);
      forall j :: 0 <= j < k ==> SqDist(cloud[k], p) < SqDist(cloud[j], p)
    decreases |cloud|
  {
    if |cloud| > 1 {
      var init := cloud[..|cloud| - 1];
      ClosestPointIsNearest(init, p);
      assert forall j :: 0 <= j < |init| ==> init[j] == cloud[j];
    }
  }

  /**
   Growing a cloud at its end never moves its nearest point farther away:
   the nearest distance in the larger cloud is at most that in the prefix.
   */
  lemma ClosestInLargerCloud(small: seq<Point>, large: seq<Point>, p: Point)
    requires 0 < |small| && small <= large
    ensures SqDist(large[ClosestPoint(large, p)], p) <= SqDist(small[ClosestPoint(small, p)], p)
  {
    var k := ClosestPoint(small, p);
    assert large[k] == small[k];
    ClosestPointIsNearest(large, p);
  }
}
