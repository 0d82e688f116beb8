/**
 The point registry: `PtCloudFromPoints` walks a list of points in order
 and appends a point to the cloud only when it lies farther than the
 tolerance from the cloud's nearest point. The first registered point
 wins; later near-duplicates are dropped.
 */
module PointCloud {
  import opened Geometry

  /**
   One pass of the loop body of `PtCloudFromPoints`: an empty cloud first
   receives `pt`; then `pt` is appended (again) when its distance to the
   nearest cloud point exceeds the tolerance.
   */
  function Insert(cloud: seq<Point>, pt: Point, t: int): (r: seq<Point>)
    ensures cloud <= r && 0 < |r|
    ensures |r| <= |cloud| + (if |cloud| == 0 then 2 else 1)
    ensures |r| > |cloud| ==> r[|r| - 1] == pt
  {
    var seeded := if |cloud| == 0 then cloud + [pt] else cloud;
    if |seeded| > 0 && Farther(seeded[ClosestPoint(seeded, pt)], pt, t) then seeded + [pt]
    else seeded
  }

  /**
   One iteration leaves the cloud as it is, appends the current point, or,
   into an empty cloud, adds the current point twice.
   */
  lemma InsertAppendsPoint(cloud: seq<Point>, pt: Point, t: int)
    ensures var r := Insert(cloud, pt, t);
      r == cloud || r == cloud + [pt] || (cloud == [] && r == [pt, pt])
    ensures t < 0 ==> Insert(cloud, pt, t) == (if cloud == [] then [pt] else cloud) + [pt]
  {
  }

  /** The cloud `PtCloudFromPoints` returns for `points`, fed in order. */
  function Registry(points: seq<Point>, t: int): (r: seq<Point>)
    ensures |r| <= |points| + 1
    ensures |r| == 0 <==> |points| == 0
    decreases |points|
  {
    if |points| == 0 then []
    else Insert(Registry(points[..|points| - 1], t), points[|points| - 1], t)
  }

  /** The registry loop: each point in turn, kept only when no cloud point is within the tolerance. */
  method PtCloudFromPoints(points: seq<Point>, t: int) returns (cloud: seq<Point>)
    ensures cloud == Registry(points, t)
    ensures forall i, j :: 0 <= i < |cloud| && 0 <= j < |cloud| && i != j ==> Farther(cloud[i], cloud[j], t)
    ensures t >= 0 ==> |cloud| <= |points|
    ensures t >= 0 ==> forall k :: 0 <= k < |points| ==>
              |cloud| > 0 && !Farther(cloud[ClosestPoint(cloud, points[k])], points[k], t)
  {
    cloud := [];
    for n := 0 to |points|
      invariant cloud == Registry(points[..n], t)
    {
      var pt := points[n];
      if |cloud| == 0 {
        cloud := cloud + [pt];
      }
      var dis := SqDist(cloud[ClosestPoint(cloud, pt)], pt);
      if |cloud| > 0 && ExceedsTolerance(dis, t) {
        cloud := cloud + [pt];
      }
      assert points[..n + 1][..n] == points[..n];
    }
    assert points[..|points|] == points;
    RegistrySeparated(points, t);
    if t >= 0 {
      RegistryLength(points, t);
      RegistryCovers(points, t);
    }
  }

  /** Points are only ever appended: the registry of a prefix is a prefix of the registry. */
  lemma {:induction false} RegistryGrows(points: seq<Point>, n: nat, t: int)
    requires n <= |points|
    ensures Registry(points[..n], t) <= Registry(points, t)
    decreases |points| - n
  {
    if n < |points| {
      var init := points[..|points| - 1];
      assert init[..n] == points[..n];
      RegistryGrows(init, n, t);
    } else {
      assert points[..n] == points;
    }
  }

  /**
   With a non-negative tolerance the registry never holds more entries than
   there are points, and the first point is its first entry.
   */
  lemma {:induction false} RegistryLength(points: seq<Point>, t: int)
    requires t >= 0
    ensures |Registry(points, t)| <= |points|
    ensures |points| > 0 ==> Registry(points, t)[0] == points[0]
    decreases |points|
  {
    if |points| > 0 {
      var init := points[..|points| - 1];
      var pt := points[|points| - 1];
      RegistryLength(init, t);
      if |init| == 0 {
        assert SqDist(pt, pt) == 0;
        assert Registry(points, t) == [pt];
      } else {
        assert init[0] == points[0];
      }
    }
  }

  /** Every entry is farther than the tolerance from every later entry. */
  ghost predicate SeparatedInOrder(r: seq<Point>, t: int)
  {
    forall i, j :: 0 <= i < j < |r| ==> Farther(r[i], r[j], t)
  }

  /** One insertion keeps the entries separated. */
  lemma InsertKeepsSeparated(cloud: seq<Point>, pt: Point, t: int)
    requires SeparatedInOrder(cloud, t)
    ensures SeparatedInOrder(Insert(cloud, pt, t), t)
  {
    var seeded := if |cloud| == 0 then cloud + [pt] else cloud;
    var c := ClosestPoint(seeded, pt);
    if Farther(seeded[c], pt, t) {
      ClosestPointIsNearest(seeded, pt);
      forall i | 0 <= i < |seeded|
        ensures Farther(seeded[i], pt, t)
      {
        assert SqDist(seeded[i], pt) >= SqDist(seeded[c], pt);
      }
      var r := seeded + [pt];
      forall i, j | 0 <= i < j < |r|
        ensures Farther(r[i], r[j], t)
      {
        if j == |seeded| {
          assert r[j] == pt && r[i] == seeded[i];
        } else {
          assert r[i] == seeded[i] && r[j] == seeded[j];
        }
      }
    }
  }

  lemma {:induction false} RegistrySeparatedInOrder(points: seq<Point>, t: int)
    ensures SeparatedInOrder(Registry(points, t), t)
    decreases |points|
  {
    if |points| > 0 {
      var init := points[..|points| - 1];
      RegistrySeparatedInOrder(init, t);
      InsertKeepsSeparated(Registry(init, t), points[|points| - 1], t);
    }
  }

  /** Any two distinct registry entries are more than the tolerance apart. */
  lemma RegistrySeparated(points: seq<Point>, t: int)
    ensures var r := Registry(points, t);
      forall i, j :: 0 <= i < |r| && 0 <= j < |r| && i != j ==> Farther(r[i], r[j], t)
    ensures var r := Registry(points, t);
      t >= 0 ==> forall i, j :: 0 <= i < |r| && 0 <= j < |r| && i != j ==> r[i] != r[j]
  {
    var r := Registry(points, t);
    RegistrySeparatedInOrder(points, t);
    forall i, j | 0 <= i < |r| && 0 <= j < |r| && i != j
      ensures Farther(r[i], r[j], t)
      ensures t >= 0 ==> r[i] != r[j]
    {
      if j < i {
        SqDistSymmetric(r[i], r[j]);
      }
    }
  }

  /**
   With a non-negative tolerance every input point lies within the
   tolerance of its nearest registry entry.
   */
  lemma {:induction false} RegistryCovers(points: seq<Point>, t: int)
    requires t >= 0
    ensures var r := Registry(points, t);
      forall k :: 0 <= k < |points| ==> |r| > 0 && !Farther(r[ClosestPoint(r, points[k])], points[k], t)
    decreases |points|
  {
    if |points| > 0 {
      RegistryCovers(points[..|points| - 1], t);
      CoversEarlierPoints(points, t);
      CoversLastPoint(points, t);
    }
  }

  /** Appending to the registry keeps the earlier points covered. */
  lemma CoversEarlierPoints(points: seq<Point>, t: int)
    requires |points| > 0
    requires var init := points[..|points| - 1]; var r0 := Registry(init, t);
      forall k :: 0 <= k < |init| ==> |r0| > 0 && !Farther(r0[ClosestPoint(r0, init[k])], init[k], t)
    ensures var r := Registry(points, t);
      forall k :: 0 <= k < |points| - 1 ==> !Farther(r[ClosestPoint(r, points[k])], points[k], t)
  {
    var init := points[..|points| - 1];
    var r0, r := Registry(init, t), Registry(points, t);
    forall k | 0 <= k < |init|
      ensures !Farther(r[ClosestPoint(r, points[k])], points[k], t)
    {
      assert points[k] == init[k];
      ClosestInLargerCloud(r0, r, points[k]);
    }
  }

  /** With a non-negative tolerance the point just processed is covered. */
  lemma CoversLastPoint(points: seq<Point>, t: int)
    requires t >= 0 && |points| > 0
    ensures var r, pt := Registry(points, t), points[|points| - 1];
      !Farther(r[ClosestPoint(r, pt)], pt, t)
  {
    var r0, r, pt := Registry(points[..|points| - 1], t), Registry(points, t), points[|points| - 1];
    RegistryNonNegativeStep(points, t);
    if r != r0 {
      ClosestPointIsNearest(r, pt);
      assert r[|r| - 1] == pt && SqDist(pt, pt) == 0;
    }
  }

  /**
   A negative tolerance is exceeded by every distance, so every point is
   registered, and the first one twice: once by the empty-cloud branch and
   once more because its zero distance to itself exceeds the tolerance.
   */
  lemma {:induction false} RegistryNegativeTolerance(points: seq<Point>, t: int)
    requires t < 0
    ensures Registry(points, t) == if |points| == 0 then [] else [points[0]] + points
    decreases |points|
  {
    if |points| > 0 {
      RegistryNegativeStep(points, t);
      RegistryNegativeTolerance(points[..|points| - 1], t);
      SeededByFirst(points);
    }
  }

  /** `[s[0]] + s`, split after its last element. */
  lemma SeededByFirst(s: seq<Point>)
    requires |s| > 0
    ensures var init := s[..|s| - 1];
      [s[0]] + s == (if init == [] then [s[0]] else [init[0]] + init) + [s[|s| - 1]]
  {
    if |s| > 1 {
      assert s == s[..|s| - 1] + [s[|s| - 1]];
    }
  }

  /**
   With a non-negative tolerance one iteration appends the current point
   or nothing, and an empty cloud receives it exactly once.
   */
  lemma RegistryNonNegativeStep(points: seq<Point>, t: int)
    requires t >= 0 && |points| > 0
    ensures var r0, pt := Registry(points[..|points| - 1], t), points[|points| - 1];
      var r := Registry(points, t);
      (r0 == [] ==> r == [pt]) && (r == r0 || r == r0 + [pt]) &&
      (r == r0 ==> r0 != [] && !Farther(r0[ClosestPoint(r0, pt)], pt, t))
  {
    var r0, pt := Registry(points[..|points| - 1], t), points[|points| - 1];
    InsertAppendsPoint(r0, pt, t);
    if r0 == [] {
      assert SqDist(pt, pt) == 0;
    }
  }

  /** With a negative tolerance one more point is always appended, after the seed of an empty cloud. */
  lemma RegistryNegativeStep(points: seq<Point>, t: int)
    requires t < 0 && |points| > 0
    ensures var r0, pt := Registry(points[..|points| - 1], t), points[|points| - 1];
      Registry(points, t) == (if r0 == [] then [pt] else r0) + [pt]
  {
    InsertAppendsPoint(Registry(points[..|points| - 1], t), points[|points| - 1], t);
  }

  /**
   A worked example: with tolerance 1, the point (3,1,0) lies within the
   tolerance of the registered (3,0,0) and is dropped; the others are kept
   in input order.
   */
  lemma RegistryMergesNearDuplicate()
    ensures Registry([Point(0, 0, 0), Point(3, 0, 0), Point(3, 1, 0), Point(6, 0, 0)], 1)
         == [Point(0, 0, 0), Point(3, 0, 0), Point(6, 0, 0)]
  {
    var a, b, b', c := Point(0, 0, 0), Point(3, 0, 0), Point(3, 1, 0), Point(6, 0, 0);
    var pts := [a, b, b', c];
    ExampleInsertions();
    assert Registry([a], 1) == [a] by {
      assert [a][..0] == [];
    }
    assert Registry([a, b], 1) == [a, b] by {
      assert [a, b][..1] == [a];
    }
    assert Registry([a, b, b'], 1) == [a, b] by {
      assert [a, b, b'][..2] == [a, b];
    }
    assert pts[..3] == [a, b, b'];
  }

  /** The four loop iterations of the worked example, one at a time. */
  lemma ExampleInsertions()
    ensures var a, b, b', c := Point(0, 0, 0), Point(3, 0, 0), Point(3, 1, 0), Point(6, 0, 0);
      Insert([], a, 1) == [a] && Insert([a], b, 1) == [a, b] &&
      Insert([a, b], b', 1) == [a, b] && Insert([a, b], c, 1) == [a, b, c]
  {
    var a, b, b', c := Point(0, 0, 0), Point(3, 0, 0), Point(3, 1, 0), Point(6, 0, 0);
    assert [a, b][..1] == [a];
    assert ClosestPoint([a], a) == 0 && ClosestPoint([a], b) == 0;
    assert ClosestPoint([a, b], b') == 1 && ClosestPoint([a, b], c) == 1;
  }

  /** `idx` lists, in increasing order, the positions in `s` that `r` was taken from. */
  ghost predicate SubsequenceAt(r: seq<Point>, s: seq<Point>, idx: seq<nat>)
  {
    |idx| == |r| &&
    (forall k :: 0 <= k < |idx| ==> idx[k] < |s| && r[k] == s[idx[k]]) &&
    (forall k, m :: 0 <= k < m < |idx| ==> idx[k] < idx[m])
  }

  /** The input position each registry entry was taken from. */
  ghost function Origins(points: seq<Point>, t: int): (idx: seq<nat>)
    requires t >= 0
    ensures SubsequenceAt(Registry(points, t), points, idx)
    decreases |points|
  {
    if |points| == 0 then []
    else
      var prev := Origins(points[..|points| - 1], t);
      RegistryNonNegativeStep(points, t);
      SubsequenceGrows(Registry(points[..|points| - 1], t), points, prev);
      if Registry(points, t) == Registry(points[..|points| - 1], t) then prev
      else prev + [|points| - 1]
  }

  /** A subsequence of `s` without its last element stays one of `s`, and may take that element too. */
  lemma SubsequenceGrows(r: seq<Point>, s: seq<Point>, idx: seq<nat>)
    requires |s| > 0 && SubsequenceAt(r, s[..|s| - 1], idx)
    ensures SubsequenceAt(r, s, idx)
    ensures SubsequenceAt(r + [s[|s| - 1]], s, idx + [|s| - 1])
  {
    assert forall k :: 0 <= k < |idx| ==> s[idx[k]] == s[..|s| - 1][idx[k]];
  }

  /**
   With a non-negative tolerance the registry is a subsequence of the
   input: entries keep their input order and no point is taken twice.
   */
  lemma RegistryIsSubsequence(points: seq<Point>, t: int)
    requires t >= 0
    ensures exists idx :: SubsequenceAt(Registry(points, t), points, idx)
  {
    var idx := Origins(points, t);
  }
}
