/**
 The line topologizer: from a list of lines and a tolerance it builds the
 ordered list of points (P), the endpoint indices of every line (LP), and
 for every point the points (PP) and the lines (PL) connected to it.

 No member reads globals: the registry methods take the lines and the
 tolerance, and the tables take the line pairs LP and the number of
 points. `Topologize` computes the registry and LP once and derives every
 table from them.
 */
module LineTopologizer {
  import opened Geometry
  import opened PointCloud
  import opened Adjacency

  /** The endpoints of the lines, `From` then `To` of each line, in line order. */
  function Endpoints(lines: seq<Line>): (pts: seq<Point>)
    ensures |pts| == 2 * |lines|
    decreases |lines|
  {
    if |lines| == 0 then []
    else
      var line := lines[|lines| - 1];
      Endpoints(lines[..|lines| - 1]) + [line.from, line.to]
  }

  lemma {:induction false} EndpointsAt(lines: seq<Line>)
    ensures forall k :: 0 <= k < |lines| ==>
      Endpoints(lines)[2 * k] == lines[k].from && Endpoints(lines)[2 * k + 1] == lines[k].to
    decreases |lines|
  {
    if |lines| > 0 {
      var init := lines[..|lines| - 1];
      EndpointsAt(init);
      forall k | 0 <= k < |init|
        ensures Endpoints(lines)[2 * k] == lines[k].from && Endpoints(lines)[2 * k + 1] == lines[k].to
      {
        assert lines[k] == init[k];
      }
    }
  }

  /** The registry of the endpoints: the output P. */
  function OrderedPoints(lines: seq<Line>, t: int): (pts: seq<Point>)
    ensures |pts| == 0 <==> |lines| == 0
    ensures |pts| <= 2 * |lines| + 1
  {
    Registry(Endpoints(lines), t)
  }

  /** Each line resolved to the cloud points nearest to its endpoints. */
  function Resolve(lines: seq<Line>, cloud: seq<Point>): (lp: seq<IndexPair>)
    requires |lines| > 0 ==> |cloud| > 0
    ensures |lp| == |lines| && InRange(lp, |cloud|)
  {
    seq(|lines|, k requires 0 <= k < |lines| =>
      IndexPair(ClosestPoint(cloud, lines[k].from), ClosestPoint(cloud, lines[k].to)))
  }

  /** The output LP. */
  function LinePairs(lines: seq<Line>, t: int): (lp: seq<IndexPair>)
    ensures |lp| == |lines| && InRange(lp, |OrderedPoints(lines, t)|)
  {
    Resolve(lines, OrderedPoints(lines, t))
  }

  /**
   A worked example: two lines whose shared corner is drawn with an offset
   of 1, joined at tolerance 1. The corner is registered once and both
   lines resolve to it.
   */
  lemma TwoLinesShareACorner()
    ensures var lines := [Line(Point(0, 0, 0), Point(3, 0, 0)), Line(Point(3, 1, 0), Point(6, 0, 0))];
      OrderedPoints(lines, 1) == [Point(0, 0, 0), Point(3, 0, 0), Point(6, 0, 0)] &&
      LinePairs(lines, 1) == [IndexPair(0, 1), IndexPair(1, 2)]
  {
    var a, b, b', c := Point(0, 0, 0), Point(3, 0, 0), Point(3, 1, 0), Point(6, 0, 0);
    var lines := [Line(a, b), Line(b', c)];
    assert Endpoints(lines) == [a, b, b', c] by {
      assert lines[..1] == [Line(a, b)];
      assert [Line(a, b)][..0] == [];
    }
    RegistryMergesNearDuplicate();
    CornerResolved();
  }

  /** The nearest-point lookups of the worked example. */
  lemma CornerResolved()
    ensures var a, b, b', c := Point(0, 0, 0), Point(3, 0, 0), Point(3, 1, 0), Point(6, 0, 0);
      Resolve([Line(a, b), Line(b', c)], [a, b, c]) == [IndexPair(0, 1), IndexPair(1, 2)]
  {
    var a, b, b', c := Point(0, 0, 0), Point(3, 0, 0), Point(3, 1, 0), Point(6, 0, 0);
    var pts := [a, b, c];
    assert [a, b] == pts[..2] && [a] == [a, b][..1];
    assert ClosestPoint([a, b], a) == 0 && ClosestPoint(pts, a) == 0;
    assert ClosestPoint([a, b], b) == 1 && ClosestPoint(pts, b) == 1;
    assert ClosestPoint([a, b], b') == 1 && ClosestPoint(pts, b') == 1;
    assert ClosestPoint(pts, c) == 2;
  }

  /** In the worked example the corner has both lines and both far ends as neighbours. */
  lemma CornerNeighbours()
    ensures Neighbours([IndexPair(0, 1), IndexPair(1, 2)], 1) == [0, 2]
    ensures IncidentLines([IndexPair(0, 1), IndexPair(1, 2)], 1) == [0, 1]
  {
  }

  /** `k` indexes a cloud point at minimum distance from `p`. */
  ghost predicate IsNearest(cloud: seq<Point>, p: Point, k: nat)
  {
    k < |cloud| && forall j :: 0 <= j < |cloud| ==> SqDist(cloud[k], p) <= SqDist(cloud[j], p)
  }

  /**
   The ordered list of points: the endpoints, `From` then `To` of each
   line, fed to the registry loop.
   */
  method OrderedListOfPoints(lines: seq<Line>, t: int) returns (pts: seq<Point>)
    ensures pts == OrderedPoints(lines, t)
    ensures |pts| == 0 <==> |lines| == 0
    ensures |pts| <= 2 * |lines| + 1
    ensures t >= 0 ==> |pts| <= 2 * |lines|
    ensures forall i, j :: 0 <= i < |pts| && 0 <= j < |pts| && i != j ==> Farther(pts[i], pts[j], t)
    ensures t >= 0 ==> forall k :: 0 <= k < |lines| ==>
              !Farther(pts[ClosestPoint(pts, lines[k].from)], lines[k].from, t) &&
              !Farther(pts[ClosestPoint(pts, lines[k].to)], lines[k].to, t)
  {
    var polyPts: seq<Point> := [];
    for n := 0 to |lines|
      invariant polyPts == Endpoints(lines[..n])
    {
      polyPts := polyPts + [lines[n].from];
      polyPts := polyPts + [lines[n].to];
      assert lines[..n + 1][..n] == lines[..n];
    }
    assert lines[..|lines|] == lines;
    pts := PtCloudFromPoints(polyPts, t);
    if t >= 0 {
      EndpointsAt(lines);
      forall k | 0 <= k < |lines|
        ensures !Farther(pts[ClosestPoint(pts, lines[k].from)], lines[k].from, t)
        ensures !Farther(pts[ClosestPoint(pts, lines[k].to)], lines[k].to, t)
      {
        assert polyPts[2 * k] == lines[k].from && polyPts[2 * k + 1] == lines[k].to;
      }
    }
  }

  /** The loop of `LineToPoints_Structure` over an already computed registry. */
  method ResolveLines(lines: seq<Line>, pts: seq<Point>) returns (lp: seq<IndexPair>)
    requires |lines| > 0 ==> |pts| > 0
    ensures lp == Resolve(lines, pts)
    ensures |lp| == |lines| && InRange(lp, |pts|)
    ensures forall k :: 0 <= k < |lines| ==>
              IsNearest(pts, lines[k].from, lp[k].start) && IsNearest(pts, lines[k].to, lp[k].end)
  {
    lp := [];
    for n := 0 to |lines|
      invariant |lp| == n
      invariant forall k :: 0 <= k < n ==>
        lp[k] == IndexPair(ClosestPoint(pts, lines[k].from), ClosestPoint(pts, lines[k].to))
    {
      var indexStart := ClosestPoint(pts, lines[n].from);
      var indexEnd := ClosestPoint(pts, lines[n].to);
      lp := lp + [IndexPair(indexStart, indexEnd)];
    }
    forall k | 0 <= k < |lines|
      ensures IsNearest(pts, lines[k].from, lp[k].start) && IsNearest(pts, lines[k].to, lp[k].end)
    {
      ClosestPointIsNearest(pts, lines[k].from);
      ClosestPointIsNearest(pts, lines[k].to);
    }
  }

  /**
   For each line, the indices of the registry points nearest to its two
   endpoints. With a non-negative tolerance each of them lies within the
   tolerance of the endpoint it stands for.
   */
  method LineToPointsStructure(lines: seq<Line>, t: int) returns (lp: seq<IndexPair>)
    ensures lp == LinePairs(lines, t)
    ensures |lp| == |lines| && InRange(lp, |OrderedPoints(lines, t)|)
    ensures forall k :: 0 <= k < |lines| ==>
              IsNearest(OrderedPoints(lines, t), lines[k].from, lp[k].start) &&
              IsNearest(OrderedPoints(lines, t), lines[k].to, lp[k].end)
    ensures t >= 0 ==> forall k :: 0 <= k < |lines| ==>
              !Farther(OrderedPoints(lines, t)[lp[k].start], lines[k].from, t) &&
              !Farther(OrderedPoints(lines, t)[lp[k].end], lines[k].to, t)
  {
    var pts := OrderedListOfPoints(lines, t);
    lp := ResolveLines(lines, pts);
  }

  /** The scan shared by both tables: the lines whose index pair contains `i`. */
  method IncidentLinesOf(lp: seq<IndexPair>, i: nat) returns (coTuples: seq<nat>)
    ensures coTuples == IncidentLines(lp, i)
    ensures forall k :: k in coTuples <==> 0 <= k < |lp| && lp[k].Contains(i)
    ensures forall m, m' :: 0 <= m < m' < |coTuples| ==> coTuples[m] < coTuples[m']
  {
    coTuples := [];
    for j := 0 to |lp|
      invariant coTuples == IncidentLines(lp[..j], i)
    {
      if lp[j].Contains(i) {
        coTuples := coTuples + [j];
      }
      assert lp[..j + 1][..j] == lp[..j];
    }
    assert lp[..|lp|] == lp;
    IncidentLinesExact(lp, i);
  }

  /** For each pair containing `i`, its endpoints that are not `i`, in order. */
  method OtherEndpoints(coTupleIndices: seq<IndexPair>, i: nat) returns (coPointsIndices: seq<nat>)
    ensures coPointsIndices == OthersOf(coTupleIndices, i)
  {
    coPointsIndices := [];
    for m := 0 to |coTupleIndices|
      invariant coPointsIndices == OthersOf(coTupleIndices[..m], i)
    {
      var cPts := coTupleIndices[m];
      ghost var before := coPointsIndices;
      if cPts.start != i {
        coPointsIndices := coPointsIndices + [cPts.start];
      }
      if cPts.end != i {
        coPointsIndices := coPointsIndices + [cPts.end];
      }
      assert coPointsIndices == before + Others(cPts, i);
      assert coTupleIndices[..m + 1][..m] == coTupleIndices[..m];
    }
    assert coTupleIndices[..|coTupleIndices|] == coTupleIndices;
  }

  /** The neighbour list of one point: the body of the outer loop of `PointToPoints_Structure`. */
  method NeighboursOf(lp: seq<IndexPair>, i: nat) returns (coPointsIndices: seq<nat>)
    ensures coPointsIndices == Neighbours(lp, i)
  {
    var coTuples := IncidentLinesOf(lp, i);
    var coTupleIndices: seq<IndexPair> := [];
    for m := 0 to |coTuples|
      invariant coTupleIndices == Select(lp, coTuples[..m])
    {
      coTupleIndices := coTupleIndices + [lp[coTuples[m]]];
      assert coTuples[..m + 1][..m] == coTuples[..m];
    }
    assert coTuples[..|coTuples|] == coTuples;
    coPointsIndices := OtherEndpoints(coTupleIndices, i);
    NeighboursOfIncidentPairs(lp, i);
  }

  /**
   For each of the `n` points, the other endpoints of the lines through it:
   a line joining the point to `j` adds `j` once, a self-loop adds nothing.
   */
  method PointToPointsStructure(lp: seq<IndexPair>, n: nat) returns (pp: seq<seq<nat>>)
    ensures |pp| == n
    ensures forall i :: 0 <= i < n ==> pp[i] == Neighbours(lp, i)
    ensures forall i :: 0 <= i < n ==> i !in pp[i]
    ensures forall i, j :: 0 <= i < n && 0 <= j < n && i != j ==> multiset(pp[i])[j] == EdgeCount(lp, i, j)
    ensures forall i, j :: 0 <= i < n && 0 <= j < n ==> multiset(pp[i])[j] == multiset(pp[j])[i]
    ensures InRange(lp, n) ==> forall i, v :: 0 <= i < n && v in pp[i] ==> v < n
    ensures InRange(lp, n) ==> SumLengths(pp) == 2 * (|lp| - SelfLoops(lp))
  {
    pp := [];
    for i := 0 to n
      invariant |pp| == i
      invariant forall r :: 0 <= r < i ==> pp[r] == Neighbours(lp, r)
    {
      var coPointsIndices := NeighboursOf(lp, i);
      pp := pp + [coPointsIndices];
    }
    forall i | 0 <= i < n
      ensures i !in pp[i]
    {
      NotOwnNeighbour(lp, i);
    }
    forall i, j | 0 <= i < n && 0 <= j < n
      ensures i != j ==> multiset(pp[i])[j] == EdgeCount(lp, i, j)
      ensures multiset(pp[i])[j] == multiset(pp[j])[i]
    {
      if i != j {
        NeighbourMultiplicity(lp, i, j);
      }
      NeighboursSymmetric(lp, i, j);
    }
    if InRange(lp, n) {
      forall i | 0 <= i < n
        ensures forall v :: v in pp[i] ==> v < n
      {
        NeighboursInRange(lp, n, i);
      }
      SumLengthsOfNeighbourTable(pp, lp);
      HandshakeTotals(lp, n);
    }
  }

  /**
   For each of the `n` points, the lines whose index pair contains it, in
   ascending line order, a self-loop listed once.
   */
  method PointToLinesStructure(lines: seq<Line>, lp: seq<IndexPair>, n: nat) returns (pl: seq<seq<Line>>)
    requires |lp| == |lines|
    ensures |pl| == n
    ensures forall i :: 0 <= i < n ==> |pl[i]| == |IncidentLines(lp, i)|
    ensures forall i, m :: 0 <= i < n && 0 <= m < |pl[i]| ==> pl[i][m] == lines[IncidentLines(lp, i)[m]]
    ensures InRange(lp, n) ==> SumLengths(pl) == 2 * |lp| - SelfLoops(lp)
  {
    pl := [];
    for i := 0 to n
      invariant |pl| == i
      invariant forall r :: 0 <= r < i ==> |pl[r]| == |IncidentLines(lp, r)|
      invariant forall r, m :: 0 <= r < i && 0 <= m < |pl[r]| ==> pl[r][m] == lines[IncidentLines(lp, r)[m]]
    {
      var coTuples := IncidentLinesOf(lp, i);
      var coLines: seq<Line> := [];
      for m := 0 to |coTuples|
        invariant |coLines| == m
        invariant forall q :: 0 <= q < m ==> coLines[q] == lines[coTuples[q]]
      {
        coLines := coLines + [lines[coTuples[m]]];
      }
      pl := pl + [coLines];
    }
    if InRange(lp, n) {
      SumLengthsOfIncidenceTable(pl, lp);
      HandshakeTotals(lp, n);
    }
  }

  /** The four outputs of the component. */
  datatype Topology = Topology(
    points: seq<Point>,
    linePoints: seq<IndexPair>,
    pointPoints: seq<seq<nat>>,
    pointLines: seq<seq<Line>>)

  /**
   The whole component: the registry is computed once and every table is
   derived from it.
   */
  method Topologize(lines: seq<Line>, t: int) returns (topo: Topology)
    ensures topo.points == OrderedPoints(lines, t)
    ensures topo.linePoints == LinePairs(lines, t)
    ensures |topo.linePoints| == |lines| && InRange(topo.linePoints, |topo.points|)
    ensures |topo.pointPoints| == |topo.points| && |topo.pointLines| == |topo.points|
    ensures forall i :: 0 <= i < |topo.points| ==> topo.pointPoints[i] == Neighbours(topo.linePoints, i)
    ensures forall i :: 0 <= i < |topo.points| ==>
              |topo.pointLines[i]| == |IncidentLines(topo.linePoints, i)|
    ensures forall i, m :: 0 <= i < |topo.points| && 0 <= m < |topo.pointLines[i]| ==>
              topo.pointLines[i][m] == lines[IncidentLines(topo.linePoints, i)[m]]
    ensures SumLengths(topo.pointPoints) == 2 * (|lines| - SelfLoops(topo.linePoints))
    ensures SumLengths(topo.pointLines) == 2 * |lines| - SelfLoops(topo.linePoints)
  {
    var pts := OrderedListOfPoints(lines, t);
    var lp := ResolveLines(lines, pts);
    var pp := PointToPointsStructure(lp, |pts|);
    var pl := PointToLinesStructure(lines, lp, |pts|);
    topo := Topology(pts, lp, pp, pl);
  }
}
