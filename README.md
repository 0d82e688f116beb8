# Line topologizer, modelled in Dafny

The Line_Topologizer component takes a list of 3D line segments `L` and a
tolerance `T`. It turns them into a graph:

- **P**: an ordered list of points. The endpoints are registered in the
  order `From`, `To` of each line, in line order. An endpoint is added
  only when it lies farther than `T` from the nearest point already
  registered, so the first registered point wins (`PtCloudFromPoints`).
- **LP**: for each line, the indices in P of the points nearest to its
  `From` and `To` endpoints.
- **PP**: for each point, the other endpoints of the lines through it.
  Repeats are kept, and a self-loop adds nothing.
- **PL**: for each point, the lines whose index pair contains it, in
  ascending line order.

The model has four modules:

- `Geometry`: integer points, squared distance, the comparison
  `distance > T`, and the point cloud's nearest-point lookup.
- `PointCloud`: the registry loop and what it guarantees.
- `Adjacency`: index pairs, incidence, neighbour lists, multiplicities
  and totals.
- `LineTopologizer`: the component's methods, proved against the
  specification functions above. The source's loops are kept as loops,
  and `LineToPointsStructure` and `Topologize` compose those methods.

Distances are compared exactly. Coordinates and the tolerance are integers
in one unit, and `distance > T` is decided as `T < 0 || d² > T²`.
`Geometry.ExceedsToleranceIsDistanceAbove` proves that this agrees with
`Dis > T` for the real distance `Dis`, the non-negative square root of
`d²`, whether or not it is a whole number. No member reads globals: the
registry methods take the lines and the tolerance, and the table methods
take the line pairs LP and the number of points. `LineTopologizer.Topologize`
computes the registry and LP once and derives PP and PL from them.

With a negative tolerance the first endpoint is registered twice. The
empty-cloud branch adds it, and its zero distance to itself then exceeds
the tolerance, so the same iteration adds it again
(`PointCloud.RegistryNegativeTolerance`). The guarantees that depend on
this are stated for `T >= 0`: at most `2·|L|` points, the first endpoint
registered once, and every endpoint within `T` of a registry point.

The point-to-point lists keep multiplicity: two lines joining the same two
points list each point twice in the other's list.

## Model

| member | source | states |
|---|---|---|
| `Geometry.SqDist` | LineTopologizer.py:44 | the squared distance is non-negative and zero exactly for equal points |
| `Geometry.SqDistSymmetric` | LineTopologizer.py:44 | the distance from p to q equals the distance from q to p |
| `Geometry.ExceedsTolerance` | LineTopologizer.py:45 | the test `Dis > T` on the squared distance; a zero distance exceeds the tolerance exactly when `T` is negative |
| `Geometry.Farther` | LineTopologizer.py:44-45 | two points are more than `T` apart; a point is farther than `T` from itself exactly when `T` is negative |
| `Geometry.ExceedsToleranceIsDistanceAbove` | LineTopologizer.py:44-45 | for any non-negative real distance `Dis` whose square is the squared distance, and any tolerance, deciding on squares agrees with `Dis > T` |
| `Geometry.ClosestPoint` | LineTopologizer.py:44 | the nearest-point lookup returns an index of the cloud |
| `Geometry.ClosestPointIsNearest` | LineTopologizer.py:79-80 | the returned point is at minimum distance from the query, and no earlier point is as close |
| `Geometry.ClosestInLargerCloud` | LineTopologizer.py:41-46 | appending points to a cloud never moves its nearest point farther from a query |
| `PointCloud.Insert` | LineTopologizer.py:42-46 | one loop iteration only appends to the cloud; at most one entry, or two into an empty cloud, and the last appended entry is the current point |
| `PointCloud.InsertAppendsPoint` | LineTopologizer.py:42-46 | one loop iteration leaves the cloud unchanged, appends the current point, or turns an empty cloud into the current point twice |
| `PointCloud.Registry` | LineTopologizer.py:36-48 | the registry holds at most one entry more than the input, and it is empty exactly when the input is empty |
| `PointCloud.RegistryNonNegativeStep` | LineTopologizer.py:42-46 | for `T >= 0`, one iteration appends the current point or nothing; into an empty cloud it is added once; when nothing is appended, the point is within `T` of its nearest entry |
| `PointCloud.RegistryNegativeStep` | LineTopologizer.py:42-46 | for `T < 0`, every iteration appends the current point, after seeding an empty cloud with it |
| `PointCloud.PtCloudFromPoints` | LineTopologizer.py:36-48 | the loop builds the registry; distinct entries are more than `T` apart; for `T >= 0` it has at most as many entries as input points, and every input point is within `T` of its nearest entry |
| `PointCloud.RegistryGrows` | LineTopologizer.py:41-46 | points are only appended: the registry of every input prefix is a prefix of the final registry |
| `PointCloud.RegistryLength` | LineTopologizer.py:40-46 | for `T >= 0`, the registry has no more entries than input points, and the first input point is the first entry |
| `PointCloud.InsertKeepsSeparated` | LineTopologizer.py:42-46 | one loop iteration keeps every entry more than `T` from every later entry |
| `PointCloud.RegistrySeparatedInOrder` | LineTopologizer.py:41-46 | every registry entry is more than `T` from every later entry |
| `PointCloud.RegistrySeparated` | LineTopologizer.py:41-46 | any two distinct registry entries are more than `T` apart; for `T >= 0` they are different points, so no point is registered twice |
| `PointCloud.RegistryCovers` | LineTopologizer.py:41-46 | for `T >= 0`, every input point is within `T` of its nearest registry entry |
| `PointCloud.CoversEarlierPoints` | LineTopologizer.py:41-46 | an iteration keeps every earlier input point within `T` of its nearest entry |
| `PointCloud.CoversLastPoint` | LineTopologizer.py:42-46 | for `T >= 0`, the point just processed is within `T` of its nearest entry |
| `PointCloud.RegistryNegativeTolerance` | LineTopologizer.py:42-46 | for `T < 0`, the registry is the first input point followed by the whole input: the first point is registered twice |
| `PointCloud.RegistryMergesNearDuplicate` | LineTopologizer.py:41-46 | with `T = 1`, the points (0,0,0), (3,0,0), (3,1,0), (6,0,0) register as (0,0,0), (3,0,0), (6,0,0): the near-duplicate is dropped |
| `PointCloud.ExampleInsertions` | LineTopologizer.py:42-46 | the four iterations of the worked example, one at a time |
| `PointCloud.Origins` | LineTopologizer.py:41-46 | for `T >= 0`, each registry entry is the input point at a position that strictly increases along the registry |
| `PointCloud.RegistryIsSubsequence` | LineTopologizer.py:41-46 | for `T >= 0`, the registry is a subsequence of the input points |
| `Adjacency.IncidentLines` | LineTopologizer.py:119-122 | the incident-line scan yields line indices below the number of lines |
| `Adjacency.IncidentLinesExact` | LineTopologizer.py:119-122 | line `k` is listed for point `i` exactly when its pair contains `i`; the list is strictly ascending, so each line (a self-loop included) appears once |
| `Adjacency.Select` | LineTopologizer.py:96-98 | looking up the pairs of the incident lines gives one pair per incident line |
| `Adjacency.Others` | LineTopologizer.py:101-105 | what one pair through `i` adds: never `i`, only the pair's endpoints, one entry for an ordinary line and none for a self-loop |
| `Adjacency.OthersOf` | LineTopologizer.py:100-105 | the contributions of the pairs, concatenated, hold at most two entries per pair |
| `Adjacency.Neighbours` | LineTopologizer.py:92-105 | the line-by-line neighbour list PP[i] has at most one entry per line |
| `Adjacency.NeighboursOfIncidentPairs` | LineTopologizer.py:92-105 | collecting incident lines, then their pairs, then the endpoints other than `i` gives, line by line, the other endpoint of each non-self-loop line through `i` |
| `Adjacency.NotOwnNeighbour` | LineTopologizer.py:101-105 | a point never appears in its own neighbour list, so a self-loop contributes nothing |
| `Adjacency.NeighboursInRange` | LineTopologizer.py:101-105 | when every pair indexes one of `n` points, so does every neighbour |
| `Adjacency.NeighbourMultiplicity` | LineTopologizer.py:93-105 | for `j ≠ i`, `j` occurs in the neighbour list of `i` as many times as there are lines `[i,j]` or `[j,i]` |
| `Adjacency.EdgeCount` | LineTopologizer.py:93-105 | the reference count of lines `[i,j]` or `[j,i]`, at most the number of lines |
| `Adjacency.EdgeCountSymmetric` | LineTopologizer.py:93-105 | the number of lines joining `i` and `j` does not depend on the order of the two |
| `Adjacency.NeighboursSymmetric` | LineTopologizer.py:93-105 | adjacency is symmetric with multiplicity: `j` occurs in PP[i] as often as `i` occurs in PP[j] |
| `Adjacency.SelfLoops` | LineTopologizer.py:101-105 | the number of self-loop lines is at most the number of lines |
| `Adjacency.NeighbourTotalAppend` | LineTopologizer.py:101-105 | one more line adds two neighbour entries over all points, or none for a self-loop |
| `Adjacency.IncidenceTotalAppend` | LineTopologizer.py:119-122 | one more line adds two incidence entries over all points, or one for a self-loop |
| `Adjacency.HandshakeTotals` | LineTopologizer.py:90-127 | summed over all points, the neighbour lists hold `2·(|L| − self-loops)` entries and the incidence lists `2·|L| − self-loops` |
| `LineTopologizer.EndpointsAt` | LineTopologizer.py:63-66 | the endpoint list holds `From` of line `k` at position `2k` and `To` at `2k+1` |
| `LineTopologizer.Endpoints` | LineTopologizer.py:63-66 | the endpoint list has two entries per line |
| `LineTopologizer.OrderedPoints` | LineTopologizer.py:59-68 | P, the registry of the endpoints, is empty exactly for no lines and has at most `2·|L|+1` points |
| `LineTopologizer.Resolve` | LineTopologizer.py:76-83 | resolving lines against a cloud gives one pair per line, both indices in the cloud |
| `LineTopologizer.LinePairs` | LineTopologizer.py:72-83 | LP has one pair per line, both indices in P |
| `LineTopologizer.TwoLinesShareACorner` | LineTopologizer.py:59-83 | with `T = 1`, lines (0,0,0)–(3,0,0) and (3,1,0)–(6,0,0) give P = [(0,0,0), (3,0,0), (6,0,0)] and LP = [[0,1],[1,2]] |
| `LineTopologizer.CornerResolved` | LineTopologizer.py:76-83 | in that example each endpoint resolves to its nearest registry point, the offset corner to point 1 |
| `LineTopologizer.CornerNeighbours` | LineTopologizer.py:86-127 | in that example point 1 has neighbours [0, 2] and incident lines [0, 1] |
| `LineTopologizer.OrderedListOfPoints` | LineTopologizer.py:59-68 | P is the registry of the endpoints; it is empty exactly for no lines; it has at most `2·|L|+1` points, and at most `2·|L|` for `T >= 0`; its points are pairwise more than `T` apart; for `T >= 0` both endpoints of every line are within `T` of their nearest point |
| `LineTopologizer.ResolveLines` | LineTopologizer.py:76-83 | one index pair per line, in line order; both indices lie in P; each indexes a point of P nearest to the endpoint |
| `LineTopologizer.LineToPointsStructure` | LineTopologizer.py:72-83 | LP has one pair per line; its indices lie in P and are nearest to the line's endpoints; for `T >= 0` each indexed point is within `T` of its endpoint |
| `LineTopologizer.IncidentLinesOf` | LineTopologizer.py:119-122 | the scan returns exactly the lines whose pair contains the point, in strictly ascending order |
| `LineTopologizer.OtherEndpoints` | LineTopologizer.py:100-105 | the loop collects, pair by pair, the endpoints that differ from the point |
| `LineTopologizer.NeighboursOf` | LineTopologizer.py:92-107 | one point's list is the other endpoint of each non-self-loop line through it |
| `LineTopologizer.PointToPointsStructure` | LineTopologizer.py:86-109 | one list per point; no point lists itself; for `j ≠ i`, `j` occurs in PP[i] once per line joining them; the multiplicities are symmetric; neighbours lie in P; the lists total `2·(|L| − self-loops)` entries |
| `LineTopologizer.PointToLinesStructure` | LineTopologizer.py:112-127 | one list per point; PL[i] lists the lines at the ascending indices of the lines through `i`; the lists total `2·|L| − self-loops` entries |
| `LineTopologizer.Topologize` | LineTopologizer.py:132-140 | the four outputs computed from one registry: P, LP of one in-range pair per line, PP and PL as above (every PL row as long as the point's incident-line list), with their totals |

## Left out

- The conversion of nested lists into Grasshopper data trees (`pythonListTGhDataTree`, LineTopologizer.py:23-34) and the output-port assignments (LineTopologizer.py:135-141) are host marshalling.
- The component naming through `ghenv` (LineTopologizer.py:19-20) is host glue.
- Floating-point coordinates and tolerances are not modelled. Coordinates and `T` are integers in a common unit, and distances are compared exactly on squares, so IEEE rounding near the tolerance is not captured.
- `Geometry.ClosestPoint`: Rhino's `PointCloud.ClosestPoint` is not part of this model. It is modelled as a minimum-distance search that breaks ties toward the lowest index. Rhino's tie-break is not visible. Outside `Geometry`, the nearest-point, range, separation, coverage and adjacency properties hold for any tie-break. The exact-equality ensures do assume it: `ResolveLines` (`lp == Resolve(lines, pts)`), `LineToPointsStructure` (`lp == LinePairs(lines, t)`) and `Topologize` (its LP, and the PP and PL built on it).
- The methods read the module globals `L` and `T` instead of `self.L` and `self.T` (LineTopologizer.py:64, 68, 77, 125). The script builds every `LineTopologizer` from those same globals, so the model passes the lines and the tolerance as parameters.
- The code rebuilds the registry and LP inside every loop iteration (LineTopologizer.py:79-80, 93-98, 120-121). This changes the running time, not the results, so the model computes each one once.
- `LineTopologizer.PointToLinesStructure`: returns line values. The identity of the host's line objects, and any aliasing between them, is not modelled.
- LineTopologizer_V2.py is not part of this model. Its point deduplication is Rhino's `Point3d.CullDuplicates`, whose merge rule is not visible. Its resolution of lines to indices is the same nearest-point lookup as `ResolveLines`.
