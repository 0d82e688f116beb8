/**
 Connectivity derived from resolved lines. Once every line is resolved to
 a pair of registry indices, the point-to-point and point-to-line tables
 are plain index bookkeeping; this module states what they contain.
 */
module Adjacency {

  /** A line resolved to the registry indices of its `From` and `To` endpoints. */
  datatype IndexPair = IndexPair(start: nat, end: nat) {
    /** The membership test `i in pair`. */
    predicate Contains(i: nat)
    {
      start == i || end == i
    }

    /** Both endpoints snapped to the same registry point. */
    predicate IsSelfLoop()
    {
      start == end
    }
  }

  /** Every index refers to one of `n` registry points. */
  predicate InRange(lp: seq<IndexPair>, n: nat)
  {
    forall k :: 0 <= k < |lp| ==> lp[k].start < n && lp[k].end < n
  }

  // ---------------------------------------------------------------------------
  // Incidence: the lines whose pair contains a point

  /** The indices of the lines whose pair contains `i`, in scanning order. */
  function IncidentLines(lp: seq<IndexPair>, i: nat): (ks: seq<nat>)
    ensures forall m :: 0 <= m < |ks| ==> ks[m] < |lp|
    decreases |lp|
  {
    if |lp| == 0 then []
    else IncidentLines(lp[..|lp| - 1], i) + (if lp[|lp| - 1].Contains(i) then [|lp| - 1] else [])
  }

  /**
   The incident lines of `i` are exactly the lines containing `i`, each
   listed once, in strictly ascending line order.
   */
  lemma {:induction false} IncidentLinesExact(lp: seq<IndexPair>, i: nat)
    ensures forall m, m' :: 0 <= m < m' < |IncidentLines(lp, i)| ==> IncidentLines(lp, i)[m] < IncidentLines(lp, i)[m']
    ensures forall k :: k in IncidentLines(lp, i) <==> 0 <= k < |lp| && lp[k].Contains(i)
    decreases |lp|
  {
    if |lp| > 0 {
      var init := lp[..|lp| - 1];
      var ks0 := IncidentLines(init, i);
      var e: seq<nat> := if lp[|lp| - 1].Contains(i) then [|init|] else [];
      IncidentLinesExact(init, i);
      forall k | 0 <= k < |init|
        ensures lp[k] == init[k]
      {
      }
      var ks := ks0 + e;
      forall m, m' | 0 <= m < m' < |ks|
        ensures ks[m] < ks[m']
      {
        if m' < |ks0| {
          assert ks[m] == ks0[m] && ks[m'] == ks0[m'];
        } else {
          assert ks[m] == ks0[m] < |init| == ks[m'];
        }
      }
    }
  }

  /** The pairs at positions `ks`, in that order. */
  function Select(lp: seq<IndexPair>, ks: seq<nat>): (ps: seq<IndexPair>)
    requires forall m :: 0 <= m < |ks| ==> ks[m] < |lp|
    ensures |ps| == |ks|
    decreases |ks|
  {
    if |ks| == 0 then []
    else Select(lp, ks[..|ks| - 1]) + [lp[ks[|ks| - 1]]]
  }

  // ---------------------------------------------------------------------------
  // Neighbours: the other endpoints of the incident lines

  /** What one pair containing `i` contributes: each of its endpoints that is not `i`. */
  function Others(p: IndexPair, i: nat): (r: seq<nat>)
    ensures i !in r
    ensures forall v :: v in r ==> v == p.start || v == p.end
    ensures p.Contains(i) ==> |r| == (if p.IsSelfLoop() then 0 else 1)
  {
    (if p.start != i then [p.start] else []) + (if p.end != i then [p.end] else [])
  }

  /** The contributions of `ps`, concatenated in order. */
  function OthersOf(ps: seq<IndexPair>, i: nat): (r: seq<nat>)
    ensures |r| <= 2 * |ps|
    decreases |ps|
  {
    if |ps| == 0 then []
    else OthersOf(ps[..|ps| - 1], i) + Others(ps[|ps| - 1], i)
  }

  /** Line-by-line view of the neighbour list of `i`: what each line adds, in line order. */
  function Neighbours(lp: seq<IndexPair>, i: nat): (r: seq<nat>)
    ensures |r| <= |lp|
    decreases |lp|
  {
    if |lp| == 0 then []
    else
      var p := lp[|lp| - 1];
      Neighbours(lp[..|lp| - 1], i) + (if p.Contains(i) then Others(p, i) else [])
  }

  lemma NeighboursAppend(lp: seq<IndexPair>, p: IndexPair, i: nat)
    ensures Neighbours(lp + [p], i) == Neighbours(lp, i) + (if p.Contains(i) then Others(p, i) else [])
  {
    assert (lp + [p])[..|lp|] == lp;
  }

  lemma OthersOfAppend(a: seq<IndexPair>, b: seq<IndexPair>, i: nat)
    ensures OthersOf(a + b, i) == OthersOf(a, i) + OthersOf(b, i)
    decreases |b|
  {
    if |b| > 0 {
      assert (a + b)[..|a + b| - 1] == a + b[..|b| - 1];
      OthersOfAppend(a, b[..|b| - 1], i);
    } else {
      assert a + b == a;
    }
  }

  lemma SelectAppend(lp: seq<IndexPair>, ks: seq<nat>, ks': seq<nat>)
    requires forall m :: 0 <= m < |ks| ==> ks[m] < |lp|
    requires forall m :: 0 <= m < |ks'| ==> ks'[m] < |lp|
    ensures Select(lp, ks + ks') == Select(lp, ks) + Select(lp, ks')
    decreases |ks'|
  {
    if |ks'| > 0 {
      assert (ks + ks')[..|ks + ks'| - 1] == ks + ks'[..|ks'| - 1];
      SelectAppend(lp, ks, ks'[..|ks'| - 1]);
    } else {
      assert ks + ks' == ks;
    }
  }

  lemma {:induction false} SelectInPrefix(lp: seq<IndexPair>, p: IndexPair, ks: seq<nat>)
    requires forall m :: 0 <= m < |ks| ==> ks[m] < |lp|
    ensures Select(lp + [p], ks) == Select(lp, ks)
    decreases |ks|
  {
    if |ks| > 0 {
      SelectInPrefix(lp, p, ks[..|ks| - 1]);
    }
  }

  /**
   Collecting the incident lines first, then their pairs, then the other
   endpoint of each pair gives the line-by-line neighbour list.
   */
  lemma {:induction false} NeighboursOfIncidentPairs(lp: seq<IndexPair>, i: nat)
    ensures OthersOf(Select(lp, IncidentLines(lp, i)), i) == Neighbours(lp, i)
    decreases |lp|
  {
    if |lp| > 0 {
      var init := lp[..|lp| - 1];
      var p := lp[|lp| - 1];
      var ks := IncidentLines(init, i);
      var e: seq<nat> := if p.Contains(i) then [|init|] else [];
      assert lp == init + [p];
      assert IncidentLines(lp, i) == ks + e;
      NeighboursOfIncidentPairs(init, i);
      SelectAppend(lp, ks, e);
      SelectInPrefix(init, p, ks);
      assert Select(lp, e) == if p.Contains(i) then [p] else [];
      OthersOfAppend(Select(lp, ks), Select(lp, e), i);
      assert OthersOf([p], i) == Others(p, i) by {
        assert [p][..0] == [];
      }
      NeighboursAppend(init, p, i);
    }
  }

  /** A point never lists itself as a neighbour; in particular a self-loop adds nothing. */
  lemma {:induction false} NotOwnNeighbour(lp: seq<IndexPair>, i: nat)
    ensures i !in Neighbours(lp, i)
    decreases |lp|
  {
    if |lp| > 0 {
      NotOwnNeighbour(lp[..|lp| - 1], i);
    }
  }

  /** Neighbours are registry indices whenever the pairs are. */
  lemma {:induction false} NeighboursInRange(lp: seq<IndexPair>, n: nat, i: nat)
    requires InRange(lp, n)
    ensures forall v :: v in Neighbours(lp, i) ==> v < n
    decreases |lp|
  {
    if |lp| > 0 {
      var init := lp[..|lp| - 1];
      assert InRange(init, n) by {
        forall k | 0 <= k < |init| ensures init[k] == lp[k] { }
      }
      NeighboursInRange(init, n, i);
    }
  }

  /** The number of lines joining `i` and `j`, in either direction. */
  function EdgeCount(lp: seq<IndexPair>, i: nat, j: nat): (c: nat)
    ensures c <= |lp|
    decreases |lp|
  {
    if |lp| == 0 then 0
    else
      var p := lp[|lp| - 1];
      EdgeCount(lp[..|lp| - 1], i, j) + (if p == IndexPair(i, j) || p == IndexPair(j, i) then 1 else 0)
  }

  /**
   For a point other than `i`, its multiplicity in the neighbour list of `i`
   is the number of lines joining the two.
   */
  lemma {:induction false} NeighbourMultiplicity(lp: seq<IndexPair>, i: nat, j: nat)
    requires i != j
    ensures multiset(Neighbours(lp, i))[j] == EdgeCount(lp, i, j)
    decreases |lp|
  {
    if |lp| > 0 {
      var init := lp[..|lp| - 1];
      var p := lp[|lp| - 1];
      NeighbourMultiplicity(init, i, j);
      var c: seq<nat> := if p.Contains(i) then Others(p, i) else [];
      assert Neighbours(lp, i) == Neighbours(init, i) + c;
      assert multiset(Neighbours(lp, i)) == multiset(Neighbours(init, i)) + multiset(c);
      assert multiset(c)[j] == if p == IndexPair(i, j) || p == IndexPair(j, i) then 1 else 0;
    }
  }

  lemma {:induction false} EdgeCountSymmetric(lp: seq<IndexPair>, i: nat, j: nat)
    ensures EdgeCount(lp, i, j) == EdgeCount(lp, j, i)
    decreases |lp|
  {
    if |lp| > 0 {
      EdgeCountSymmetric(lp[..|lp| - 1], i, j);
    }
  }

  /** Adjacency is symmetric, multiplicities included. */
  lemma NeighboursSymmetric(lp: seq<IndexPair>, i: nat, j: nat)
    ensures multiset(Neighbours(lp, i))[j] == multiset(Neighbours(lp, j))[i]
  {
    if i == j {
    } else {
      NeighbourMultiplicity(lp, i, j);
      NeighbourMultiplicity(lp, j, i);
      EdgeCountSymmetric(lp, i, j);
    }
  }

  // ---------------------------------------------------------------------------
  // Totals over a whole table

  /** The number of self-loop lines. */
  function SelfLoops(lp: seq<IndexPair>): (c: nat)
    ensures c <= |lp|
    decreases |lp|
  {
    if |lp| == 0 then 0
    else SelfLoops(lp[..|lp| - 1]) + (if lp[|lp| - 1].IsSelfLoop() then 1 else 0)
  }

  /** The sum of the lengths of the rows of a table. */
  function SumLengths<X>(rows: seq<seq<X>>): nat
    decreases |rows|
  {
    if |rows| == 0 then 0
    else SumLengths(rows[..|rows| - 1]) + |rows[|rows| - 1]|
  }

  /** `sum_{i < m} |Neighbours(lp, i)|` */
  function NeighbourTotal(lp: seq<IndexPair>, m: nat): nat
    decreases m
  {
    if m == 0 then 0 else NeighbourTotal(lp, m - 1) + |Neighbours(lp, m - 1)|
  }

  /** `sum_{i < m} |IncidentLines(lp, i)|` */
  function IncidenceTotal(lp: seq<IndexPair>, m: nat): nat
    decreases m
  {
    if m == 0 then 0 else IncidenceTotal(lp, m - 1) + |IncidentLines(lp, m - 1)|
  }

  lemma {:induction false} NeighbourTotalAppend(lp: seq<IndexPair>, p: IndexPair, m: nat)
    ensures NeighbourTotal(lp + [p], m) == NeighbourTotal(lp, m) +
      (if p.IsSelfLoop() then 0 else (if p.start < m then 1 else 0) + (if p.end < m then 1 else 0))
    decreases m
  {
    if m > 0 {
      NeighbourTotalAppend(lp, p, m - 1);
      NeighboursAppend(lp, p, m - 1);
    }
  }

  lemma {:induction false} IncidenceTotalAppend(lp: seq<IndexPair>, p: IndexPair, m: nat)
    ensures IncidenceTotal(lp + [p], m) == IncidenceTotal(lp, m) +
      (if p.start < m then 1 else 0) + (if !p.IsSelfLoop() && p.end < m then 1 else 0)
    decreases m
  {
    if m > 0 {
      IncidenceTotalAppend(lp, p, m - 1);
      assert (lp + [p])[..|lp|] == lp;
    }
  }

  lemma {:induction false} TotalsOfNoLines(m: nat)
    ensures NeighbourTotal([], m) == 0 && IncidenceTotal([], m) == 0
    decreases m
  {
    if m > 0 {
      TotalsOfNoLines(m - 1);
    }
  }

  /**
   Summed over all `n` points, the neighbour lists hold two entries per
   line that is not a self-loop, and the incidence lists one entry per
   self-loop and two per other line.
   */
  lemma {:induction false} HandshakeTotals(lp: seq<IndexPair>, n: nat)
    requires InRange(lp, n)
    ensures NeighbourTotal(lp, n) == 2 * (|lp| - SelfLoops(lp))
    ensures IncidenceTotal(lp, n) == 2 * |lp| - SelfLoops(lp)
    decreases |lp|
  {
    if |lp| == 0 {
      TotalsOfNoLines(n);
    } else {
      var init := lp[..|lp| - 1];
      var p := lp[|lp| - 1];
      assert lp == init + [p];
      assert InRange(init, n) by {
        forall k | 0 <= k < |init| ensures init[k] == lp[k] { }
      }
      HandshakeTotals(init, n);
      NeighbourTotalAppend(init, p, n);
      IncidenceTotalAppend(init, p, n);
    }
  }

  /** A table whose row `i` has the length of row `i` of the specification sums to that total. */
  lemma {:induction false} SumLengthsOfNeighbourTable(pp: seq<seq<nat>>, lp: seq<IndexPair>)
    requires forall i :: 0 <= i < |pp| ==> |pp[i]| == |Neighbours(lp, i)|
    ensures SumLengths(pp) == NeighbourTotal(lp, |pp|)
    decreases |pp|
  {
    if |pp| > 0 {
      SumLengthsOfNeighbourTable(pp[..|pp| - 1], lp);
    }
  }

  lemma {:induction false} SumLengthsOfIncidenceTable<X>(pl: seq<seq<X>>, lp: seq<IndexPair>)
    requires forall i :: 0 <= i < |pl| ==> |pl[i]| == |IncidentLines(lp, i)|
    ensures SumLengths(pl) == IncidenceTotal(lp, |pl|)
    decreases |pl|
  {
    if |pl| > 0 {
      SumLengthsOfIncidenceTable(pl[..|pl| - 1], lp);
    }
  }
}
