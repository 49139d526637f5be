/**
 * Counting the edges of a closed triangulation: every undirected edge is
 * traversed once in each direction, so a closed manifold with T faces has
 * exactly 3T/2 edges. This is the count the subdivision pass asserts for its
 * midpoint cache.
 */
module EdgeCount {
  import opened Topology

  /** With no repeated directed edge, a list of T faces has 3T directed edges. */
  lemma {:induction false} DirEdgesCard(tris: seq<Tri>)
    requires forall i :: 0 <= i < |tris| ==> DistinctCorners(tris[i])
    requires UniqueDirEdges(tris)
    ensures |DirEdges(tris)| == 3 * |tris|
  {
    if tris != [] {
      var n := |tris| - 1;
      var pre := tris[..n];
      var t := tris[n];
      assert forall i :: 0 <= i < |pre| ==> pre[i] == tris[i];
      DirEdgesCard(pre);
      var fresh3 := {DirEdge(t, 0), DirEdge(t, 1), DirEdge(t, 2)};
      forall s | 0 <= s < 3 ensures DirEdge(t, s) !in DirEdges(pre) {
        DirEdgesMember(pre, DirEdge(t, s));
      }
      assert |fresh3| == 3;
      assert DirEdges(pre) * fresh3 == {};
      assert DirEdges(tris) == DirEdges(pre) + fresh3;
    }
  }

  /** Reversing is injective, so a set of directed edges and its reversal have the same size. */
  lemma {:induction false} FlipCard(xs: set<(int, int)>)
    ensures |set x | x in xs :: Flip(x)| == |xs|
    decreases |xs|
  {
    if xs != {} {
      var x :| x in xs;
      var rest := xs - {x};
      FlipCard(rest);
      assert (set y | y in xs :: Flip(y)) == (set y | y in rest :: Flip(y)) + {Flip(x)};
    }
  }

  /** Reading a directed edge as an edge key is injective. */
  lemma {:induction false} AsEdgeIdCard(xs: set<(int, int)>)
    ensures |set x | x in xs :: AsEdgeId(x)| == |xs|
    decreases |xs|
  {
    if xs != {} {
      var x :| x in xs;
      var rest := xs - {x};
      AsEdgeIdCard(rest);
      assert (set y | y in xs :: AsEdgeId(y)) == (set y | y in rest :: AsEdgeId(y)) + {AsEdgeId(x)};
    }
  }

  /** The two orientations of the directed edges. */
  function Ascending(tris: seq<Tri>): set<(int, int)>
  {
    set d | d in DirEdges(tris) && d.0 < d.1
  }

  function Descending(tris: seq<Tri>): set<(int, int)>
  {
    set d | d in DirEdges(tris) && d.0 > d.1
  }

  function Flip(d: (int, int)): (int, int)
  {
    (d.1, d.0)
  }

  function AsEdgeId(d: (int, int)): EdgeId
  {
    EdgeId(d.0, d.1)
  }

  lemma SplitByDirection(tris: seq<Tri>)
    requires forall i :: 0 <= i < |tris| ==> DistinctCorners(tris[i])
    ensures |DirEdges(tris)| == |Ascending(tris)| + |Descending(tris)|
  {
    forall d | d in DirEdges(tris) ensures d.0 != d.1 {
      DirEdgesMember(tris, d);
    }
    assert DirEdges(tris) == Ascending(tris) + Descending(tris);
    assert Ascending(tris) * Descending(tris) == {};
  }

  /** On a surface without border, reversing maps the ascending edges onto the descending ones. */
  lemma DescendingMirrorsAscending(tris: seq<Tri>)
    requires EveryEdgeReversed(tris)
    ensures |Descending(tris)| == |Ascending(tris)|
  {
    var up := Ascending(tris);
    forall d | d in Descending(tris) ensures d in (set x | x in up :: Flip(x)) {
      DirEdgesMember(tris, d);
      DirEdgesMember(tris, (d.1, d.0));
      assert Flip((d.1, d.0)) == d;
    }
    forall d | d in up ensures Flip(d) in Descending(tris) {
      DirEdgesMember(tris, d);
      DirEdgesMember(tris, (d.1, d.0));
    }
    assert Descending(tris) == set x | x in up :: Flip(x);
    FlipCard(up);
  }

  lemma EdgeIsAscending(tris: seq<Tri>, e: EdgeId)
    requires forall i :: 0 <= i < |tris| ==> DistinctCorners(tris[i])
    requires EveryEdgeReversed(tris)
    requires e in EdgesOf(tris)
    ensures e in (set x | x in Ascending(tris) :: AsEdgeId(x))
  {
    EdgesOfMember(tris, e);
    var i, s :| 0 <= i < |tris| && 0 <= s < 3 && EdgeKey(tris[i], s) == e;
    var d := DirEdge(tris[i], s);
    DirEdgesMember(tris, d);
    if d.0 < d.1 {
      assert AsEdgeId(d) == e;
    } else {
      DirEdgesMember(tris, (d.1, d.0));
      assert AsEdgeId((d.1, d.0)) == e;
    }
  }

  lemma AscendingIsEdge(tris: seq<Tri>, d: (int, int))
    requires d in Ascending(tris)
    ensures AsEdgeId(d) in EdgesOf(tris)
  {
    DirEdgesMember(tris, d);
    var i, s :| 0 <= i < |tris| && 0 <= s < 3 && DirEdge(tris[i], s) == d;
    EdgeKeyInEdgesOf(tris, i, s);
  }

  /** On a surface without border, each undirected edge is traversed upwards exactly once. */
  lemma EdgesMatchAscending(tris: seq<Tri>)
    requires forall i :: 0 <= i < |tris| ==> DistinctCorners(tris[i])
    requires EveryEdgeReversed(tris)
    ensures |EdgesOf(tris)| == |Ascending(tris)|
  {
    var up := Ascending(tris);
    forall e | e in EdgesOf(tris) ensures e in (set x | x in up :: AsEdgeId(x)) {
      EdgeIsAscending(tris, e);
    }
    forall d | d in up ensures AsEdgeId(d) in EdgesOf(tris) {
      AscendingIsEdge(tris, d);
    }
    assert EdgesOf(tris) == set x | x in up :: AsEdgeId(x);
    AsEdgeIdCard(up);
  }

  /**
   * A closed, consistently wound triangulation with T faces has exactly
   * 3T/2 undirected edges; in particular T is even and the edge count equals
   * T + T/2.
   */
  lemma ClosedManifoldEdgeCount(tris: seq<Tri>)
    requires ClosedManifold(tris)
    ensures 2 * |EdgesOf(tris)| == 3 * |tris|
    ensures |EdgesOf(tris)| == |tris| + |tris| / 2
  {
    DirEdgesCard(tris);
    SplitByDirection(tris);
    DescendingMirrorsAscending(tris);
    EdgesMatchAscending(tris);
  }
}
