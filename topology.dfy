/**
 * Index-level vocabulary of the icosphere generator: vertices, triangles,
 * the canonical edge key used by the midpoint cache, the indexed mesh that
 * the generator returns, and the closed-manifold shape of a triangle list.
 */
module Topology {

  /**
   * A vertex position. Coordinates are not modelled: a vertex is either one
   * of the twelve fixed icosahedron corners or the point obtained by adding
   * two earlier vertices and normalising the sum onto the unit sphere.
   */
  datatype Vertex = IcoCorner(k: nat) | Normalized(p: Vertex, q: Vertex)

  /** The midpoint vertex of an edge: normalize(p + q). */
  function Mid(p: Vertex, q: Vertex): Vertex
  {
    Normalized(p, q)
  }

  /** An `ivec3`: three vertex indices in winding order. */
  datatype Tri = Tri(a: int, b: int, c: int)

  /** The `EdgeId` record used as the key of the midpoint cache. */
  datatype EdgeId = EdgeId(first: int, second: int)

  /** The generator's result: a vertex list and triangles indexing into it. */
  datatype IndexedMesh = IndexedMesh(vertices: seq<Vertex>, triangles: seq<Tri>)

  /**
   * The canonical key of the undirected edge {first, second}: the two
   * indices are swapped when the first is the larger one.
   */
  function Key(first: int, second: int): (e: EdgeId)
    ensures e.first <= e.second
    ensures (e.first == first && e.second == second) || (e.first == second && e.second == first)
  {
    if first > second then EdgeId(second, first) else EdgeId(first, second)
  }

  /** Both directions of an edge have the same key ... */
  lemma KeyOrderIndependent(a: int, b: int)
    ensures Key(a, b) == Key(b, a)
  {
  }

  /** ... and two keys are equal exactly when the edges have the same endpoints. */
  lemma KeyEqual(a: int, b: int, c: int, d: int)
    ensures Key(a, b) == Key(c, d) <==> (a == c && b == d) || (a == d && b == c)
  {
  }

  /** Corner `s` (0, 1 or 2) of a triangle. */
  function Corner(t: Tri, s: nat): int
    requires s < 3
  {
    if s == 0 then t.a else if s == 1 then t.b else t.c
  }

  /** The corner slot following `s` in winding order. */
  function Next(s: nat): nat
    requires s < 3
  {
    if s == 2 then 0 else s + 1
  }

  /** The corner slot preceding `s` in winding order. */
  function Prev(s: nat): nat
    requires s < 3
  {
    if s == 0 then 2 else s - 1
  }

  /** The directed edge that leaves corner `s` of `t`. */
  function DirEdge(t: Tri, s: nat): (int, int)
    requires s < 3
  {
    (Corner(t, s), Corner(t, Next(s)))
  }

  /** The cache key of the edge leaving corner `s` of `t`. */
  function EdgeKey(t: Tri, s: nat): EdgeId
    requires s < 3
  {
    Key(Corner(t, s), Corner(t, Next(s)))
  }

  function CornerSet(t: Tri): set<int>
  {
    {t.a, t.b, t.c}
  }

  /** All three indices of `t` are offsets into a vertex list of length `n`. */
  predicate TriBelow(t: Tri, n: int)
  {
    0 <= t.a < n && 0 <= t.b < n && 0 <= t.c < n
  }

  predicate IndicesBelow(tris: seq<Tri>, n: int)
  {
    forall i :: 0 <= i < |tris| ==> TriBelow(tris[i], n)
  }

  predicate DistinctCorners(t: Tri)
  {
    t.a != t.b && t.b != t.c && t.c != t.a
  }

  /** The canonical keys of all edges of a triangle list, built triangle by triangle. */
  function EdgesOf(tris: seq<Tri>): set<EdgeId>
  {
    if tris == [] then {}
    else
      var t := tris[|tris| - 1];
      EdgesOf(tris[..|tris| - 1]) + {Key(t.a, t.b)} + {Key(t.b, t.c)} + {Key(t.c, t.a)}
  }

  /** An edge key belongs to EdgesOf(tris) exactly when some triangle has that edge. */
  lemma {:induction false} EdgesOfMember(tris: seq<Tri>, e: EdgeId)
    ensures e in EdgesOf(tris) <==> exists i, s :: 0 <= i < |tris| && 0 <= s < 3 && EdgeKey(tris[i], s) == e
  {
    if tris != [] {
      var n := |tris| - 1;
      var pre := tris[..n];
      EdgesOfMember(pre, e);
      if e in EdgesOf(tris) {
        if e in EdgesOf(pre) {
          var i, s :| 0 <= i < |pre| && 0 <= s < 3 && EdgeKey(pre[i], s) == e;
          assert EdgeKey(tris[i], s) == e;
        } else if e == Key(tris[n].a, tris[n].b) {
          assert EdgeKey(tris[n], 0) == e;
        } else if e == Key(tris[n].b, tris[n].c) {
          assert EdgeKey(tris[n], 1) == e;
        } else {
          assert EdgeKey(tris[n], 2) == e;
        }
      } else {
        forall i, s | 0 <= i < |tris| && 0 <= s < 3 ensures EdgeKey(tris[i], s) != e {
          if i < n {
            assert pre[i] == tris[i];
          }
        }
      }
    }
  }

  /** Directed edge (u, v) is the edge leaving some corner of some triangle. */
  predicate HasDirEdge(tris: seq<Tri>, u: int, v: int)
  {
    exists i, s :: 0 <= i < |tris| && 0 <= s < 3 && DirEdge(tris[i], s) == (u, v)
  }

  /** All directed edges of a triangle list, built triangle by triangle. */
  function DirEdges(tris: seq<Tri>): set<(int, int)>
  {
    if tris == [] then {}
    else
      var t := tris[|tris| - 1];
      DirEdges(tris[..|tris| - 1]) + {DirEdge(t, 0), DirEdge(t, 1), DirEdge(t, 2)}
  }

  /** DirEdges holds exactly the directed edges of the triangles. */
  lemma {:induction false} DirEdgesMember(tris: seq<Tri>, d: (int, int))
    ensures d in DirEdges(tris) <==> HasDirEdge(tris, d.0, d.1)
  {
    if tris != [] {
      var n := |tris| - 1;
      var pre := tris[..n];
      DirEdgesMember(pre, d);
      if d in DirEdges(tris) {
        if d in DirEdges(pre) {
          var i, s :| 0 <= i < |pre| && 0 <= s < 3 && DirEdge(pre[i], s) == d;
          assert DirEdge(tris[i], s) == d;
        } else if d == DirEdge(tris[n], 0) {
        } else if d == DirEdge(tris[n], 1) {
        } else {
          assert d == DirEdge(tris[n], 2);
        }
      } else {
        forall i, s | 0 <= i < |tris| && 0 <= s < 3 ensures DirEdge(tris[i], s) != d {
          if i < n {
            assert pre[i] == tris[i];
          }
        }
      }
    }
  }

  /** Every edge of every triangle is in EdgesOf. */
  lemma EdgeKeyInEdgesOf(tris: seq<Tri>, i: int, s: nat)
    requires 0 <= i < |tris| && s < 3
    ensures EdgeKey(tris[i], s) in EdgesOf(tris)
  {
    EdgesOfMember(tris, EdgeKey(tris[i], s));
  }

  /** No directed edge occurs twice: the triangles are consistently wound. */
  predicate UniqueDirEdges(tris: seq<Tri>)
  {
    forall i, j, s, r ::
      (0 <= i < |tris| && 0 <= j < |tris| && 0 <= s < 3 && 0 <= r < 3 &&
       DirEdge(tris[i], s) == DirEdge(tris[j], r)) ==> i == j && s == r
  }

  /**
   * Every directed edge is matched by its reverse: the surface has no
   * border. (Stated with DirEdges rather than HasDirEdge so that the
   * existential does not feed the quantifier; DirEdgesMember converts.)
   */
  predicate EveryEdgeReversed(tris: seq<Tri>)
  {
    forall i, s :: 0 <= i < |tris| && 0 <= s < 3 ==>
      (DirEdge(tris[i], s).1, DirEdge(tris[i], s).0) in DirEdges(tris)
  }

  /** No two faces span the same three vertices. */
  predicate DistinctFaces(tris: seq<Tri>)
  {
    forall i, j :: 0 <= i < |tris| && 0 <= j < |tris| && CornerSet(tris[i]) == CornerSet(tris[j]) ==> i == j
  }

  /**
   * A closed, consistently oriented, edge-manifold triangulation: each
   * undirected edge is shared by exactly two faces that traverse it in
   * opposite directions. The faces around a vertex are not required to form
   * a single fan, so two such surfaces glued at one vertex also qualify. The icosahedron seed and every subdivision of it have this shape.
   */
  predicate ClosedManifold(tris: seq<Tri>)
  {
    && (forall i :: 0 <= i < |tris| ==> DistinctCorners(tris[i]))
    && UniqueDirEdges(tris)
    && EveryEdgeReversed(tris)
    && DistinctFaces(tris)
  }
}
