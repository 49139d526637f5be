/**
 * The regular icosahedron that generateMesh starts from: twelve corners
 * and twenty faces, and the proof that those faces form a closed manifold
 * with thirty edges.
 */
module Seed {
  import opened Topology
  import opened EdgeCount

  /** The twelve corners, in the order of the initial vertex table. */
  function SeedVertices(): (vs: seq<Vertex>)
    ensures |vs| == 12
    ensures forall k :: 0 <= k < 12 ==> vs[k] == IcoCorner(k)
  {
    [
      IcoCorner(0), IcoCorner(1), IcoCorner(2), IcoCorner(3),
      IcoCorner(4), IcoCorner(5), IcoCorner(6), IcoCorner(7),
      IcoCorner(8), IcoCorner(9), IcoCorner(10), IcoCorner(11)
    ]
  }

  /** Row `i` of the initial triangle table. */
  function SeedTriangle(i: int): Tri
  {
    if i == 0 then Tri(0, 4, 1)
    else if i == 1 then Tri(0, 9, 4)
    else if i == 2 then Tri(9, 5, 4)
    else if i == 3 then Tri(4, 5, 8)
    else if i == 4 then Tri(4, 8, 1)
    else if i == 5 then Tri(8, 10, 1)
    else if i == 6 then Tri(8, 3, 10)
    else if i == 7 then Tri(5, 3, 8)
    else if i == 8 then Tri(5, 2, 3)
    else if i == 9 then Tri(2, 7, 3)
    else if i == 10 then Tri(7, 10, 3)
    else if i == 11 then Tri(7, 6, 10)
    else if i == 12 then Tri(7, 11, 6)
    else if i == 13 then Tri(11, 0, 6)
    else if i == 14 then Tri(0, 1, 6)
    else if i == 15 then Tri(6, 1, 10)
    else if i == 16 then Tri(9, 0, 11)
    else if i == 17 then Tri(9, 11, 2)
    else if i == 18 then Tri(9, 2, 5)
    else Tri(7, 2, 11)
  }

  /** The twenty faces of the initial triangle table, in its order. */
  function SeedTriangles(): (ts: seq<Tri>)
    ensures |ts| == 20
  {
    seq(20, SeedTriangle)
  }

  /** Where each directed edge of the seed lies: its face and slot, or (-1, -1). */
  function SeedEdgeOwner(d: (int, int)): (int, int)
  {
    if d.0 == 0 then
      (if d.1 == 1 then (14, 0) else if d.1 == 4 then (0, 0) else if d.1 == 6 then (13, 1) else if d.1 == 9 then (1, 0) else if d.1 == 11 then (16, 1) else (-1, -1))
    else if d.0 == 1 then
      (if d.1 == 0 then (0, 2) else if d.1 == 4 then (4, 2) else if d.1 == 6 then (14, 1) else if d.1 == 8 then (5, 2) else if d.1 == 10 then (15, 1) else (-1, -1))
    else if d.0 == 2 then
      (if d.1 == 3 then (8, 1) else if d.1 == 5 then (18, 1) else if d.1 == 7 then (9, 0) else if d.1 == 9 then (17, 2) else if d.1 == 11 then (19, 1) else (-1, -1))
    else if d.0 == 3 then
      (if d.1 == 2 then (9, 2) else if d.1 == 5 then (8, 2) else if d.1 == 7 then (10, 2) else if d.1 == 8 then (7, 1) else if d.1 == 10 then (6, 1) else (-1, -1))
    else if d.0 == 4 then
      (if d.1 == 0 then (1, 2) else if d.1 == 1 then (0, 1) else if d.1 == 5 then (3, 0) else if d.1 == 8 then (4, 0) else if d.1 == 9 then (2, 2) else (-1, -1))
    else if d.0 == 5 then
      (if d.1 == 2 then (8, 0) else if d.1 == 3 then (7, 0) else if d.1 == 4 then (2, 1) else if d.1 == 8 then (3, 1) else if d.1 == 9 then (18, 2) else (-1, -1))
    else if d.0 == 6 then
      (if d.1 == 0 then (14, 2) else if d.1 == 1 then (15, 0) else if d.1 == 7 then (12, 2) else if d.1 == 10 then (11, 1) else if d.1 == 11 then (13, 2) else (-1, -1))
    else if d.0 == 7 then
      (if d.1 == 2 then (19, 0) else if d.1 == 3 then (9, 1) else if d.1 == 6 then (11, 0) else if d.1 == 10 then (10, 0) else if d.1 == 11 then (12, 0) else (-1, -1))
    else if d.0 == 8 then
      (if d.1 == 1 then (4, 1) else if d.1 == 3 then (6, 0) else if d.1 == 4 then (3, 2) else if d.1 == 5 then (7, 2) else if d.1 == 10 then (5, 0) else (-1, -1))
    else if d.0 == 9 then
      (if d.1 == 0 then (16, 0) else if d.1 == 2 then (18, 0) else if d.1 == 4 then (1, 1) else if d.1 == 5 then (2, 0) else if d.1 == 11 then (17, 0) else (-1, -1))
    else if d.0 == 10 then
      (if d.1 == 1 then (5, 1) else if d.1 == 3 then (10, 1) else if d.1 == 6 then (15, 2) else if d.1 == 7 then (11, 2) else if d.1 == 8 then (6, 2) else (-1, -1))
    else if d.0 == 11 then
      (if d.1 == 0 then (13, 0) else if d.1 == 2 then (17, 1) else if d.1 == 6 then (12, 1) else if d.1 == 7 then (19, 2) else if d.1 == 9 then (16, 2) else (-1, -1))
    else (-1, -1)
  }

  /** Corners of a face in increasing order. */
  function Sorted(t: Tri): (int, int, int)
  {
    if t.a <= t.b && t.b <= t.c then (t.a, t.b, t.c)
    else if t.a <= t.c && t.c <= t.b then (t.a, t.c, t.b)
    else if t.b <= t.a && t.a <= t.c then (t.b, t.a, t.c)
    else if t.b <= t.c && t.c <= t.a then (t.b, t.c, t.a)
    else if t.c <= t.a && t.a <= t.b then (t.c, t.a, t.b)
    else (t.c, t.b, t.a)
  }

  /** Which face of the seed has the given sorted corners, or -1. */
  function SeedFaceOwner(k: (int, int, int)): int
  {
    if k == (0, 1, 4) then 0
    else if k == (0, 1, 6) then 14
    else if k == (0, 4, 9) then 1
    else if k == (0, 6, 11) then 13
    else if k == (0, 9, 11) then 16
    else if k == (1, 4, 8) then 4
    else if k == (1, 6, 10) then 15
    else if k == (1, 8, 10) then 5
    else if k == (2, 3, 5) then 8
    else if k == (2, 3, 7) then 9
    else if k == (2, 5, 9) then 18
    else if k == (2, 7, 11) then 19
    else if k == (2, 9, 11) then 17
    else if k == (3, 5, 8) then 7
    else if k == (3, 7, 10) then 10
    else if k == (3, 8, 10) then 6
    else if k == (4, 5, 8) then 3
    else if k == (4, 5, 9) then 2
    else if k == (6, 7, 10) then 11
    else if k == (6, 7, 11) then 12
    else -1
  }

  lemma SeedFaceFacts(i: int)
    requires 0 <= i < 20
    ensures DistinctCorners(SeedTriangles()[i]) && TriBelow(SeedTriangles()[i], 12)
    ensures SeedFaceOwner(Sorted(SeedTriangles()[i])) == i
  {
    assert i == 0 || i == 1 || i == 2 || i == 3 || i == 4 || i == 5 || i == 6 || i == 7 || i == 8 || i == 9 ||
        i == 10 || i == 11 || i == 12 || i == 13 || i == 14 || i == 15 || i == 16 || i == 17 || i == 18 || i == 19;
  }

  lemma SeedEdgeFacts(i: int, s: int)
    requires 0 <= i < 20 && 0 <= s < 3
    ensures SeedEdgeOwner(DirEdge(SeedTriangles()[i], s)) == (i, s)
  {
    assert i == 0 || i == 1 || i == 2 || i == 3 || i == 4 || i == 5 || i == 6 || i == 7 || i == 8 || i == 9 ||
        i == 10 || i == 11 || i == 12 || i == 13 || i == 14 || i == 15 || i == 16 || i == 17 || i == 18 || i == 19;
    assert s == 0 || s == 1 || s == 2;
  }

  lemma SeedReverseFacts(i: int, s: int)
    requires 0 <= i < 20 && 0 <= s < 3
    ensures var o := SeedEdgeOwner((DirEdge(SeedTriangles()[i], s).1, DirEdge(SeedTriangles()[i], s).0));
      && 0 <= o.0 < 20 && 0 <= o.1 < 3
      && DirEdge(SeedTriangles()[i], s) == (DirEdge(SeedTriangles()[o.0], o.1).1, DirEdge(SeedTriangles()[o.0], o.1).0)
  {
    assert i == 0 || i == 1 || i == 2 || i == 3 || i == 4 || i == 5 || i == 6 || i == 7 || i == 8 || i == 9 ||
        i == 10 || i == 11 || i == 12 || i == 13 || i == 14 || i == 15 || i == 16 || i == 17 || i == 18 || i == 19;
    assert s == 0 || s == 1 || s == 2;
  }

  /** Faces with the same three distinct corners list them in the same sorted order. */
  lemma SameCornersSameSorted(t: Tri, u: Tri)
    requires DistinctCorners(t) && DistinctCorners(u) && CornerSet(t) == CornerSet(u)
    ensures Sorted(t) == Sorted(u)
  {
    assert t.a in CornerSet(u) && t.b in CornerSet(u) && t.c in CornerSet(u);
    assert u.a in CornerSet(t) && u.b in CornerSet(t) && u.c in CornerSet(t);
  }

  /** The icosahedron is a closed manifold over its twelve corners. */
  lemma SeedClosedManifold()
    ensures |SeedTriangles()| == 20
    ensures IndicesBelow(SeedTriangles(), 12)
    ensures ClosedManifold(SeedTriangles())
  {
    var tris := SeedTriangles();
    forall i | 0 <= i < |tris|
      ensures DistinctCorners(tris[i]) && TriBelow(tris[i], 12)
    {
      SeedFaceFacts(i);
    }
    forall i, j, s, r | 0 <= i < |tris| && 0 <= j < |tris| && 0 <= s < 3 && 0 <= r < 3 && DirEdge(tris[i], s) == DirEdge(tris[j], r)
      ensures i == j && s == r
    {
      SeedEdgeFacts(i, s);
      SeedEdgeFacts(j, r);
    }
    forall i, s | 0 <= i < |tris| && 0 <= s < 3
      ensures (DirEdge(tris[i], s).1, DirEdge(tris[i], s).0) in DirEdges(tris)
    {
      SeedReverseFacts(i, s);
      var o := SeedEdgeOwner((DirEdge(tris[i], s).1, DirEdge(tris[i], s).0));
      assert DirEdge(tris[o.0], o.1) == (DirEdge(tris[i], s).1, DirEdge(tris[i], s).0);
      DirEdgesMember(tris, (DirEdge(tris[i], s).1, DirEdge(tris[i], s).0));
    }
    forall i, j | 0 <= i < |tris| && 0 <= j < |tris| && CornerSet(tris[i]) == CornerSet(tris[j])
      ensures i == j
    {
      SeedFaceFacts(i);
      SeedFaceFacts(j);
      SameCornersSameSorted(tris[i], tris[j]);
    }
  }

  /** The icosahedron has thirty edges, the size of the cache after the first pass. */
  lemma SeedEdgeCount()
    ensures |EdgesOf(SeedTriangles())| == 30
  {
    SeedClosedManifold();
    ClosedManifoldEdgeCount(SeedTriangles());
  }
}
