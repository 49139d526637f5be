/**
 * A subdivision pass turns a closed manifold into a closed manifold. This
 * is what makes the cache-size assertion of every later pass hold: each
 * pass's input is again a closed surface, so it again has 3T/2 edges.
 *
 * The proof works on SplitAll(tris, cache), the output of a pass written
 * in terms of the final cache, for any cache that gives every edge of the
 * input its own index at or above the old vertex count.
 */
module Preservation {
  import opened Topology
  import opened Subdivision
  import opened EdgeCount

  /** Every cached midpoint is a new vertex, and different edges have different midpoints. */
  predicate FreshMidpoints(cache: map<EdgeId, int>, n: int)
  {
    && (forall e :: e in cache ==> n <= cache[e])
    && (forall e1, e2 :: e1 in cache && e2 in cache && cache[e1] == cache[e2] ==> e1 == e2)
  }

  /**
   * What the uniqueness arguments need of the input: a closed manifold
   * without the reverse-edge condition, whose existential would otherwise
   * be instantiated over and over.
   */
  predicate Base(tris: seq<Tri>, cache: map<EdgeId, int>, n: int)
  {
    && (forall i :: 0 <= i < |tris| ==> DistinctCorners(tris[i]))
    && UniqueDirEdges(tris)
    && DistinctFaces(tris)
    && IndicesBelow(tris, n)
    && EdgesOf(tris) <= cache.Keys
    && FreshMidpoints(cache, n)
  }

  predicate Setup(tris: seq<Tri>, cache: map<EdgeId, int>, n: int)
  {
    Base(tris, cache, n) && EveryEdgeReversed(tris)
  }

  /** The midpoint index of the edge leaving corner `s` of `t`. */
  function M(t: Tri, cache: map<EdgeId, int>, s: nat): int
    requires s < 3 && EdgeKey(t, s) in cache
  {
    cache[EdgeKey(t, s)]
  }

  predicate Cached(t: Tri, cache: map<EdgeId, int>)
  {
    Key(t.a, t.b) in cache && Key(t.b, t.c) in cache && Key(t.c, t.a) in cache
  }

  lemma TriFacts(tris: seq<Tri>, cache: map<EdgeId, int>, n: int, i: int)
    requires Base(tris, cache, n) && 0 <= i < |tris|
    ensures DistinctCorners(tris[i]) && TriBelow(tris[i], n) && Cached(tris[i], cache)
    ensures EdgeKey(tris[i], 0) in cache && EdgeKey(tris[i], 1) in cache && EdgeKey(tris[i], 2) in cache
  {
    TriangleEdgesIn(tris, i);
  }

  /** The directed edges of the four faces of a quad, by face `j` and slot `k`. */
  lemma QuadEdge(t: Tri, cache: map<EdgeId, int>, j: nat, k: nat)
    requires Cached(t, cache) && j < 4 && k < 3
    ensures EdgeKey(t, 0) in cache && EdgeKey(t, 1) in cache && EdgeKey(t, 2) in cache
    ensures var d := DirEdge(Quad(t, cache)[j], k);
      && (j < 3 && k == 0 ==> d == (Corner(t, j), M(t, cache, j)))
      && (j < 3 && k == 1 ==> d == (M(t, cache, j), M(t, cache, Prev(j))))
      && (j < 3 && k == 2 ==> d == (M(t, cache, Prev(j)), Corner(t, j)))
      && (j == 3 ==> d == (M(t, cache, k), M(t, cache, Next(k))))
  {
  }

  /** The three edges of a triangle with distinct corners have distinct keys. */
  lemma KeysDistinct(t: Tri, x: nat, y: nat)
    requires DistinctCorners(t) && x < 3 && y < 3 && x != y
    ensures EdgeKey(t, x) != EdgeKey(t, y)
  {
    KeyEqual(Corner(t, x), Corner(t, Next(x)), Corner(t, y), Corner(t, Next(y)));
  }

  /** Two distinct edges of a triangle span all of its corners. */
  lemma TwoEdgesSpan(t: Tri, x: nat, y: nat)
    requires x < 3 && y < 3 && x != y
    ensures {EdgeKey(t, x).first, EdgeKey(t, x).second, EdgeKey(t, y).first, EdgeKey(t, y).second} == CornerSet(t)
  {
  }

  /** Two triangles that share two of their edges have the same corners. */
  lemma SharedTwoEdges(t: Tri, u: Tri, x: nat, y: nat, x2: nat, y2: nat)
    requires DistinctCorners(t) && DistinctCorners(u)
    requires x < 3 && y < 3 && x2 < 3 && y2 < 3 && x != y
    requires EdgeKey(t, x) == EdgeKey(u, x2) && EdgeKey(t, y) == EdgeKey(u, y2)
    ensures CornerSet(t) == CornerSet(u)
  {
    TwoEdgesSpan(t, x, y);
    if x2 == y2 {
      KeysDistinct(t, x, y);
    }
    TwoEdgesSpan(u, x2, y2);
  }

  /** Midpoints are the images of distinct keys, so equal midpoints mean equal keys. */
  lemma SameMid(tris: seq<Tri>, cache: map<EdgeId, int>, n: int, i: int, s: nat, i2: int, s2: nat)
    requires Base(tris, cache, n) && 0 <= i < |tris| && 0 <= i2 < |tris| && s < 3 && s2 < 3
    requires EdgeKey(tris[i], s) in cache && EdgeKey(tris[i2], s2) in cache
    requires M(tris[i], cache, s) == M(tris[i2], cache, s2)
    ensures EdgeKey(tris[i], s) == EdgeKey(tris[i2], s2)
  {
  }

  /** An edge from an old corner to a midpoint occurs once. */
  lemma OldMidUnique(tris: seq<Tri>, cache: map<EdgeId, int>, n: int, i: int, s: nat, i2: int, s2: nat)
    requires Base(tris, cache, n) && 0 <= i < |tris| && 0 <= i2 < |tris| && s < 3 && s2 < 3
    requires EdgeKey(tris[i], s) in cache && EdgeKey(tris[i2], s2) in cache
    requires Corner(tris[i], s) == Corner(tris[i2], s2)
    requires M(tris[i], cache, s) == M(tris[i2], cache, s2)
    ensures i == i2 && s == s2
  {
    TriFacts(tris, cache, n, i);
    TriFacts(tris, cache, n, i2);
    SameMid(tris, cache, n, i, s, i2, s2);
    KeyEqual(Corner(tris[i], s), Corner(tris[i], Next(s)), Corner(tris[i2], s2), Corner(tris[i2], Next(s2)));
    assert DirEdge(tris[i], s) == DirEdge(tris[i2], s2);
  }

  /** An edge from a midpoint to an old corner occurs once. */
  lemma MidOldUnique(tris: seq<Tri>, cache: map<EdgeId, int>, n: int, i: int, s: nat, i2: int, s2: nat)
    requires Base(tris, cache, n) && 0 <= i < |tris| && 0 <= i2 < |tris| && s < 3 && s2 < 3
    requires EdgeKey(tris[i], s) in cache && EdgeKey(tris[i2], s2) in cache
    requires Corner(tris[i], Next(s)) == Corner(tris[i2], Next(s2))
    requires M(tris[i], cache, s) == M(tris[i2], cache, s2)
    ensures i == i2 && s == s2
  {
    TriFacts(tris, cache, n, i);
    TriFacts(tris, cache, n, i2);
    SameMid(tris, cache, n, i, s, i2, s2);
    KeyEqual(Corner(tris[i], s), Corner(tris[i], Next(s)), Corner(tris[i2], s2), Corner(tris[i2], Next(s2)));
    assert DirEdge(tris[i], s) == DirEdge(tris[i2], s2);
  }

  /** An edge between two midpoints occurs once. */
  lemma MidMidUnique(tris: seq<Tri>, cache: map<EdgeId, int>, n: int, i: int, x: nat, y: nat, i2: int, x2: nat, y2: nat)
    requires Base(tris, cache, n) && 0 <= i < |tris| && 0 <= i2 < |tris|
    requires x < 3 && y < 3 && x2 < 3 && y2 < 3 && x != y
    requires EdgeKey(tris[i], x) in cache && EdgeKey(tris[i], y) in cache
    requires EdgeKey(tris[i2], x2) in cache && EdgeKey(tris[i2], y2) in cache
    requires M(tris[i], cache, x) == M(tris[i2], cache, x2)
    requires M(tris[i], cache, y) == M(tris[i2], cache, y2)
    ensures i == i2 && x == x2 && y == y2
  {
    TriFacts(tris, cache, n, i);
    TriFacts(tris, cache, n, i2);
    SameMid(tris, cache, n, i, x, i2, x2);
    SameMid(tris, cache, n, i, y, i2, y2);
    SharedTwoEdges(tris[i], tris[i2], x, y, x2, y2);
    assert i == i2;
    if x != x2 {
      KeysDistinct(tris[i], x, x2);
    }
    if y != y2 {
      KeysDistinct(tris[i], y, y2);
    }
  }

  /** The four faces of a quad, by corner and midpoint. */
  lemma QuadFace(t: Tri, cache: map<EdgeId, int>, j: nat)
    requires Cached(t, cache) && j < 4
    ensures EdgeKey(t, 0) in cache && EdgeKey(t, 1) in cache && EdgeKey(t, 2) in cache
    ensures Quad(t, cache)[j] == FaceTri(t, cache, j)
  {
  }

  /** Every face of the output has three distinct corners. */
  lemma FaceCornersDistinct(tris: seq<Tri>, cache: map<EdgeId, int>, n: int, i: int, j: nat)
    requires Base(tris, cache, n) && 0 <= i < |tris| && j < 4
    requires Cached(tris[i], cache)
    ensures DistinctCorners(Quad(tris[i], cache)[j])
  {
    TriFacts(tris, cache, n, i);
    QuadFace(tris[i], cache, j);
    KeysDistinct(tris[i], 0, 1);
    KeysDistinct(tris[i], 1, 2);
    KeysDistinct(tris[i], 2, 0);
  }

  /**
   * What a directed edge of the output joins: an old corner to the midpoint
   * of edge `s`, that midpoint to the next old corner, or two midpoints.
   */
  datatype Shape = OldMid(s: nat) | MidOld(s: nat) | MidMid(x: nat, y: nat)

  function ShapeOf(j: nat, k: nat): Shape
    requires j < 4 && k < 3
  {
    if j < 3 && k == 0 then OldMid(j)
    else if j < 3 && k == 2 then MidOld(Prev(j))
    else if j < 3 then MidMid(j, Prev(j))
    else MidMid(k, Next(k))
  }

  /** Different face slots of a quad have different shapes. */
  lemma ShapeInjective(j: nat, k: nat, j2: nat, k2: nat)
    requires j < 4 && k < 3 && j2 < 4 && k2 < 3
    requires ShapeOf(j, k) == ShapeOf(j2, k2)
    ensures j == j2 && k == k2
  {
  }

  /** The midpoints of a triangle's edges are distinct and lie at or above `n`, its corners below. */
  predicate Separated(t: Tri, cache: map<EdgeId, int>, n: int)
  {
    && DistinctCorners(t) && TriBelow(t, n) && Cached(t, cache)
    && (forall s :: 0 <= s < 3 ==> EdgeKey(t, s) in cache)
    && (forall s :: 0 <= s < 3 ==> Corner(t, s) < n)
    && (forall s :: 0 <= s < 3 ==> n <= M(t, cache, s))
    && (forall x, y :: 0 <= x < 3 && 0 <= y < 3 && x != y ==> M(t, cache, x) != M(t, cache, y))
  }

  lemma SeparatedAt(tris: seq<Tri>, cache: map<EdgeId, int>, n: int, i: int)
    requires Base(tris, cache, n) && 0 <= i < |tris|
    ensures Separated(tris[i], cache, n)
  {
    TriFacts(tris, cache, n, i);
    forall x, y | 0 <= x < 3 && 0 <= y < 3 && x != y
      ensures M(tris[i], cache, x) != M(tris[i], cache, y)
    {
      KeysDistinct(tris[i], x, y);
    }
  }

  predicate ValidShape(sh: Shape)
  {
    match sh
    case OldMid(s) => s < 3
    case MidOld(s) => s < 3
    case MidMid(x, y) => x < 3 && y < 3 && x != y
  }

  /** The directed edge of a given shape inside the quad of `t`. */
  function ShapeEdge(t: Tri, cache: map<EdgeId, int>, sh: Shape): (int, int)
    requires ValidShape(sh)
    requires EdgeKey(t, 0) in cache && EdgeKey(t, 1) in cache && EdgeKey(t, 2) in cache
  {
    match sh
    case OldMid(s) => (Corner(t, s), M(t, cache, s))
    case MidOld(s) => (M(t, cache, s), Corner(t, Next(s)))
    case MidMid(x, y) => (M(t, cache, x), M(t, cache, y))
  }

  /** The directed edge in face `j`, slot `k` of a quad, by its shape. */
  lemma QuadEdgeShape(t: Tri, cache: map<EdgeId, int>, n: int, j: nat, k: nat)
    requires Separated(t, cache, n) && j < 4 && k < 3
    ensures ValidShape(ShapeOf(j, k))
    ensures DirEdge(Quad(t, cache)[j], k) == ShapeEdge(t, cache, ShapeOf(j, k))
  {
    QuadEdge(t, cache, j, k);
  }

  /** Old corners lie below `n` and midpoints above, so equal edges have shapes of the same kind. */
  lemma ShapeKinds(t: Tri, u: Tri, cache: map<EdgeId, int>, n: int, sh: Shape, sh2: Shape)
    requires Separated(t, cache, n) && Separated(u, cache, n)
    requires ValidShape(sh) && ValidShape(sh2)
    requires ShapeEdge(t, cache, sh) == ShapeEdge(u, cache, sh2)
    ensures sh.OldMid? <==> sh2.OldMid?
    ensures sh.MidOld? <==> sh2.MidOld?
  {
  }

  /** Equal edges of two quads have the same shape and come from the same triangle. */
  lemma ShapeUnique(tris: seq<Tri>, cache: map<EdgeId, int>, n: int, i: int, sh: Shape, i2: int, sh2: Shape)
    requires Base(tris, cache, n) && 0 <= i < |tris| && 0 <= i2 < |tris|
    requires Separated(tris[i], cache, n) && Separated(tris[i2], cache, n)
    requires ValidShape(sh) && ValidShape(sh2)
    requires ShapeEdge(tris[i], cache, sh) == ShapeEdge(tris[i2], cache, sh2)
    ensures i == i2 && sh == sh2
  {
    ShapeKinds(tris[i], tris[i2], cache, n, sh, sh2);
    match sh
    case OldMid(s) =>
      assert sh2.OldMid?;
      OldMidUnique(tris, cache, n, i, s, i2, sh2.s);
    case MidOld(s) =>
      assert sh2.MidOld?;
      MidOldUnique(tris, cache, n, i, s, i2, sh2.s);
    case MidMid(x, y) =>
      assert sh2.MidMid?;
      MidMidUnique(tris, cache, n, i, x, y, i2, sh2.x, sh2.y);
  }

  /** A directed edge of the output occurs in exactly one face slot. */
  lemma FaceEdgesUnique(tris: seq<Tri>, cache: map<EdgeId, int>, n: int, i: int, j: nat, k: nat, i2: int, j2: nat, k2: nat)
    requires Base(tris, cache, n) && 0 <= i < |tris| && 0 <= i2 < |tris|
    requires j < 4 && k < 3 && j2 < 4 && k2 < 3
    requires Cached(tris[i], cache) && Cached(tris[i2], cache)
    requires DirEdge(Quad(tris[i], cache)[j], k) == DirEdge(Quad(tris[i2], cache)[j2], k2)
    ensures i == i2 && j == j2 && k == k2
  {
    SeparatedAt(tris, cache, n, i);
    SeparatedAt(tris, cache, n, i2);
    QuadEdgeShape(tris[i], cache, n, j, k);
    QuadEdgeShape(tris[i2], cache, n, j2, k2);
    ShapeUnique(tris, cache, n, i, ShapeOf(j, k), i2, ShapeOf(j2, k2));
    ShapeInjective(j, k, j2, k2);
  }

  /** The face and slot of a quad where an edge of the given shape sits. */
  function FaceOf(sh: Shape): nat
    requires ValidShape(sh)
  {
    match sh
    case OldMid(s) => s
    case MidOld(s) => Next(s)
    case MidMid(x, y) => if y == Prev(x) then x else 3
  }

  function SlotOf(sh: Shape): nat
    requires ValidShape(sh)
  {
    match sh
    case OldMid(_) => 0
    case MidOld(_) => 2
    case MidMid(x, y) => if y == Prev(x) then 1 else x
  }

  /** Every valid shape occurs in some face slot of a quad. */
  lemma ShapeSlot(sh: Shape)
    requires ValidShape(sh)
    ensures FaceOf(sh) < 4 && SlotOf(sh) < 3 && ShapeOf(FaceOf(sh), SlotOf(sh)) == sh
  {
  }

  /** Across an edge of the input lies the same edge, reversed, in another triangle. */
  lemma ReverseInput(tris: seq<Tri>, cache: map<EdgeId, int>, n: int, i: int, s: nat) returns (i2: int, s2: nat)
    requires Setup(tris, cache, n) && 0 <= i < |tris| && s < 3
    ensures 0 <= i2 < |tris| && s2 < 3
    ensures Corner(tris[i2], s2) == Corner(tris[i], Next(s)) && Corner(tris[i2], Next(s2)) == Corner(tris[i], s)
    ensures EdgeKey(tris[i2], s2) == EdgeKey(tris[i], s)
  {
    var t := tris[i];
    DirEdgesMember(tris, (DirEdge(t, s).1, DirEdge(t, s).0));
    i2, s2 :| 0 <= i2 < |tris| && 0 <= s2 < 3 && DirEdge(tris[i2], s2) == (DirEdge(t, s).1, DirEdge(t, s).0);
    KeyOrderIndependent(Corner(t, s), Corner(t, Next(s)));
  }

  /** The reverse of an edge of a given shape, as an edge of some quad. */
  lemma ReverseShape(tris: seq<Tri>, cache: map<EdgeId, int>, n: int, i: int, sh: Shape) returns (i2: int, sh2: Shape)
    requires Setup(tris, cache, n) && 0 <= i < |tris| && ValidShape(sh)
    requires Separated(tris[i], cache, n)
    ensures 0 <= i2 < |tris| && ValidShape(sh2) && Separated(tris[i2], cache, n)
    ensures ShapeEdge(tris[i2], cache, sh2) == (ShapeEdge(tris[i], cache, sh).1, ShapeEdge(tris[i], cache, sh).0)
  {
    match sh
    case OldMid(s) =>
      var s2;
      i2, s2 := ReverseInput(tris, cache, n, i, s);
      SeparatedAt(tris, cache, n, i2);
      sh2 := MidOld(s2);
    case MidOld(s) =>
      var s2;
      i2, s2 := ReverseInput(tris, cache, n, i, s);
      SeparatedAt(tris, cache, n, i2);
      sh2 := OldMid(s2);
    case MidMid(x, y) =>
      i2, sh2 := i, MidMid(y, x);
  }

  /**
   * The reverse of every directed edge of the output is again an edge of
   * the output: across an old edge it lies in the neighbouring quad, inside
   * a quad it pairs a corner face with the centre face.
   */
  lemma FaceEdgeReversed(tris: seq<Tri>, cache: map<EdgeId, int>, n: int, i: int, j: nat, k: nat)
    returns (i2: int, j2: nat, k2: nat)
    requires Setup(tris, cache, n) && 0 <= i < |tris| && j < 4 && k < 3
    requires Cached(tris[i], cache)
    ensures 0 <= i2 < |tris| && j2 < 4 && k2 < 3 && Cached(tris[i2], cache)
    ensures DirEdge(Quad(tris[i2], cache)[j2], k2) == (DirEdge(Quad(tris[i], cache)[j], k).1, DirEdge(Quad(tris[i], cache)[j], k).0)
  {
    SeparatedAt(tris, cache, n, i);
    QuadEdgeShape(tris[i], cache, n, j, k);
    var sh2;
    i2, sh2 := ReverseShape(tris, cache, n, i, ShapeOf(j, k));
    ShapeSlot(sh2);
    j2, k2 := FaceOf(sh2), SlotOf(sh2);
    QuadEdgeShape(tris[i2], cache, n, j2, k2);
  }

  /** Two faces with one corner below `n` and two distinct ones above share both of the latter. */
  lemma CornerFacesMatch(c: int, p: int, q: int, c2: int, p2: int, q2: int, n: int)
    requires c < n && c2 < n && n <= p && n <= q && n <= p2 && n <= q2 && p != q
    requires {c, p, q} == {c2, p2, q2}
    ensures (p == p2 && q == q2) || (p == q2 && q == p2)
  {
    assert p in {c2, p2, q2};
    assert q in {c2, p2, q2};
  }

  /** Two faces whose corners all lie at or above `n` share two of them. */
  lemma CenterFacesMatch(p0: int, p1: int, q0: int, q1: int, q2: int) returns (x: nat, y: nat)
    requires {p0, p1} <= {q0, q1, q2}
    ensures x < 3 && y < 3 && p0 == [q0, q1, q2][x] && p1 == [q0, q1, q2][y]
  {
    assert p0 in {q0, q1, q2};
    assert p1 in {q0, q1, q2};
    x := if p0 == q0 then 0 else if p0 == q1 then 1 else 2;
    y := if p1 == q0 then 0 else if p1 == q1 then 1 else 2;
  }

  /** Face `j` of the quad of `t`: a corner face keeps corner `j`, face 3 is the centre. */
  function FaceTri(t: Tri, cache: map<EdgeId, int>, j: nat): Tri
    requires j < 4 && EdgeKey(t, 0) in cache && EdgeKey(t, 1) in cache && EdgeKey(t, 2) in cache
  {
    if j < 3 then Tri(Corner(t, j), M(t, cache, j), M(t, cache, Prev(j)))
    else Tri(M(t, cache, 0), M(t, cache, 1), M(t, cache, 2))
  }

  /** Two corner faces with the same corners come from the same triangle and corner. */
  lemma CornerFacesDistinct(tris: seq<Tri>, cache: map<EdgeId, int>, n: int, i: int, j: nat, i2: int, j2: nat)
    requires Base(tris, cache, n) && 0 <= i < |tris| && 0 <= i2 < |tris| && j < 3 && j2 < 3
    requires Separated(tris[i], cache, n) && Separated(tris[i2], cache, n)
    requires CornerSet(FaceTri(tris[i], cache, j)) == CornerSet(FaceTri(tris[i2], cache, j2))
    ensures i == i2 && j == j2
  {
    var t, u := tris[i], tris[i2];
    assert Prev(j) < 3 && Prev(j) != j;
    CornerFacesMatch(Corner(t, j), M(t, cache, j), M(t, cache, Prev(j)), Corner(u, j2), M(u, cache, j2), M(u, cache, Prev(j2)), n);
    if M(t, cache, j) == M(u, cache, j2) {
      MidMidUnique(tris, cache, n, i, j, Prev(j), i2, j2, Prev(j2));
    } else {
      MidMidUnique(tris, cache, n, i, j, Prev(j), i2, Prev(j2), j2);
    }
  }

  /** Two centre faces with the same corners come from the same triangle. */
  lemma CenterFacesDistinct(tris: seq<Tri>, cache: map<EdgeId, int>, n: int, i: int, i2: int)
    requires Base(tris, cache, n) && 0 <= i < |tris| && 0 <= i2 < |tris|
    requires Separated(tris[i], cache, n) && Separated(tris[i2], cache, n)
    requires CornerSet(FaceTri(tris[i], cache, 3)) == CornerSet(FaceTri(tris[i2], cache, 3))
    ensures i == i2
  {
    var t, u := tris[i], tris[i2];
    var x, y := CenterFacesMatch(M(t, cache, 0), M(t, cache, 1), M(u, cache, 0), M(u, cache, 1), M(u, cache, 2));
    assert M(u, cache, x) == [M(u, cache, 0), M(u, cache, 1), M(u, cache, 2)][x];
    assert M(u, cache, y) == [M(u, cache, 0), M(u, cache, 1), M(u, cache, 2)][y];
    MidMidUnique(tris, cache, n, i, 0, 1, i2, x, y);
  }

  /** A corner face keeps an old corner, a centre face has none. */
  lemma CornerCenterApart(t: Tri, u: Tri, cache: map<EdgeId, int>, n: int, j: nat)
    requires Separated(t, cache, n) && Separated(u, cache, n) && j < 3
    ensures CornerSet(FaceTri(t, cache, j)) != CornerSet(FaceTri(u, cache, 3))
  {
    assert Corner(t, j) in CornerSet(FaceTri(t, cache, j));
  }

  /** No two faces of the output have the same corners. */
  lemma FacesDistinct(tris: seq<Tri>, cache: map<EdgeId, int>, n: int, i: int, j: nat, i2: int, j2: nat)
    requires Base(tris, cache, n) && 0 <= i < |tris| && 0 <= i2 < |tris| && j < 4 && j2 < 4
    requires Cached(tris[i], cache) && Cached(tris[i2], cache)
    requires CornerSet(Quad(tris[i], cache)[j]) == CornerSet(Quad(tris[i2], cache)[j2])
    ensures i == i2 && j == j2
  {
    SeparatedAt(tris, cache, n, i);
    SeparatedAt(tris, cache, n, i2);
    QuadFace(tris[i], cache, j);
    QuadFace(tris[i2], cache, j2);
    assert CornerSet(FaceTri(tris[i], cache, j)) == CornerSet(FaceTri(tris[i2], cache, j2));
    if j < 3 && j2 < 3 {
      CornerFacesDistinct(tris, cache, n, i, j, i2, j2);
    } else if j < 3 {
      CornerCenterApart(tris[i], tris[i2], cache, n, j);
    } else if j2 < 3 {
      CornerCenterApart(tris[i2], tris[i], cache, n, j2);
    } else {
      CenterFacesDistinct(tris, cache, n, i, i2);
    }
  }

  /** Position `p` of the split sequence is face `p % 4` of the quad of triangle `p / 4`. */
  lemma OutAt(tris: seq<Tri>, cache: map<EdgeId, int>, p: int)
    requires EdgesOf(tris) <= cache.Keys && 0 <= p < |SplitAll(tris, cache)|
    ensures 0 <= p / 4 < |tris| && Cached(tris[p / 4], cache)
    ensures SplitAll(tris, cache)[p] == Quad(tris[p / 4], cache)[p % 4]
  {
    SplitAllShape(tris, cache);
    var i := p / 4;
    assert SplitAll(tris, cache)[4 * i .. 4 * i + 4][p % 4] == SplitAll(tris, cache)[p];
  }

  /** Face `j` of the quad of triangle `i` sits at position 4i + j. */
  lemma OutPosition(tris: seq<Tri>, cache: map<EdgeId, int>, i: int, j: nat)
    requires EdgesOf(tris) <= cache.Keys && 0 <= i < |tris| && j < 4
    ensures 0 <= 4 * i + j < |SplitAll(tris, cache)| && Cached(tris[i], cache)
    ensures SplitAll(tris, cache)[4 * i + j] == Quad(tris[i], cache)[j]
  {
    SplitAllShape(tris, cache);
    assert SplitAll(tris, cache)[4 * i .. 4 * i + 4][j] == SplitAll(tris, cache)[4 * i + j];
  }

  /**
   * Splitting every triangle of a closed manifold into four, with a fresh,
   * distinct midpoint per edge, gives a closed manifold again.
   */
  lemma SplitAllClosedManifold(tris: seq<Tri>, cache: map<EdgeId, int>, n: int)
    requires Setup(tris, cache, n)
    ensures ClosedManifold(SplitAll(tris, cache))
  {
    var out := SplitAll(tris, cache);
    forall p | 0 <= p < |out|
      ensures DistinctCorners(out[p])
    {
      OutAt(tris, cache, p);
      FaceCornersDistinct(tris, cache, n, p / 4, p % 4);
    }
    forall p, q, k, l | 0 <= p < |out| && 0 <= q < |out| && 0 <= k < 3 && 0 <= l < 3 && DirEdge(out[p], k) == DirEdge(out[q], l)
      ensures p == q && k == l
    {
      OutAt(tris, cache, p);
      OutAt(tris, cache, q);
      FaceEdgesUnique(tris, cache, n, p / 4, p % 4, k, q / 4, q % 4, l);
    }
    forall p, k | 0 <= p < |out| && 0 <= k < 3
      ensures (DirEdge(out[p], k).1, DirEdge(out[p], k).0) in DirEdges(out)
    {
      OutAt(tris, cache, p);
      var i2, j2, k2 := FaceEdgeReversed(tris, cache, n, p / 4, p % 4, k);
      OutPosition(tris, cache, i2, j2);
      assert DirEdge(out[4 * i2 + j2], k2) == (DirEdge(out[p], k).1, DirEdge(out[p], k).0);
      DirEdgesMember(out, (DirEdge(out[p], k).1, DirEdge(out[p], k).0));
    }
    forall p, q | 0 <= p < |out| && 0 <= q < |out| && CornerSet(out[p]) == CornerSet(out[q])
      ensures p == q
    {
      OutAt(tris, cache, p);
      OutAt(tris, cache, q);
      FacesDistinct(tris, cache, n, p / 4, p % 4, q / 4, q % 4);
    }
  }

  /**
   * A pass over a closed manifold yields a closed manifold, fills the cache
   * with one entry per edge (T + T/2 of them) and appends as many vertices.
   */
  lemma PassKeepsClosedManifold(vertices: seq<Vertex>, tris: seq<Tri>)
    requires ClosedManifold(tris) && IndicesBelow(tris, |vertices|)
    ensures var p := PassOver(vertices, tris);
      && ClosedManifold(p.out)
      && |p.out| == 4 * |tris|
      && |p.cache| == |tris| + |tris| / 2
      && |p.vertices| == |vertices| + |tris| + |tris| / 2
  {
    var p := PassOver(vertices, tris);
    PassCache(vertices, tris);
    PassOverInvariant(vertices, tris);
    ClosedManifoldEdgeCount(tris);
    SplitAllShape(tris, p.cache);
    SplitAllClosedManifold(tris, p.cache, |vertices|);
  }
}
