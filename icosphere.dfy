/**
 * generateMesh and the two routines it drives, run in place: a builder
 * object holds the vertex list, the two triangle buffers that the passes
 * swap between, and the edge cache. Each method is proved to end in the
 * state that the functions of module Subdivision compute, and the whole
 * run is proved to meet the size predictions of module Growth.
 */
module Icosphere {
  import opened Topology
  import opened Subdivision
  import opened Preservation
  import opened Growth
  import opened Seed

  /** The mesh after `d` passes over the icosahedron; a depth of zero or less runs none. */
  function Generated(d: int): (m: IndexedMesh)
    ensures IndicesBelow(m.triangles, |m.vertices|)
    decreases if d <= 0 then 0 else d
  {
    if d <= 0 then
      IndexedMesh(SeedVertices(), SeedTriangles())
    else
      var prev := Generated(d - 1);
      PassIndicesValid(prev.vertices, prev.triangles);
      var p := PassOver(prev.vertices, prev.triangles);
      IndexedMesh(p.vertices, p.out)
  }

  /** One unfolding of Generated, LeftoverTriangles and FinalCache. */
  lemma GeneratedUnfold(d: int)
    ensures d <= 0 ==> Generated(d) == IndexedMesh(SeedVertices(), SeedTriangles())
    ensures d <= 0 ==> LeftoverTriangles(d) == [] && FinalCache(d) == map[]
    ensures d >= 1 ==>
      var p := PassOver(Generated(d - 1).vertices, Generated(d - 1).triangles);
      && Generated(d) == IndexedMesh(p.vertices, p.out)
      && LeftoverTriangles(d) == Generated(d - 1).triangles
      && FinalCache(d) == p.cache
  {
  }

  /**
   * The buffer that the last pass read, left in tmpTriangles after the final
   * swap: a quarter of the current triangles, or nothing when no pass runs.
   */
  function LeftoverTriangles(d: int): (r: seq<Tri>)
    ensures d <= 0 ==> r == []
    ensures d >= 1 ==> |Generated(d).triangles| == 4 * |r|
  {
    if d <= 0 then []
    else
      var prev := Generated(d - 1);
      PassOutput(prev.vertices, prev.triangles);
      prev.triangles
  }

  /**
   * The cache as the last pass left it: one entry for each edge of that
   * pass's input; it stays empty when no pass runs.
   */
  function FinalCache(d: int): (r: map<EdgeId, int>)
    ensures d <= 0 ==> r == map[]
    ensures d >= 1 ==> KeysAreEdges(r, Generated(d - 1).triangles)
  {
    if d <= 0 then map[]
    else
      var prev := Generated(d - 1);
      PassCache(prev.vertices, prev.triangles);
      PassOver(prev.vertices, prev.triangles).cache
  }

  /** The cache holds exactly one entry per edge of `tris`. */
  predicate KeysAreEdges(cache: map<EdgeId, int>, tris: seq<Tri>)
  {
    cache.Keys == EdgesOf(tris)
  }

  /** The state one more pass leaves behind is the one the functions describe for the next depth. */
  lemma PassStep(i: int, before: seq<Vertex>, tris: seq<Tri>, vertices: seq<Vertex>, cache: map<EdgeId, int>, out: seq<Tri>)
    requires i >= 0 && IndexedMesh(before, tris) == Generated(i)
    requires PassState(vertices, cache, out) == PassOver(before, tris)
    ensures IndexedMesh(vertices, out) == Generated(i + 1)
    ensures tris == LeftoverTriangles(i + 1) && cache == FinalCache(i + 1)
  {
    GeneratedUnfold(i + 1);
  }

  /** With no pass the mesh is the icosahedron, a closed manifold ... */
  lemma ClosedBase(d: int)
    requires d <= 0
    ensures ClosedManifold(Generated(d).triangles)
  {
    GeneratedUnfold(d);
    SeedClosedManifold();
  }

  /** ... with the seed sizes ... */
  lemma SizesBase(d: int)
    requires d <= 0
    ensures SizesHold(d)
  {
    GeneratedUnfold(d);
  }

  /** ... and the seed vertex list. */
  lemma KeepsSeedBase(d: int)
    requires d <= 0
    ensures SeedVertices() <= Generated(d).vertices
  {
    GeneratedUnfold(d);
  }

  /** Every generated mesh is a closed manifold. */
  lemma {:induction false} GeneratedClosed(d: int)
    ensures ClosedManifold(Generated(d).triangles)
    decreases if d <= 0 then 0 else d
  {
    if d <= 0 {
      ClosedBase(d);
    } else {
      GeneratedClosed(d - 1);
      ClosedStep(d);
    }
  }

  lemma ClosedStep(d: int)
    requires d >= 1 && ClosedManifold(Generated(d - 1).triangles)
    ensures ClosedManifold(Generated(d).triangles)
  {
    var prev := Generated(d - 1);
    GeneratedUnfold(d);
    PassKeepsClosedManifold(prev.vertices, prev.triangles);
  }

  /**
   * How one pass changes the sizes, on a closed manifold: four triangles per
   * triangle, one cache entry and one new vertex per edge, and the spare
   * buffer keeps the pass's input.
   */
  lemma PassSizes(d: int)
    requires d >= 1
    ensures |Generated(d).triangles| == 4 * |Generated(d - 1).triangles|
    ensures |FinalCache(d)| == |Generated(d - 1).triangles| + |Generated(d - 1).triangles| / 2
    ensures |Generated(d).vertices| == |Generated(d - 1).vertices| + |FinalCache(d)|
    ensures |LeftoverTriangles(d)| == |Generated(d - 1).triangles|
  {
    var prev := Generated(d - 1);
    GeneratedClosed(d - 1);
    GeneratedUnfold(d);
    PassKeepsClosedManifold(prev.vertices, prev.triangles);
  }

  /** The sizes generateMesh predicts for a depth. */
  predicate SizesHold(d: int)
  {
    |Generated(d).triangles| == PredictedTriangleCount(d) && |Generated(d).vertices| == PredictedVertexCount(d)
  }

  /** Every generated mesh has the predicted numbers of triangles and vertices. */
  lemma {:induction false} GeneratedSizes(d: int)
    ensures SizesHold(d)
    decreases if d <= 0 then 0 else d
  {
    if d <= 0 {
      SizesBase(d);
    } else {
      GeneratedSizes(d - 1);
      SizesStep(d);
    }
  }

  /**
   * One pass from a mesh of the predicted size: the next mesh, the cache and
   * the spare buffer have the sizes generateMesh predicts and checks.
   */
  lemma SizesStep(d: int)
    requires d >= 1 && SizesHold(d - 1)
    ensures SizesHold(d)
    ensures |FinalCache(d)| == PredictedCacheSize(d)
    ensures |LeftoverTriangles(d)| == PredictedTriangleCount(d) / 4
  {
    var prev := Generated(d - 1);
    PassSizes(d);
    PassArithmetic(d, |prev.triangles|, |prev.vertices|, |FinalCache(d)|, |Generated(d).triangles|, |Generated(d).vertices|);
    PreviousQuarter(d, |prev.triangles|);
  }

  /** The vertex list only grows: the twelve seed vertices stay at the front. */
  lemma {:induction false} GeneratedKeepsSeed(d: int)
    ensures SeedVertices() <= Generated(d).vertices
    decreases if d <= 0 then 0 else d
  {
    if d <= 0 {
      KeepsSeedBase(d);
    } else {
      GeneratedKeepsSeed(d - 1);
      KeepsSeedStep(d);
    }
  }

  lemma KeepsSeedStep(d: int)
    requires d >= 1 && SeedVertices() <= Generated(d - 1).vertices
    ensures SeedVertices() <= Generated(d).vertices
  {
    var prev := Generated(d - 1);
    GeneratedUnfold(d);
    PassGrows(prev.vertices, prev.triangles);
    PrefixTransitive(SeedVertices(), prev.vertices, Generated(d).vertices);
  }

  lemma PrefixTransitive(a: seq<Vertex>, b: seq<Vertex>, c: seq<Vertex>)
    requires a <= b && b <= c
    ensures a <= c
  {
    assert c[..|a|] == c[..|b|][..|a|];
  }

  /** Without a pass the cache and the spare buffer stay empty. */
  lemma NoPassCounts(d: int)
    requires d <= 0
    ensures FinalCache(d) == map[] && PredictedCacheSize(d) == 0 && LeftoverTriangles(d) == []
  {
  }

  /** The cache and the spare buffer after the last of at least one pass. */
  lemma LastPassSizes(d: int)
    requires d >= 1
    ensures |FinalCache(d)| == PredictedCacheSize(d)
    ensures |LeftoverTriangles(d)| == PredictedTriangleCount(d) / 4
  {
    GeneratedSizes(d - 1);
    SizesStep(d);
  }

  /** The last pass leaves one cache entry per edge of its input; none when no pass runs. */
  lemma FinalCacheCount(d: int)
    ensures |FinalCache(d)| == PredictedCacheSize(d)
  {
    if d <= 0 {
      NoPassCounts(d);
    } else {
      LastPassSizes(d);
    }
  }

  /** The spare buffer ends holding the last pass's input, a quarter of the final triangles. */
  lemma LeftoverCount(d: int)
    ensures |LeftoverTriangles(d)| == (if d >= 1 then PredictedTriangleCount(d) / 4 else 0)
  {
    if d <= 0 {
      NoPassCounts(d);
    } else {
      LastPassSizes(d);
    }
  }

  /** The facts GeneratedCounts establishes for one depth. */
  predicate CountsHold(d: int)
  {
    && ClosedManifold(Generated(d).triangles)
    && SizesHold(d)
    && SeedVertices() <= Generated(d).vertices
    && |FinalCache(d)| == PredictedCacheSize(d)
    && |LeftoverTriangles(d)| == (if d >= 1 then PredictedTriangleCount(d) / 4 else 0)
  }

  /**
   * Every generated mesh is a closed manifold of the predicted size; the
   * vertex list only grows from the seed on; the last pass leaves the
   * predicted number of cache entries and a quarter of the final triangles
   * in the spare buffer.
   */
  lemma GeneratedCounts(d: int)
    ensures CountsHold(d)
  {
    GeneratedClosed(d);
    GeneratedSizes(d);
    GeneratedKeepsSeed(d);
    FinalCacheCount(d);
    LeftoverCount(d);
  }

  /** The spare-buffer check at the end of generateMesh, as written: a quarter of the predicted triangles. */
  predicate TmpCheckAsWritten(d: int)
  {
    |LeftoverTriangles(d)| == PredictedTriangleCount(d) / 4
  }

  /**
   * With no pass, the spare buffer is empty but the check as written wants
   * 20 / 4 = 5 triangles in it, so generateMesh(0) fails its own assertion.
   */
  lemma TmpCheckAsWrittenFailsWithoutPasses(d: int)
    requires d <= 0
    ensures !TmpCheckAsWritten(d)
    ensures |LeftoverTriangles(d)| == 0 && PredictedTriangleCount(d) / 4 == 5
  {
  }

  /** The check as written does hold once at least one pass has run. */
  lemma TmpCheckAsWrittenHoldsWithPasses(d: int)
    requires d >= 1
    ensures TmpCheckAsWritten(d)
  {
    GeneratedCounts(d);
  }

  /**
   * The local state of generateMesh: the vertex list, the two triangle
   * buffers (`triangles` is the current mesh, `tmpTriangles` the spare one
   * a pass writes into) and the edge cache.
   */
  class MeshBuilder {
    var vertices: seq<Vertex>
    var triangles: seq<Tri>
    var tmpTriangles: seq<Tri>
    var cache: map<EdgeId, int>

    /** The seed tables copied in, the spare buffer and the cache empty. */
    constructor ()
      ensures vertices == SeedVertices() && triangles == SeedTriangles()
      ensures tmpTriangles == [] && cache == map[]
    {
      vertices := SeedVertices();
      triangles := SeedTriangles();
      tmpTriangles := [];
      cache := map[];
    }

    /**
     * midVertexForEdge: the index of the midpoint of edge (first, second),
     * appending that midpoint and caching its index on the first request.
     */
    method MidVertexForEdge(first: int, second: int) returns (r: int)
      requires Key(first, second) in cache || (0 <= first < |vertices| && 0 <= second < |vertices|)
      modifies this`vertices, this`cache
      ensures Lookup(vertices, cache, r) == MidVertex(old(vertices), old(cache), first, second)
      ensures Key(first, second) in cache && cache[Key(first, second)] == r
      ensures Key(first, second) in old(cache) ==> vertices == old(vertices) && cache == old(cache)
      ensures Key(first, second) !in old(cache) ==>
        && r == |old(vertices)|
        && vertices == old(vertices) + [Mid(old(vertices)[Key(first, second).first], old(vertices)[Key(first, second).second])]
        && cache == old(cache)[Key(first, second) := r]
    {
      var lo, hi := first, second;
      if lo > hi {
        lo, hi := hi, lo;
      }
      var key := EdgeId(lo, hi);
      if key !in cache {
        cache := cache[key := |vertices|];
        vertices := vertices + [Mid(vertices[lo], vertices[hi])];
      }
      r := cache[key];
    }

    /**
     * subdivideMesh: clear the cache and the spare buffer, then replace
     * every triangle of `triangles` by its four, writing them to the spare
     * buffer. On a closed manifold the result is again one, and the cache
     * ends with one entry per edge, T + T/2 of them.
     */
    method SubdivideMesh()
      requires IndicesBelow(triangles, |vertices|)
      modifies this`vertices, this`cache, this`tmpTriangles
      ensures PassState(vertices, cache, tmpTriangles) == PassOver(old(vertices), triangles)
      ensures old(vertices) <= vertices
      ensures |tmpTriangles| == 4 * |triangles|
      ensures cache.Keys == EdgesOf(triangles)
      ensures IndicesBelow(tmpTriangles, |vertices|)
      ensures ClosedManifold(triangles) ==>
        && ClosedManifold(tmpTriangles)
        && |cache| == |triangles| + |triangles| / 2
        && |vertices| == |old(vertices)| + |triangles| + |triangles| / 2
    {
      cache := map[];
      tmpTriangles := [];
      var i := 0;
      while i < |triangles|
        invariant 0 <= i <= |triangles|
        invariant IndicesBelow(triangles, |old(vertices)|)
        invariant PassState(vertices, cache, tmpTriangles) == PassOver(old(vertices), triangles[..i])
      {
        assert triangles[..i + 1][..i] == triangles[..i];
        var t := triangles[i];
        var m01 := MidVertexForEdge(t.a, t.b);
        var m12 := MidVertexForEdge(t.b, t.c);
        var m20 := MidVertexForEdge(t.c, t.a);
        tmpTriangles := tmpTriangles + [Tri(t.a, m01, m20), Tri(t.b, m12, m01), Tri(t.c, m20, m12), Tri(m01, m12, m20)];
        i := i + 1;
      }
      assert triangles[..i] == triangles;
      PassCache(old(vertices), triangles);
      PassOutput(old(vertices), triangles);
      PassIndicesValid(old(vertices), triangles);
      if ClosedManifold(triangles) {
        PassKeepsClosedManifold(old(vertices), triangles);
      }
    }

    /**
     * The pass loop of generateMesh: from the seed state, run
     * `subdivisionCount` passes, swapping the current and the spare buffer
     * after each, so that `triangles` holds the newest mesh and
     * `tmpTriangles` the one before it.
     */
    method RunPasses(subdivisionCount: int)
      requires vertices == SeedVertices() && triangles == SeedTriangles()
      requires tmpTriangles == [] && cache == map[]
      modifies this
      ensures vertices == Generated(subdivisionCount).vertices
      ensures triangles == Generated(subdivisionCount).triangles
      ensures tmpTriangles == LeftoverTriangles(subdivisionCount)
      ensures cache == FinalCache(subdivisionCount)
    {
      var i := 0;
      GeneratedUnfold(0);
      while i < subdivisionCount
        invariant 0 <= i && (i <= subdivisionCount || i == 0)
        invariant IndexedMesh(vertices, triangles) == Generated(i)
        invariant tmpTriangles == LeftoverTriangles(i) && cache == FinalCache(i)
      {
        ghost var before := vertices;
        SubdivideMesh();
        PassStep(i, before, triangles, vertices, cache, tmpTriangles);
        triangles, tmpTriangles := tmpTriangles, triangles;
        i := i + 1;
      }
      GeneratedUnfold(subdivisionCount);
    }
  }

  /**
   * The prediction loop of generateMesh: per pass, the cache will hold
   * T + T/2 entries, the vertex count becomes 4V - 6 and the triangle
   * count 4T. A depth of zero or less leaves the seed sizes and no cache.
   */
  method PredictSizes(subdivisionCount: int) returns (vertexCount: int, triangleCount: int, cacheSize: int)
    ensures vertexCount == PredictedVertexCount(subdivisionCount)
    ensures triangleCount == PredictedTriangleCount(subdivisionCount)
    ensures cacheSize == PredictedCacheSize(subdivisionCount)
  {
    vertexCount := |SeedVertices()|;
    triangleCount := |SeedTriangles()|;
    cacheSize := 0;
    var i := 0;
    while i < subdivisionCount
      invariant 0 <= i && (i <= subdivisionCount || i == 0)
      invariant vertexCount == PredictedVertexCount(i)
      invariant triangleCount == PredictedTriangleCount(i)
      invariant cacheSize == PredictedCacheSize(i)
    {
      cacheSize := triangleCount + triangleCount / 2;
      vertexCount := vertexCount * 4 - 6;
      triangleCount := triangleCount * 4;
      i := i + 1;
    }
  }

  /**
   * generateMesh: predict the final sizes, run `subdivisionCount` passes
   * swapping the two triangle buffers after each, check the predictions
   * and hand back the vertex list and the current buffer.
   */
  method GenerateMesh(subdivisionCount: int) returns (mesh: IndexedMesh)
    ensures mesh == Generated(subdivisionCount)
    ensures subdivisionCount <= 0 ==> mesh == IndexedMesh(SeedVertices(), SeedTriangles())
    ensures |mesh.vertices| == PredictedVertexCount(subdivisionCount)
    ensures |mesh.triangles| == PredictedTriangleCount(subdivisionCount)
    ensures CountsHold(subdivisionCount)
  {
    var b := new MeshBuilder();
    var predictedVertexCount, predictedTriangleCount, predictedCacheSize := PredictSizes(subdivisionCount);
    b.RunPasses(subdivisionCount);
    GeneratedCounts(subdivisionCount);
    assert |b.vertices| == predictedVertexCount;
    assert |b.triangles| == predictedTriangleCount;
    assert |b.tmpTriangles| == (if subdivisionCount >= 1 then predictedTriangleCount / 4 else 0);
    assert |b.cache| == predictedCacheSize;
    mesh := IndexedMesh(b.vertices, b.triangles);
  }
}
