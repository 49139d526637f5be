/**
 * The size predictions that generateMesh computes before subdividing, and
 * what they mean: the triangle count quadruples per pass, each pass adds
 * one vertex per edge of its input, and every mesh on the way satisfies
 * Euler's formula for a sphere.
 */
module Growth {

  function Pow4(d: nat): (r: nat)
    ensures r >= 1
  {
    if d == 0 then 1 else 4 * Pow4(d - 1)
  }

  /** Triangles after `d` passes: the 20 faces of the icosahedron, times four per pass. */
  function PredictedTriangleCount(d: int): (t: nat)
    decreases if d <= 0 then 0 else d
  {
    if d <= 0 then 20 else 4 * PredictedTriangleCount(d - 1)
  }

  /** Vertices after `d` passes: the 12 icosahedron corners, then V := 4V - 6 per pass. */
  function PredictedVertexCount(d: int): int
    decreases if d <= 0 then 0 else d
  {
    if d <= 0 then 12 else 4 * PredictedVertexCount(d - 1) - 6
  }

  /**
   * Entries in the edge cache after the last pass: the edges of that pass's
   * input, T + T/2 for its T triangles; none when no pass runs.
   */
  function PredictedCacheSize(d: int): nat
  {
    if d <= 0 then 0 else PredictedTriangleCount(d - 1) + PredictedTriangleCount(d - 1) / 2
  }

  /** The triangle count is 20 * 4^d. */
  lemma {:induction false} TriangleCountClosedForm(d: nat)
    ensures PredictedTriangleCount(d) == 20 * Pow4(d)
  {
    if d > 0 {
      TriangleCountClosedForm(d - 1);
    }
  }

  /** The vertex count is 10 * 4^d + 2, so it never drops below 12 and 4V - 6 never underflows. */
  lemma {:induction false} VertexCountClosedForm(d: nat)
    ensures PredictedVertexCount(d) == 10 * Pow4(d) + 2
    ensures PredictedVertexCount(d) >= 12
  {
    if d > 0 {
      VertexCountClosedForm(d - 1);
    }
  }

  /**
   * For every depth, including the negative ones that run no pass, the
   * predicted vertex count is half the triangle count plus two, as for any
   * closed triangulated sphere.
   */
  lemma VerticesFromTriangles(d: int)
    ensures PredictedTriangleCount(d) % 2 == 0
    ensures PredictedVertexCount(d) == PredictedTriangleCount(d) / 2 + 2
  {
    var k: nat := if d <= 0 then 0 else d;
    TriangleCountClosedForm(k);
    VertexCountClosedForm(k);
  }

  /**
   * Euler's formula V - E + F = 2 for the predicted mesh, with E = T + T/2
   * edges (each edge shared by two of the T triangles).
   */
  lemma EulerCharacteristic(d: int)
    ensures PredictedVertexCount(d) - (PredictedTriangleCount(d) + PredictedTriangleCount(d) / 2) + PredictedTriangleCount(d) == 2
  {
    VerticesFromTriangles(d);
  }

  /** Each pass adds one vertex per cache entry, i.e. per edge of its input. */
  lemma VertexStep(d: int)
    requires d >= 1
    ensures PredictedVertexCount(d) == PredictedVertexCount(d - 1) + PredictedCacheSize(d)
    ensures 2 * PredictedCacheSize(d) == 3 * PredictedTriangleCount(d - 1)
  {
    VerticesFromTriangles(d - 1);
  }

  /**
   * One pass in numbers: if a mesh of the predicted size for depth d - 1
   * becomes four triangles per triangle and gains one vertex per edge, the
   * result has the predicted size for depth d, and its edge count is the
   * predicted cache size.
   */
  lemma PassArithmetic(d: int, t: int, v: int, c: int, t': int, v': int)
    requires d >= 1
    requires t == PredictedTriangleCount(d - 1) && v == PredictedVertexCount(d - 1)
    requires t' == 4 * t && c == t + t / 2 && v' == v + c
    ensures c == PredictedCacheSize(d)
    ensures t' == PredictedTriangleCount(d) && v' == PredictedVertexCount(d)
  {
    VertexStep(d);
  }

  /** The last pass's input has a quarter of the final triangles. */
  lemma PreviousQuarter(d: int, t: int)
    requires d >= 1 && t == PredictedTriangleCount(d - 1)
    ensures t == PredictedTriangleCount(d) / 4
  {
  }

  /** The figures for the depths worth knowing by heart, 4 being the benchmark's. */
  lemma ConcreteCounts()
    ensures PredictedVertexCount(0) == 12 && PredictedTriangleCount(0) == 20 && PredictedCacheSize(0) == 0
    ensures PredictedVertexCount(1) == 42 && PredictedTriangleCount(1) == 80 && PredictedCacheSize(1) == 30
    ensures PredictedVertexCount(2) == 162 && PredictedTriangleCount(2) == 320 && PredictedCacheSize(2) == 120
    ensures PredictedVertexCount(4) == 2562 && PredictedTriangleCount(4) == 5120 && PredictedCacheSize(4) == 1920
  {
  }
}
