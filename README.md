# Icosphere topology

A model of the icosphere generator in `main.c`. The generator starts from a
regular icosahedron (12 corners, 20 faces). It then runs a requested number of
subdivision passes. Each pass splits every triangle into four and adds one new
vertex per edge, at the edge's midpoint. An edge cache, keyed by the ordered
index pair `EdgeId`, makes sure the two triangles that share an edge also share
its midpoint.

The model works at the level of indices. A `Vertex` is symbolic: it is either
one of the twelve icosahedron corners or `Normalized(p, q)`, the normalised sum
of two earlier vertices. A triangle is a triple of indices, and the edge cache
is a `map<EdgeId, int>`.

Modules:

- `Topology` defines vertices, triangles and the canonical edge key. It also
  defines the set of edges of a triangle list and the closed-manifold shape
  (`ClosedManifold`): every directed edge occurs once, its reverse occurs too,
  faces are distinct and corners within a face are distinct. This is an
  edge-manifold condition. It does not require the faces around a vertex to
  form a single fan.
- `EdgeCount` proves that a closed manifold with T faces has exactly T + T/2
  edges.
- `Subdivision` specifies the code as functions on values:
  - `MidVertex` is one call of `midVertexForEdge`;
  - `SplitTriangle` is one iteration of the loop in `subdivideMesh`;
  - `PassOver` is a whole pass.

  It then proves what a pass computes.
- `Preservation` proves that a pass turns a closed manifold into a closed
  manifold.
- `Growth` holds the size predictions of `generateMesh` and their closed forms.
- `Seed` holds the initial vertex and triangle tables. It proves that they form
  a closed manifold with 30 edges.
- `Icosphere` has three parts:
  - `Generated(d)`, the mesh after `d` passes;
  - a class `MeshBuilder` holding the local state of `generateMesh`: the vertex
    list, the two triangle buffers and the cache. Its methods update that state
    in place, like the C code.
  - the methods `PredictSizes` and `GenerateMesh`.

  Every method is proved to end in the state the functions compute. The
  assertions at the end of `subdivideMesh` and `generateMesh` are proved as
  postconditions, with one exception (see Findings).

A `subdivisionCount` of zero or below runs no pass in the code, because both
loops run while `i < subdivisionCount`. The model treats every such depth the
same way.

## Model

| member | source | states |
|---|---|---|
| Topology.Key | main.c:39-44 | the key stores the smaller index first and holds exactly the two given endpoints |
| Topology.KeyOrderIndependent | main.c:39-44 | an edge and its reverse get the same key |
| Topology.KeyEqual | main.c:27-29 | two keys compare equal (field by field, as EdgeId_eq does) exactly when the edges have the same endpoints, in either order |
| Topology.EdgesOfMember | main.c:60-66 | a key belongs to the edges of a triangle list exactly when some side of some triangle has that key; these are the keys a pass looks up |
| Subdivision.MidVertex | main.c:38-55 | a lookup never shrinks the vertex list |
| Subdivision.MidVertexOutcome | main.c:38-55 | on a hit, nothing changes and the stored index is returned; on a miss, the index is the old vertex count, exactly one vertex is appended (the normalised sum of the edge's endpoints), exactly one key is added and old entries keep their values; either way the key then maps to the returned index |
| Subdivision.MidVertexOrderIndependent | main.c:38-55 | asking for (a, b) or (b, a) in the same state gives the same result and the same new state |
| Subdivision.Quad | main.c:67-70 | the four triangles that replace one triangle; its contract gives their number, 4 |
| Subdivision.QuadSharesMidpoints | main.c:67-70 | the three corner triangles keep their corners; each midpoint index is the cache entry of its edge and is shared by the two corner triangles on that edge and by the centre triangle |
| Subdivision.SplitAll | main.c:60-71 | the quads of all triangles in input order; its contract gives the length, four per input triangle |
| Subdivision.SplitTriangle | main.c:61-70 | one loop iteration: three lookups, taken left to right, then four appended triangles; its own contract states only that the vertex list does not shrink (PassOverInvariant states the rest) |
| Subdivision.PassOver | main.c:57-74 | the whole pass from an empty cache and output; its own contract states only that the vertex list does not shrink; PassCache, PassOutput and PassIndicesValid state what it computes |
| Subdivision.PassOverInvariant | main.c:60-71 | after any prefix of the triangles: the cache keys are exactly that prefix's edges; the old vertices are untouched; one vertex is appended per entry; entries are distinct, fresh and hold their edge's midpoint; the output is four triangles per input triangle |
| Subdivision.PassGrows | main.c:49-50 | a pass only appends to the vertex list |
| Subdivision.PassCache | main.c:58-71 | after a pass the cache has one entry per distinct input edge and no other; there is one new vertex per entry; each entry names its own new vertex, which is the midpoint of that edge |
| Subdivision.PassOutput | main.c:59-72 | the output has 4T triangles in input order: (v0, m01, m20), (v1, m12, m01), (v2, m20, m12), (m01, m12, m20), with each midpoint taken from the cache under its canonical key |
| Subdivision.PassIndicesValid | main.c:60-71 | if every input index is a valid vertex index, so is every output index after the pass |
| EdgeCount.ClosedManifoldEdgeCount | main.c:73 | a closed manifold with T faces has 3T/2 edges, which equals T + T/2 |
| Preservation.SplitAllClosedManifold | main.c:60-71 | splitting every triangle of a closed manifold into four, with a distinct fresh midpoint per edge, gives a closed manifold |
| Preservation.PassKeepsClosedManifold | main.c:57-74 | a pass over a closed manifold gives a closed manifold with 4T faces; the cache ends with T + T/2 entries and T + T/2 vertices are added, so both asserts of subdivideMesh hold |
| Growth.TriangleCountClosedForm | main.c:115-121 | the predicted triangle count is 20 * 4^d |
| Growth.VertexCountClosedForm | main.c:114-121 | the predicted vertex count is 10 * 4^d + 2, so it never falls below 12 and 4V - 6 never goes negative |
| Growth.VerticesFromTriangles | main.c:114-121 | for every depth, T is even and V = T/2 + 2 |
| Growth.EulerCharacteristic | main.c:114-121 | V - (T + T/2) + T = 2 for the predicted sizes |
| Growth.VertexStep | main.c:117-120 | V(d) = V(d-1) + C(d), where C(d) is the predicted cache size and 2C(d) = 3T(d-1) |
| Growth.PassArithmetic | main.c:117-120 | a mesh of the predicted size for d-1 that quadruples its faces and gains one vertex per edge has the predicted sizes for d, and its edge count is the predicted cache size |
| Growth.PreviousQuarter | main.c:127 | after at least one pass, the input of the last pass has a quarter of the predicted triangle count |
| Growth.ConcreteCounts | main.c:114-121 | depth 0 gives 12/20/0 (vertices/triangles/cache), depth 1 gives 42/80/30, depth 2 gives 162/320/120, depth 4 gives 2562/5120/1920 |
| Seed.SeedVertices | main.c:80-84 | the initial vertex table has twelve entries, corner k at index k |
| Seed.SeedTriangles | main.c:89-94 | the initial triangle table has twenty rows |
| Seed.SeedClosedManifold | main.c:89-94 | the twenty faces index only the twelve corners and form a closed manifold |
| Seed.SeedEdgeCount | main.c:89-94 | the icosahedron has 30 edges, which is the cache size after the first pass |
| Icosphere.Generated | main.c:129-134 | every generated mesh has valid triangle indices |
| Icosphere.LeftoverTriangles | main.c:131-133 | what the final swap leaves in the spare buffer: nothing when no pass runs, otherwise a quarter as many triangles as the current mesh |
| Icosphere.FinalCache | main.c:129-139 | the cache after the last pass: empty when no pass runs, otherwise keyed by exactly the edges of that pass's input |
| Icosphere.PassStep | main.c:130-133 | the state one more pass leaves is the mesh, spare buffer and cache that Generated, LeftoverTriangles and FinalCache give for the next depth |
| Icosphere.GeneratedClosed | main.c:129-134 | every generated mesh is a closed manifold |
| Icosphere.PassSizes | main.c:129-134 | pass d quadruples the triangles; it leaves T + T/2 cache entries, adds one vertex per entry and leaves its input in the spare buffer |
| Icosphere.GeneratedSizes | main.c:136-137 | every generated mesh has exactly the predicted numbers of vertices and triangles |
| Icosphere.SizesStep | main.c:136-139 | one pass from a mesh of the predicted size reaches the predicted sizes, the predicted cache size and a quarter of the predicted triangles in the spare buffer |
| Icosphere.GeneratedKeepsSeed | main.c:96-99 | the twelve seed vertices stay at the front of the vertex list at every depth |
| Icosphere.NoPassCounts | main.c:116 | with no pass the cache and the spare buffer stay empty, and the predicted cache size is 0 |
| Icosphere.LastPassSizes | main.c:138-139 | after at least one pass, the cache and the spare buffer have the predicted sizes |
| Icosphere.FinalCacheCount | main.c:139 | the cache ends with the predicted number of entries at every depth |
| Icosphere.LeftoverCount | main.c:138 | corrected check: the spare buffer ends with a quarter of the predicted triangles after at least one pass, and empty otherwise |
| Icosphere.GeneratedCounts | main.c:129-139 | at every depth: closed manifold, predicted sizes, seed prefix, predicted cache size, and the corrected spare-buffer size |
| Icosphere.TmpCheckAsWrittenFailsWithoutPasses | main.c:138 | the check as written fails at every depth of 0 or below: the spare buffer is empty while 20/4 = 5 is expected |
| Icosphere.TmpCheckAsWrittenHoldsWithPasses | main.c:138 | the check as written holds once at least one pass has run |
| Icosphere.MeshBuilder.constructor | main.c:96-112 | the seed tables are copied in; the spare buffer and the cache start empty |
| Icosphere.MeshBuilder.MidVertexForEdge | main.c:38-55 | updates the vertex list and cache exactly as MidVertex does: on a hit the state is unchanged; on a miss the index is the old vertex count, the midpoint is appended and the key is cached |
| Icosphere.MeshBuilder.SubdivideMesh | main.c:57-74 | ends in the state PassOver computes, with the cache keys equal to the input's edges, 4T output triangles and valid indices; on a closed manifold, also a closed-manifold output, T + T/2 cache entries and T + T/2 new vertices |
| Icosphere.MeshBuilder.RunPasses | main.c:129-134 | after the passes and buffer swaps: the current buffer holds Generated(d); the spare buffer holds the last pass's input (empty if no pass ran); the cache is the last pass's cache |
| Icosphere.PredictSizes | main.c:114-121 | the loop's results equal the predicted vertex count, triangle count and cache size |
| Icosphere.GenerateMesh | main.c:76-149 | returns Generated(d), which is the unmodified seed at depth 0 or below; the result has the predicted sizes; the closed-manifold, seed-prefix, cache and spare-buffer facts all hold |

## Left out

- Vertex coordinates are not modelled: the X and Z constants, vector addition and normalisation (main.c:50-52, 77-87). A vertex is the symbolic normalised sum of its two parents.
- EdgeId_hash and the hash table's internals (main.c:23-25, 31, 47) are modelled as a `map<EdgeId, int>`. Growth, collisions and `ht_reserve`/`dynvec_reserve` (main.c:123-127) do not change the map's contents, so they are not modelled.
- Buffer ownership and lifetime (`dynvec_init`, `ht_init`, `ht_destroy`, `dynvec_destroy`, main.c:97, 105, 109, 112, 141-142) are left out. Sequences and maps are values in the model.
- The benchmark driver (main.c:151-186: timing, the repeated `generateMesh(4)` calls, reporting) is not part of this model. Its only link to the core is that it calls `generateMesh(4)`, whose sizes `Growth.ConcreteCounts` states.
- `int` and `size_t` widths are not modelled: indices and counts are unbounded integers, so the overflow a very large `subdivisionCount` would cause in the C code is outside the model.
- An `assert` that fails in the C code aborts the program; the model has no abort path. The asserts are proved instead, with the exception recorded under Findings.
- Icosphere.MeshBuilder.SubdivideMesh: the cache-size assert (main.c:73) is proved only when the input is a closed manifold. For other input the model states the exact cache contents (one entry per distinct edge), which need not number T + T/2.
- Subdivision.SplitTriangle: the three midpoint lookups at main.c:62-66 are initialisers of one array, and C leaves their order of evaluation unspecified. The model assumes left to right (v0v1, then v1v2, then v2v0). That order fixes which new index each midpoint gets, so `PassOver` and the equality in `Icosphere.MeshBuilder.SubdivideMesh`'s contract describe the numbering of one possible order only. Another order would permute the new indices within a triangle. It would not change the cache keys, the counts, the validity of indices, the closed-manifold output or the sharing of midpoints, but the model proves those facts for the left-to-right order only.
- A negative `subdivisionCount` is accepted and behaves like 0, as in the code.

## Findings

| source | as written | input that shows it | evidently intended | confidence | as-written member | corrected member |
|---|---|---|---|---|---|---|
| main.c:138 | generateMesh checks that the spare triangle buffer holds a quarter of the predicted triangle count, even when no pass has run | `generateMesh(0)`: the spare buffer is empty, but the predicted count is 20, so the check expects 5 and the assertion fails | the spare buffer holds the last pass's input, which is a quarter of the final count after at least one pass and empty otherwise; depth 0 is meant to return the seed mesh | not executed | Icosphere.TmpCheckAsWrittenFailsWithoutPasses | Icosphere.LeftoverCount |
