/**
 * The edge-midpoint cache and one subdivision pass, as functions on values:
 * `MidVertex` is one call of midVertexForEdge, `SplitTriangle` is one
 * iteration of subdivideMesh's loop and `PassOver` is the whole pass. The
 * class in module Icosphere runs the same steps in place and is proved to
 * end in the state these functions compute.
 */
module Subdivision {
  import opened Topology

  /** What a cache lookup leaves behind: the vertex list, the cache and the returned index. */
  datatype Lookup = Lookup(vertices: seq<Vertex>, cache: map<EdgeId, int>, index: int)

  /**
   * One call of midVertexForEdge: canonicalise the edge, and on a miss record
   * the current vertex count as the new midpoint's index and append the
   * midpoint. Either way, return the index stored under the key. The
   * endpoints are read only on a miss.
   */
  function MidVertex(vertices: seq<Vertex>, cache: map<EdgeId, int>, first: int, second: int): (r: Lookup)
    requires Key(first, second) in cache || (0 <= first < |vertices| && 0 <= second < |vertices|)
    ensures |r.vertices| >= |vertices|
  {
    var key := Key(first, second);
    if key in cache then
      Lookup(vertices, cache, cache[key])
    else
      Lookup(vertices + [Mid(vertices[key.first], vertices[key.second])], cache[key := |vertices|], |vertices|)
  }

  /**
   * The two outcomes of a lookup. A hit changes nothing and returns the
   * stored index. A miss appends exactly one vertex, the midpoint of the
   * canonical edge, returns the vertex count from before the call, and adds
   * exactly that one key to the cache. Either way the key is afterwards
   * mapped to the returned index.
   */
  lemma MidVertexOutcome(vertices: seq<Vertex>, cache: map<EdgeId, int>, first: int, second: int)
    requires Key(first, second) in cache || (0 <= first < |vertices| && 0 <= second < |vertices|)
    ensures var r := MidVertex(vertices, cache, first, second);
      && Key(first, second) in r.cache && r.cache[Key(first, second)] == r.index
      && (Key(first, second) in cache ==> r == Lookup(vertices, cache, cache[Key(first, second)]))
      && (Key(first, second) !in cache ==>
            && r.index == |vertices|
            && |r.vertices| == |vertices| + 1
            && r.vertices[..|vertices|] == vertices
            && r.vertices[|vertices|] == Mid(vertices[Key(first, second).first], vertices[Key(first, second).second])
            && r.cache.Keys == cache.Keys + {Key(first, second)}
            && (forall e :: e in cache ==> r.cache[e] == cache[e]))
  {
  }

  /** Looking up (a, b) and (b, a) in the same state has the same effect and result. */
  lemma MidVertexOrderIndependent(vertices: seq<Vertex>, cache: map<EdgeId, int>, a: int, b: int)
    requires Key(a, b) in cache || (0 <= a < |vertices| && 0 <= b < |vertices|)
    ensures MidVertex(vertices, cache, a, b) == MidVertex(vertices, cache, b, a)
  {
    KeyOrderIndependent(a, b);
  }

  /** The state of a pass: vertices so far, the cache, and the output triangles so far. */
  datatype PassState = PassState(vertices: seq<Vertex>, cache: map<EdgeId, int>, out: seq<Tri>)

  /** The four triangles that replace `t`, given the midpoint index of each of its edges. */
  function Quad(t: Tri, cache: map<EdgeId, int>): (r: seq<Tri>)
    requires Key(t.a, t.b) in cache && Key(t.b, t.c) in cache && Key(t.c, t.a) in cache
    ensures |r| == 4
  {
    var m01 := cache[Key(t.a, t.b)];
    var m12 := cache[Key(t.b, t.c)];
    var m20 := cache[Key(t.c, t.a)];
    [Tri(t.a, m01, m20), Tri(t.b, m12, m01), Tri(t.c, m20, m12), Tri(m01, m12, m20)]
  }

  /**
   * The shape of a quad: one triangle at each corner, keeping that corner,
   * and one in the centre; each midpoint is shared by the two corner
   * triangles on its edge and by the centre one.
   */
  lemma QuadSharesMidpoints(t: Tri, cache: map<EdgeId, int>)
    requires Key(t.a, t.b) in cache && Key(t.b, t.c) in cache && Key(t.c, t.a) in cache
    ensures var r := Quad(t, cache);
      && r[0].a == t.a && r[1].a == t.b && r[2].a == t.c
      && r[0].b == r[1].c == r[3].a == cache[Key(t.a, t.b)]
      && r[1].b == r[2].c == r[3].b == cache[Key(t.b, t.c)]
      && r[2].b == r[0].c == r[3].c == cache[Key(t.c, t.a)]
  {
  }

  /** The quads of all triangles, in input order, for a fixed edge-to-midpoint map. */
  function SplitAll(tris: seq<Tri>, cache: map<EdgeId, int>): (r: seq<Tri>)
    requires EdgesOf(tris) <= cache.Keys
    ensures |r| == 4 * |tris|
  {
    if tris == [] then []
    else SplitAll(tris[..|tris| - 1], cache) + Quad(tris[|tris| - 1], cache)
  }

  /**
   * One iteration of the pass loop: the three midpoint lookups, taken left
   * to right (v0v1, v1v2, v2v0), and the four appended triangles. C leaves
   * the order of the lookups inside the initialiser unspecified; this order
   * fixes which new index each midpoint gets.
   */
  function SplitTriangle(st: PassState, t: Tri): (r: PassState)
    requires TriBelow(t, |st.vertices|)
    ensures |r.vertices| >= |st.vertices|
  {
    var l01 := MidVertex(st.vertices, st.cache, t.a, t.b);
    var l12 := MidVertex(l01.vertices, l01.cache, t.b, t.c);
    var l20 := MidVertex(l12.vertices, l12.cache, t.c, t.a);
    PassState(l20.vertices, l20.cache,
              st.out + [Tri(t.a, l01.index, l20.index), Tri(t.b, l12.index, l01.index),
                        Tri(t.c, l20.index, l12.index), Tri(l01.index, l12.index, l20.index)])
  }

  /** A whole pass over `tris`: it starts from an empty cache and an empty output. */
  function PassOver(vertices: seq<Vertex>, tris: seq<Tri>): (r: PassState)
    requires IndicesBelow(tris, |vertices|)
    ensures |r.vertices| >= |vertices|
  {
    if tris == [] then PassState(vertices, map[], [])
    else SplitTriangle(PassOver(vertices, tris[..|tris| - 1]), tris[|tris| - 1])
  }

  /**
   * What a pass over some prefix of the input guarantees about the state:
   * the old vertices are untouched, the cache holds exactly the edges seen so
   * far, each mapped to its own new vertex (the new vertices are exactly
   * those indices), each new vertex is the midpoint of its edge, and the
   * output is the quads of the triangles seen so far.
   */
  predicate PassInvariant(vertices: seq<Vertex>, seen: seq<Tri>, st: PassState)
  {
    && CacheInvariant(vertices, EdgesOf(seen), st.vertices, st.cache)
    && st.out == SplitAll(seen, st.cache)
  }

  /**
   * The cache part of PassInvariant, for the state between two lookups:
   * the cache holds exactly `keys`.
   */
  predicate CacheInvariant(vertices: seq<Vertex>, keys: set<EdgeId>, vs: seq<Vertex>, cache: map<EdgeId, int>)
  {
    && vertices <= vs
    && cache.Keys == keys
    && |vs| == |vertices| + |cache|
    && (forall e :: e in cache ==> |vertices| <= cache[e] < |vs|)
    && (forall e1, e2 :: e1 in cache && e2 in cache && cache[e1] == cache[e2] ==> e1 == e2)
    && (forall e :: e in cache ==>
          && 0 <= e.first < |vertices| && 0 <= e.second < |vertices|
          && vs[cache[e]] == Mid(vertices[e.first], vertices[e.second]))
  }

  /** Recording a fresh edge under the next vertex index keeps the cache invariant. */
  lemma InsertKeepsInvariant(vertices: seq<Vertex>, keys: set<EdgeId>, vs: seq<Vertex>, cache: map<EdgeId, int>, key: EdgeId)
    requires CacheInvariant(vertices, keys, vs, cache)
    requires key !in cache
    requires 0 <= key.first < |vertices| && 0 <= key.second < |vertices|
    ensures CacheInvariant(vertices, keys + {key}, vs + [Mid(vs[key.first], vs[key.second])], cache[key := |vs|])
  {
    AppendKeepsPrefix(vertices, vs, Mid(vs[key.first], vs[key.second]));
    InsertFreshKey(cache, key, |vs|);
    InsertKeepsEntries(vertices, vs, cache, key);
  }

  lemma AppendKeepsPrefix(vertices: seq<Vertex>, vs: seq<Vertex>, v: Vertex)
    requires vertices <= vs
    ensures vertices <= vs + [v]
  {
    assert (vs + [v])[..|vertices|] == vs[..|vertices|];
  }

  lemma InsertFreshKey(cache: map<EdgeId, int>, key: EdgeId, v: int)
    requires key !in cache
    ensures cache[key := v].Keys == cache.Keys + {key}
    ensures |cache[key := v]| == |cache| + 1
  {
    assert cache[key := v].Keys == cache.Keys + {key};
  }

  /** The entry-wise part of the cache invariant survives recording a fresh edge. */
  lemma InsertKeepsEntries(vertices: seq<Vertex>, vs: seq<Vertex>, cache: map<EdgeId, int>, key: EdgeId)
    requires vertices <= vs && |vs| == |vertices| + |cache|
    requires forall e :: e in cache ==> |vertices| <= cache[e] < |vs|
    requires forall e1, e2 :: e1 in cache && e2 in cache && cache[e1] == cache[e2] ==> e1 == e2
    requires forall e :: e in cache ==>
      && 0 <= e.first < |vertices| && 0 <= e.second < |vertices|
      && vs[cache[e]] == Mid(vertices[e.first], vertices[e.second])
    requires key !in cache
    requires 0 <= key.first < |vertices| && 0 <= key.second < |vertices|
    ensures var vs', cache' := vs + [Mid(vs[key.first], vs[key.second])], cache[key := |vs|];
      && (forall e :: e in cache' ==> |vertices| <= cache'[e] < |vs'|)
      && (forall e1, e2 :: e1 in cache' && e2 in cache' && cache'[e1] == cache'[e2] ==> e1 == e2)
      && (forall e :: e in cache' ==>
            && 0 <= e.first < |vertices| && 0 <= e.second < |vertices|
            && vs'[cache'[e]] == Mid(vertices[e.first], vertices[e.second]))
  {
    var vs' := vs + [Mid(vs[key.first], vs[key.second])];
    var cache' := cache[key := |vs|];
    forall e | e in cache'
      ensures 0 <= e.first < |vertices| && 0 <= e.second < |vertices|
      ensures vs'[cache'[e]] == Mid(vertices[e.first], vertices[e.second])
    {
      if e != key {
        assert vs'[cache'[e]] == vs[cache[e]];
      } else {
        assert vs[key.first] == vertices[key.first];
        assert vs[key.second] == vertices[key.second];
      }
    }
  }

  /** A lookup of an edge between two old vertices keeps the cache invariant. */
  lemma MidVertexKeepsInvariant(vertices: seq<Vertex>, keys: set<EdgeId>, vs: seq<Vertex>, cache: map<EdgeId, int>, a: int, b: int)
    requires CacheInvariant(vertices, keys, vs, cache)
    requires 0 <= a < |vertices| && 0 <= b < |vertices|
    ensures var l := MidVertex(vs, cache, a, b);
      && CacheInvariant(vertices, keys + {Key(a, b)}, l.vertices, l.cache)
      && Extends(cache, l.cache)
  {
    var key := Key(a, b);
    if key !in cache {
      InsertKeepsInvariant(vertices, keys, vs, cache, key);
    } else {
      assert keys + {key} == keys;
    }
  }

  /** SplitAll only looks at the cache entries of the edges it is given. */
  lemma {:induction false} SplitAllFrame(tris: seq<Tri>, c1: map<EdgeId, int>, c2: map<EdgeId, int>)
    requires EdgesOf(tris) <= c1.Keys && EdgesOf(tris) <= c2.Keys
    requires forall e :: e in EdgesOf(tris) ==> c1[e] == c2[e]
    ensures SplitAll(tris, c1) == SplitAll(tris, c2)
  {
    if tris != [] {
      SplitAllFrame(tris[..|tris| - 1], c1, c2);
    }
  }

  /** `c2` keeps every entry of `c1`. */
  predicate Extends(c1: map<EdgeId, int>, c2: map<EdgeId, int>)
  {
    forall e :: e in c1 ==> e in c2 && c2[e] == c1[e]
  }

  /**
   * The three lookups of one loop iteration keep the cache invariant and
   * leave earlier entries alone.
   */
  lemma SplitTriangleCache(vertices: seq<Vertex>, keys: set<EdgeId>, st: PassState, t: Tri)
    requires CacheInvariant(vertices, keys, st.vertices, st.cache)
    requires TriBelow(t, |vertices|)
    ensures var r := SplitTriangle(st, t);
      && CacheInvariant(vertices, keys + {Key(t.a, t.b)} + {Key(t.b, t.c)} + {Key(t.c, t.a)}, r.vertices, r.cache)
      && Extends(st.cache, r.cache)
  {
    MidVertexKeepsInvariant(vertices, keys, st.vertices, st.cache, t.a, t.b);
    var l01 := MidVertex(st.vertices, st.cache, t.a, t.b);
    MidVertexKeepsInvariant(vertices, keys + {Key(t.a, t.b)}, l01.vertices, l01.cache, t.b, t.c);
    var l12 := MidVertex(l01.vertices, l01.cache, t.b, t.c);
    MidVertexKeepsInvariant(vertices, keys + {Key(t.a, t.b)} + {Key(t.b, t.c)}, l12.vertices, l12.cache, t.c, t.a);
    var l20 := MidVertex(l12.vertices, l12.cache, t.c, t.a);
    assert SplitTriangle(st, t).vertices == l20.vertices;
    assert SplitTriangle(st, t).cache == l20.cache;
  }

  /** One loop iteration appends the quad of `t`, read from the cache it leaves behind. */
  lemma SplitTriangleOut(st: PassState, t: Tri)
    requires TriBelow(t, |st.vertices|)
    ensures var r := SplitTriangle(st, t);
      && Key(t.a, t.b) in r.cache && Key(t.b, t.c) in r.cache && Key(t.c, t.a) in r.cache
      && r.out == st.out + Quad(t, r.cache)
  {
    MidVertexOutcome(st.vertices, st.cache, t.a, t.b);
    var l01 := MidVertex(st.vertices, st.cache, t.a, t.b);
    MidVertexOutcome(l01.vertices, l01.cache, t.b, t.c);
    var l12 := MidVertex(l01.vertices, l01.cache, t.b, t.c);
    MidVertexOutcome(l12.vertices, l12.cache, t.c, t.a);
    var l20 := MidVertex(l12.vertices, l12.cache, t.c, t.a);
    assert l12.cache[Key(t.a, t.b)] == l01.index;
    assert l20.cache[Key(t.a, t.b)] == l01.index;
    assert l20.cache[Key(t.b, t.c)] == l12.index;
  }

  /** SplitAll on a non-empty list: the quads of the earlier triangles, then the last one's. */
  lemma SplitAllLast(tris: seq<Tri>, cache: map<EdgeId, int>)
    requires tris != [] && EdgesOf(tris) <= cache.Keys
    ensures EdgesOf(tris[..|tris| - 1]) <= cache.Keys
    ensures var t := tris[|tris| - 1];
      && Key(t.a, t.b) in cache && Key(t.b, t.c) in cache && Key(t.c, t.a) in cache
      && SplitAll(tris, cache) == SplitAll(tris[..|tris| - 1], cache) + Quad(t, cache)
  {
  }

  /** One loop iteration, on the last triangle of `tris`, keeps the pass invariant. */
  lemma SplitTriangleKeepsInvariant(vertices: seq<Vertex>, tris: seq<Tri>, st: PassState)
    requires tris != []
    requires PassInvariant(vertices, tris[..|tris| - 1], st)
    requires TriBelow(tris[|tris| - 1], |vertices|)
    ensures PassInvariant(vertices, tris, SplitTriangle(st, tris[|tris| - 1]))
  {
    var seen, t := tris[..|tris| - 1], tris[|tris| - 1];
    SplitTriangleCache(vertices, EdgesOf(seen), st, t);
    SplitTriangleOut(st, t);
    var r := SplitTriangle(st, t);
    SplitAllFrame(seen, st.cache, r.cache);
    SplitAllLast(tris, r.cache);
  }

  /** Every prefix of the pass satisfies the pass invariant. */
  lemma {:induction false} PassOverInvariant(vertices: seq<Vertex>, tris: seq<Tri>)
    requires IndicesBelow(tris, |vertices|)
    ensures PassInvariant(vertices, tris, PassOver(vertices, tris))
  {
    if tris != [] {
      PassOverInvariant(vertices, tris[..|tris| - 1]);
      SplitTriangleKeepsInvariant(vertices, tris, PassOver(vertices, tris[..|tris| - 1]));
    }
  }

  /** The three edges of every triangle of `tris` are in EdgesOf(tris). */
  lemma TriangleEdgesIn(tris: seq<Tri>, i: int)
    requires 0 <= i < |tris|
    ensures Key(tris[i].a, tris[i].b) in EdgesOf(tris)
    ensures Key(tris[i].b, tris[i].c) in EdgesOf(tris)
    ensures Key(tris[i].c, tris[i].a) in EdgesOf(tris)
  {
    EdgeKeyInEdgesOf(tris, i, 0);
    EdgeKeyInEdgesOf(tris, i, 1);
    EdgeKeyInEdgesOf(tris, i, 2);
  }

  /** SplitAll emits the quad of triangle i at positions 4i .. 4i+3. */
  lemma {:induction false} SplitAllShape(tris: seq<Tri>, cache: map<EdgeId, int>)
    requires EdgesOf(tris) <= cache.Keys
    ensures |SplitAll(tris, cache)| == 4 * |tris|
    ensures forall i :: 0 <= i < |tris| ==>
      && Key(tris[i].a, tris[i].b) in cache && Key(tris[i].b, tris[i].c) in cache && Key(tris[i].c, tris[i].a) in cache
      && SplitAll(tris, cache)[4 * i .. 4 * i + 4] == Quad(tris[i], cache)
  {
    forall i | 0 <= i < |tris|
      ensures Key(tris[i].a, tris[i].b) in cache && Key(tris[i].b, tris[i].c) in cache && Key(tris[i].c, tris[i].a) in cache
    {
      TriangleEdgesIn(tris, i);
    }
    if tris != [] {
      var n := |tris| - 1;
      var pre := tris[..n];
      assert EdgesOf(pre) <= EdgesOf(tris);
      SplitAllShape(pre, cache);
      var out := SplitAll(tris, cache);
      assert out == SplitAll(pre, cache) + Quad(tris[n], cache);
      forall i | 0 <= i < |tris|
        ensures out[4 * i .. 4 * i + 4] == Quad(tris[i], cache)
      {
        if i < n {
          assert pre[i] == tris[i];
          assert out[4 * i .. 4 * i + 4] == SplitAll(pre, cache)[4 * i .. 4 * i + 4];
        } else {
          assert out[4 * i .. 4 * i + 4] == Quad(tris[n], cache);
        }
      }
    }
  }

  /** A pass only appends to the vertex list. */
  lemma PassGrows(vertices: seq<Vertex>, tris: seq<Tri>)
    requires IndicesBelow(tris, |vertices|)
    ensures vertices <= PassOver(vertices, tris).vertices
  {
    PassOverInvariant(vertices, tris);
  }

  /**
   * After a pass, the cache holds exactly one entry per distinct edge of the
   * input; the old vertices are unchanged; one vertex was appended per
   * entry; and every entry names its own new vertex, which is the midpoint
   * of that edge's endpoints.
   */
  lemma PassCache(vertices: seq<Vertex>, tris: seq<Tri>)
    requires IndicesBelow(tris, |vertices|)
    ensures var p := PassOver(vertices, tris);
      && p.cache.Keys == EdgesOf(tris)
      && vertices <= p.vertices
      && |p.vertices| == |vertices| + |p.cache|
      && (forall e :: e in p.cache ==> |vertices| <= p.cache[e] < |p.vertices|)
      && (forall e1, e2 :: e1 in p.cache && e2 in p.cache && p.cache[e1] == p.cache[e2] ==> e1 == e2)
      && (forall e :: e in p.cache ==>
            && 0 <= e.first < |vertices| && 0 <= e.second < |vertices|
            && p.vertices[p.cache[e]] == Mid(vertices[e.first], vertices[e.second]))
  {
    PassOverInvariant(vertices, tris);
  }

  /**
   * After a pass, the output holds four triangles per input triangle, in
   * input order: (v0, m01, m20), (v1, m12, m01), (v2, m20, m12) and
   * (m01, m12, m20), where each midpoint index is the cache entry of the
   * canonical edge, so both triangles on an edge, whatever their winding,
   * use the same midpoint.
   */
  lemma PassOutput(vertices: seq<Vertex>, tris: seq<Tri>)
    requires IndicesBelow(tris, |vertices|)
    ensures var p := PassOver(vertices, tris);
      && |p.out| == 4 * |tris|
      && forall i :: 0 <= i < |tris| ==>
           var t := tris[i];
           && Key(t.a, t.b) in p.cache && Key(t.b, t.c) in p.cache && Key(t.c, t.a) in p.cache
           && var m01 := p.cache[Key(t.a, t.b)];
              var m12 := p.cache[Key(t.b, t.c)];
              var m20 := p.cache[Key(t.c, t.a)];
              p.out[4 * i .. 4 * i + 4] == [Tri(t.a, m01, m20), Tri(t.b, m12, m01), Tri(t.c, m20, m12), Tri(m01, m12, m20)]
  {
    PassOverInvariant(vertices, tris);
    var p := PassOver(vertices, tris);
    SplitAllShape(tris, p.cache);
  }

  /** Quads only use the corners and the cached midpoints, so they stay below any bound on both. */
  lemma {:induction false} SplitAllBelow(tris: seq<Tri>, cache: map<EdgeId, int>, m: int)
    requires EdgesOf(tris) <= cache.Keys
    requires IndicesBelow(tris, m)
    requires forall e :: e in EdgesOf(tris) ==> 0 <= cache[e] < m
    ensures IndicesBelow(SplitAll(tris, cache), m)
  {
    if tris != [] {
      var n := |tris| - 1;
      var pre := tris[..n];
      assert EdgesOf(pre) <= EdgesOf(tris);
      SplitAllBelow(pre, cache, m);
      TriangleEdgesIn(tris, n);
      var q := Quad(tris[n], cache);
      assert forall k :: 0 <= k < 4 ==> TriBelow(q[k], m);
      var out := SplitAll(tris, cache);
      assert out == SplitAll(pre, cache) + q;
      forall k | 0 <= k < |out| ensures TriBelow(out[k], m) {
        if k >= |SplitAll(pre, cache)| {
          assert out[k] == q[k - |SplitAll(pre, cache)|];
        }
      }
    }
  }

  /** If every input index is a valid vertex offset, so is every output index after the pass. */
  lemma PassIndicesValid(vertices: seq<Vertex>, tris: seq<Tri>)
    requires IndicesBelow(tris, |vertices|)
    ensures IndicesBelow(PassOver(vertices, tris).out, |PassOver(vertices, tris).vertices|)
  {
    PassOverInvariant(vertices, tris);
    var p := PassOver(vertices, tris);
    SplitAllBelow(tris, p.cache, |p.vertices|);
  }
}
