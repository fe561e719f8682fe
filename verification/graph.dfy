/** The graph state and its two mutators (src/graph/graph.rs:6-75). */
module Graphs {
  import opened Elements

  /** A graph: vertices by key, a directedness flag fixed at construction and
      a counter of successful `add_edge` calls. */
  datatype Graph = Graph(vertices: map<Key, Vertex>, directed: bool, edgeCount: nat)

  /** `Graph::new`: no vertices, no edges. */
  function New(directed: bool): (g: Graph)
    ensures |g.vertices| == 0
    ensures g.directed == directed
    ensures g.edgeCount == 0
  {
    Graph(map[], directed, 0)
  }

  /** `add_vertex`: stores the vertex under its own value, replacing any
      earlier vertex with that key; nothing else changes. */
  function AddVertex(g: Graph, v: Vertex): (r: Graph)
    ensures v.value in r.vertices && r.vertices[v.value] == v
    ensures r.vertices.Keys == g.vertices.Keys + {v.value}
    ensures forall k :: k in g.vertices && k != v.value ==> r.vertices[k] == g.vertices[k]
    ensures r.directed == g.directed && r.edgeCount == g.edgeCount
  {
    g.(vertices := g.vertices[v.value := v])
  }

  /** The only error of the core: an endpoint key that is not in the graph. */
  datatype Outcome = Ok | MissingVertex(key: Key)

  /** `add_edge` mutates the graph in place and may fail after a partial
      mutation, so the model returns the graph after the call with the outcome. */
  datatype AddEdgeResult = AddEdgeResult(graph: Graph, outcome: Outcome)

  /** How many copies of `e` one `add_edge(e)` call appends to vertex `k`:
      one for the first endpoint when it exists, and in an undirected graph
      one more for the second endpoint when both exist. */
  function Copies(g: Graph, e: Edge, k: Key): nat
  {
    var found1 := Source(e) in g.vertices;
    (if found1 && k == Source(e) then 1 else 0)
    + (if found1 && !g.directed && Target(e) in g.vertices && k == Target(e) then 1 else 0)
  }

  /** `w` is `v` with `n` copies of `e` appended and the same value. */
  predicate Appended(v: Vertex, w: Vertex, e: Edge, n: nat)
  {
    w.value == v.value && w.edges == v.edges + seq(n, _ => e)
  }

  /** `add_edge` as written: look up the first endpoint (fail if absent),
      append the edge to it, then, only in an undirected graph, look up the
      second endpoint (fail if absent, keeping the first append) and append
      the edge to it too; count the edge only on success. */
  function AddEdge(g: Graph, e: Edge): (r: AddEdgeResult)
    ensures r.outcome.Ok? <==> Source(e) in g.vertices && (g.directed || Target(e) in g.vertices)
    ensures Source(e) !in g.vertices ==> r == AddEdgeResult(g, MissingVertex(Source(e)))
    ensures Source(e) in g.vertices && !g.directed && Target(e) !in g.vertices ==>
              r.outcome == MissingVertex(Target(e))
    ensures r.graph.edgeCount == if r.outcome.Ok? then g.edgeCount + 1 else g.edgeCount
    ensures r.graph.directed == g.directed
    ensures r.graph.vertices.Keys == g.vertices.Keys
    ensures forall k :: k in g.vertices ==> Appended(g.vertices[k], r.graph.vertices[k], e, Copies(g, e, k))
  {
    var k1 := Source(e);
    var k2 := Target(e);
    if k1 !in g.vertices then
      AddEdgeResult(g, MissingVertex(k1))
    else
      var m := g.vertices[k1 := AppendEdge(g.vertices[k1], e)];
      if !g.directed then
        if k2 !in m then
          AddEdgeResult(g.(vertices := m), MissingVertex(k2))
        else
          var r := AddEdgeResult(Graph(m[k2 := AppendEdge(m[k2], e)], g.directed, g.edgeCount + 1), Ok);
          assert k1 == k2 ==> r.graph.vertices[k1].edges == g.vertices[k1].edges + seq(2, _ => e);
          r
      else
        AddEdgeResult(g.(vertices := m, edgeCount := g.edgeCount + 1), Ok)
  }

  /** Every endpoint of every stored edge is a key of the graph. The matrix
      views look endpoints up and panic when this does not hold. */
  ghost predicate EdgesResolve(g: Graph)
  {
    forall k, e :: k in g.vertices && e in g.vertices[k].edges ==>
      Source(e) in g.vertices && Target(e) in g.vertices
  }

  /** Total number of edges stored over all vertices' lists. */
  ghost function EdgeTotal(m: map<Key, Vertex>): nat
    decreases |m|
  {
    if |m| == 0 then 0
    else
      var k :| k in m;
      |m[k].edges| + EdgeTotal(m - {k})
  }

  /** The total does not depend on which key is taken out first. */
  lemma {:induction false} EdgeTotalRemove(m: map<Key, Vertex>, k: Key)
    requires k in m
    ensures EdgeTotal(m) == |m[k].edges| + EdgeTotal(m - {k})
    decreases |m|
  {
    var k' :| k' in m && EdgeTotal(m) == |m[k'].edges| + EdgeTotal(m - {k'});
    if k' != k {
      var withoutK', withoutK := m - {k'}, m - {k};
      var rest := withoutK' - {k};
      assert k in withoutK' && withoutK'[k] == m[k];
      assert k' in withoutK && withoutK[k'] == m[k'];
      assert withoutK - {k'} == rest;
      EdgeTotalRemove(withoutK', k);
      EdgeTotalRemove(withoutK, k');
    }
  }

  /** Storing a vertex under `k` changes the total by the difference between
      the new vertex's list and the list it replaces. */
  lemma EdgeTotalUpdate(m: map<Key, Vertex>, k: Key, v: Vertex)
    ensures EdgeTotal(m[k := v]) + (if k in m then |m[k].edges| else 0) == EdgeTotal(m) + |v.edges|
  {
    if k in m {
      EdgeTotalReplace(m, k, v);
    } else {
      EdgeTotalInsert(m, k, v);
    }
  }

  /** Storing a vertex under a new key adds its list to the total. */
  lemma EdgeTotalInsert(m: map<Key, Vertex>, k: Key, v: Vertex)
    requires k !in m
    ensures EdgeTotal(m[k := v]) == EdgeTotal(m) + |v.edges|
  {
    var m' := m[k := v];
    EdgeTotalRemove(m', k);
    assert m' - {k} == m;
  }

  /** Replacing the vertex under a key swaps its list in the total. */
  lemma EdgeTotalReplace(m: map<Key, Vertex>, k: Key, v: Vertex)
    requires k in m
    ensures EdgeTotal(m[k := v]) + |m[k].edges| == EdgeTotal(m) + |v.edges|
  {
    var m' := m[k := v];
    EdgeTotalRemove(m', k);
    EdgeTotalRemove(m, k);
    assert m' - {k} == m - {k};
  }

  /** Stored edges per counted edge: one in a directed graph, two otherwise. */
  function CopiesPerEdge(directed: bool): nat
  {
    if directed then 1 else 2
  }

  /** The number of stored edges matches the counter. */
  ghost predicate Balanced(g: Graph)
  {
    EdgeTotal(g.vertices) == CopiesPerEdge(g.directed) * g.edgeCount
  }

  /** `add_vertex` changes the total number of stored edges only by the
      replaced vertex's list and the new vertex's list. */
  lemma AddVertexEdgeTotal(g: Graph, v: Vertex)
    ensures EdgeTotal(AddVertex(g, v).vertices)
            + (if v.value in g.vertices then |g.vertices[v.value].edges| else 0)
            == EdgeTotal(g.vertices) + |v.edges|
  {
    EdgeTotalUpdate(g.vertices, v.value, v);
  }

  /** A successful `add_edge` stores one copy in a directed graph and two in
      an undirected one; a failed call stores one copy (undirected, second
      endpoint missing) or none (first endpoint missing). */
  lemma AddEdgeEdgeTotal(g: Graph, e: Edge)
    ensures var r := AddEdge(g, e);
      EdgeTotal(r.graph.vertices) == EdgeTotal(g.vertices) +
        (if r.outcome.Ok? then CopiesPerEdge(g.directed)
         else if Source(e) in g.vertices then 1 else 0)
  {
    var k1, k2 := Source(e), Target(e);
    if k1 in g.vertices {
      var m := g.vertices[k1 := AppendEdge(g.vertices[k1], e)];
      EdgeTotalUpdate(g.vertices, k1, AppendEdge(g.vertices[k1], e));
      if !g.directed && k2 in m {
        EdgeTotalUpdate(m, k2, AppendEdge(m[k2], e));
      }
    }
  }

  /** The calls a client makes while building a graph. */
  datatype Call = AddVertexCall(vertex: Vertex) | AddEdgeCall(edge: Edge)

  /** Applies the calls in order. The flag says whether every call was clean:
      each vertex fresh (no edges, key not yet present) and each edge accepted. */
  function Replay(g: Graph, calls: seq<Call>): (Graph, bool)
    decreases |calls|
  {
    if |calls| == 0 then (g, true)
    else
      match calls[0]
      case AddVertexCall(v) =>
        var next := Replay(AddVertex(g, v), calls[1..]);
        (next.0, next.1 && |v.edges| == 0 && v.value !in g.vertices)
      case AddEdgeCall(e) =>
        var res := AddEdge(g, e);
        var next := Replay(res.graph, calls[1..]);
        (next.0, next.1 && res.outcome.Ok?)
  }

  /** Number of edge calls in a call sequence. */
  function EdgeCalls(calls: seq<Call>): nat
    decreases |calls|
  {
    if |calls| == 0 then 0
    else (if calls[0].AddEdgeCall? then 1 else 0) + EdgeCalls(calls[1..])
  }

  /** Along a clean run the counter advances once per edge call and the
      stored edges keep matching it. */
  lemma {:induction false} ReplayBalanced(g: Graph, calls: seq<Call>)
    requires Balanced(g)
    requires Replay(g, calls).1
    ensures Balanced(Replay(g, calls).0)
    ensures Replay(g, calls).0.edgeCount == g.edgeCount + EdgeCalls(calls)
    ensures Replay(g, calls).0.directed == g.directed
    decreases |calls|
  {
    if |calls| > 0 {
      match calls[0]
      case AddVertexCall(v) =>
        AddVertexEdgeTotal(g, v);
        ReplayBalanced(AddVertex(g, v), calls[1..]);
      case AddEdgeCall(e) =>
        AddEdgeEdgeTotal(g, e);
        ReplayBalanced(AddEdge(g, e).graph, calls[1..]);
    }
  }

  /** A graph built from `new` with fresh vertices and accepted edges stores
      each edge once (directed) or twice (undirected), and counts every edge call. */
  lemma BuiltGraphBalanced(directed: bool, calls: seq<Call>)
    requires Replay(New(directed), calls).1
    ensures var g := Replay(New(directed), calls).0;
      EdgeTotal(g.vertices) == CopiesPerEdge(directed) * g.edgeCount
      && g.edgeCount == EdgeCalls(calls)
  {
    ReplayBalanced(New(directed), calls);
  }

  /** The corrected `add_edge`: both endpoints are looked up before anything
      is changed, in directed graphs too. */
  function AddEdgeChecked(g: Graph, e: Edge): (r: AddEdgeResult)
    ensures r.outcome.Ok? <==> Source(e) in g.vertices && Target(e) in g.vertices
    ensures !r.outcome.Ok? ==> r.graph == g
    ensures Source(e) !in g.vertices ==> r.outcome == MissingVertex(Source(e))
    ensures Source(e) in g.vertices && Target(e) !in g.vertices ==> r.outcome == MissingVertex(Target(e))
    ensures r.outcome.Ok? ==> r == AddEdge(g, e)
    ensures EdgesResolve(g) ==> EdgesResolve(r.graph)
  {
    if Source(e) !in g.vertices then AddEdgeResult(g, MissingVertex(Source(e)))
    else if Target(e) !in g.vertices then AddEdgeResult(g, MissingVertex(Target(e)))
    else
      var r := AddEdge(g, e);
      AddEdgeKeepsResolved(g, e);
      r
  }

  /** An accepted edge whose endpoints both exist keeps every stored edge resolvable. */
  lemma AddEdgeKeepsResolved(g: Graph, e: Edge)
    requires Source(e) in g.vertices && Target(e) in g.vertices
    ensures EdgesResolve(g) ==> EdgesResolve(AddEdge(g, e).graph)
  {
    if !EdgesResolve(g) {
      return;
    }
    var r := AddEdge(g, e).graph;
    forall k, f | k in r.vertices && f in r.vertices[k].edges
      ensures Source(f) in r.vertices && Target(f) in r.vertices
    {
      assert Appended(g.vertices[k], r.vertices[k], e, Copies(g, e, k));
      assert f in g.vertices[k].edges || f == e;
    }
  }

  /** Applies the calls in order with the corrected `add_edge`, ignoring outcomes. */
  function ReplayChecked(g: Graph, calls: seq<Call>): Graph
    decreases |calls|
  {
    if |calls| == 0 then g
    else
      match calls[0]
      case AddVertexCall(v) => ReplayChecked(AddVertex(g, v), calls[1..])
      case AddEdgeCall(e) => ReplayChecked(AddEdgeChecked(g, e).graph, calls[1..])
  }

  /** With the corrected `add_edge`, a graph built from fresh vertices never
      stores an edge to a missing key, whatever the calls and their outcomes,
      so the matrix views are always defined on it. */
  lemma {:induction false} ReplayCheckedResolves(g: Graph, calls: seq<Call>)
    requires EdgesResolve(g)
    requires forall c :: 0 <= c < |calls| && calls[c].AddVertexCall? ==> |calls[c].vertex.edges| == 0
    ensures EdgesResolve(ReplayChecked(g, calls))
    decreases |calls|
  {
    if |calls| > 0 {
      assert forall c :: 0 <= c < |calls| - 1 ==> calls[1..][c] == calls[c + 1];
      match calls[0]
      case AddVertexCall(v) =>
        assert EdgesResolve(AddVertex(g, v));
        ReplayCheckedResolves(AddVertex(g, v), calls[1..]);
      case AddEdgeCall(e) =>
        ReplayCheckedResolves(AddEdgeChecked(g, e).graph, calls[1..]);
    }
  }

  /** As written, a directed graph accepts an edge to a missing vertex; the
      stored edge no longer resolves, so the matrix views would panic. */
  lemma DirectedAcceptsDanglingEdge()
    ensures var g := AddVertex(New(true), NewVertex("A"));
      var r := AddEdge(g, NewEdge(NewVertex("A"), NewVertex("Z"), 1.0));
      EdgesResolve(g) && r.outcome == Ok && !EdgesResolve(r.graph)
  {
    var g := AddVertex(New(true), NewVertex("A"));
    var e := NewEdge(NewVertex("A"), NewVertex("Z"), 1.0);
    var r := AddEdge(g, e);
    assert "Z" != "A";
    assert e in r.graph.vertices["A"].edges;
  }

  /** As written, an undirected graph rejects an edge to a missing second
      vertex only after appending it to the first: the call fails but the
      graph has changed and holds an unresolvable edge. */
  lemma UndirectedFailureMutates()
    ensures var g := AddVertex(New(false), NewVertex("A"));
      var r := AddEdge(g, NewEdge(NewVertex("A"), NewVertex("Z"), 1.0));
      r.outcome == MissingVertex("Z") && r.graph != g && r.graph.edgeCount == g.edgeCount
      && EdgesResolve(g) && !EdgesResolve(r.graph)
  {
    var g := AddVertex(New(false), NewVertex("A"));
    var e := NewEdge(NewVertex("A"), NewVertex("Z"), 1.0);
    var r := AddEdge(g, e);
    assert "Z" != "A";
    assert e in r.graph.vertices["A"].edges;
    assert |r.graph.vertices["A"].edges| == 1;
  }
}
