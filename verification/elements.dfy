/** The two plain records a graph is built from: vertices and edges
    (src/graph/vertex.rs and src/graph/edge.rs). */
module Elements {

  /** A vertex is identified by its string value, which is also its key in a graph. */
  type Key = string

  /** Edge weights. The source stores an `f32`; the graph only ever copies
      and negates it, so a real number stands in for it. */
  type Weight = real

  /** A named vertex holding its own append-only list of edges. */
  datatype Vertex = Vertex(value: Key, edges: seq<Edge>)

  /** An edge holds copies (snapshots) of its two endpoint vertices, taken when
      the edge was created, and a weight with no constraint on sign or range. */
  datatype Edge = Edge(vertex1: Vertex, vertex2: Vertex, weight: Weight)

  /** The key of an edge's first endpoint: the only part of the snapshot a graph reads. */
  function Source(e: Edge): Key
  {
    e.vertex1.value
  }

  /** The key of an edge's second endpoint. */
  function Target(e: Edge): Key
  {
    e.vertex2.value
  }

  /** `Vertex::new`: a vertex with the given value and no edges; no validation. */
  function NewVertex(value: Key): (v: Vertex)
    ensures v.value == value
    ensures |v.edges| == 0
  {
    Vertex(value, [])
  }

  /** `Vertex::add_edge`: pushes the edge at the end of the list. */
  function AppendEdge(v: Vertex, e: Edge): (r: Vertex)
    ensures r.value == v.value
    ensures |r.edges| == |v.edges| + 1
    ensures r.edges[..|v.edges|] == v.edges
    ensures r.edges[|v.edges|] == e
  {
    Vertex(v.value, v.edges + [e])
  }

  /** Appending never deduplicates: adding the same edge twice stores it twice. */
  lemma AppendEdgeKeepsDuplicates(v: Vertex, e: Edge)
    ensures multiset(AppendEdge(AppendEdge(v, e), e).edges)[e] == multiset(v.edges)[e] + 2
    ensures |AppendEdge(AppendEdge(v, e), e).edges| == |v.edges| + 2
  {
    assert AppendEdge(AppendEdge(v, e), e).edges == v.edges + [e] + [e];
  }

  /** `Edge::new`: stores both snapshots and the weight as given. There is no
      precondition, so a self-loop (the same vertex twice) is accepted. */
  function NewEdge(vertex1: Vertex, vertex2: Vertex, weight: Weight): (e: Edge)
    ensures e.vertex1 == vertex1 && e.vertex2 == vertex2
    ensures e.weight == weight
    ensures Source(e) == vertex1.value && Target(e) == vertex2.value
  {
    Edge(vertex1, vertex2, weight)
  }
}
