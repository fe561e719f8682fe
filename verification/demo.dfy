/** The demonstration in src/main.rs:7-59: an undirected ring of five
    vertices A–C–E–B–D–A with unit weights. */
module Demo {
  import opened Wrappers
  import opened Elements
  import opened Graphs
  import opened KeyOrder
  import opened Csr

  /** The ring's vertex keys, in the order used for its CSR encoding. */
  function Names(): seq<Key>
  {
    ["A", "B", "C", "D", "E"]
  }

  /** The ring's keys are pairwise different. */
  lemma NamesDistinct()
    ensures Distinct(Names())
  {
    forall i, j | 0 <= i < j < 5 ensures Names()[i] != Names()[j] {
      assert Names()[i][0] != Names()[j][0];
    }
  }

  /** Five different keys: the ring is proved for any such names and then
      instantiated with `Names()`. */
  predicate RingNames(names: seq<Key>)
  {
    |names| == 5 && Distinct(names)
  }

  /** An undirected graph whose keys are exactly `names`, each vertex stored
      under its own value. */
  predicate RingShaped(g: Graph, names: seq<Key>)
  {
    && !g.directed
    && IsKeyOrder(g.vertices, names)
    && forall x :: 0 <= x < |names| ==> g.vertices[names[x]].value == names[x]
  }

  /** The number of edges stored by ring vertex `x` (an index into `names`). */
  function Degree(g: Graph, names: seq<Key>, x: nat): nat
  {
    if x < |names| && names[x] in g.vertices then |g.vertices[names[x]].edges| else 0
  }

  /** One `add_edge` call of the demonstration: a unit-weight edge between
      two different ring vertices is accepted, is counted, and is stored
      once by each endpoint; nothing else is stored. */
  method Connect(g: Graph, names: seq<Key>, i: nat, j: nat, e: Edge) returns (r: Graph, outcome: Outcome)
    requires RingNames(names) && RingShaped(g, names)
    requires i < 5 && j < 5 && i != j
    requires Source(e) == names[i] && Target(e) == names[j]
    ensures outcome == Ok
    ensures RingShaped(r, names) && r.edgeCount == g.edgeCount + 1
    ensures forall x :: 0 <= x < 5 ==> Degree(r, names, x) == Degree(g, names, x) + (if x == i || x == j then 1 else 0)
    ensures forall x, f :: 0 <= x < 5 && f in r.vertices[names[x]].edges ==> f in g.vertices[names[x]].edges || f == e
  {
    var s := AddEdge(g, e);
    r, outcome := s.graph, s.outcome;
    forall x | 0 <= x < 5
      ensures Degree(r, names, x) == Degree(g, names, x) + (if x == i || x == j then 1 else 0)
      ensures forall f :: f in r.vertices[names[x]].edges ==> f in g.vertices[names[x]].edges || f == e
    {
      var k := names[x];
      assert Appended(g.vertices[k], r.vertices[k], e, Copies(g, e, k));
      assert k == Source(e) <==> x == i;
      assert k == Target(e) <==> x == j;
    }
  }

  /** `add_vertex(Vertex::new(k))` for every key of `keys`, in order. */
  function AddAll(g: Graph, keys: seq<Key>): (r: Graph)
    ensures r.directed == g.directed && r.edgeCount == g.edgeCount
    ensures r.vertices.Keys == g.vertices.Keys + set k | k in keys
    ensures forall k :: k in keys ==> r.vertices[k] == NewVertex(k)
    ensures forall k :: k in g.vertices && k !in keys ==> r.vertices[k] == g.vertices[k]
    decreases |keys|
  {
    if |keys| == 0 then g
    else
      var pre := keys[..|keys| - 1];
      assert forall k :: k in keys ==> k in pre || k == keys[|keys| - 1];
      AddVertex(AddAll(g, pre), NewVertex(keys[|keys| - 1]))
  }

  /** The five vertices of the ring, freshly added: each stored vertex is
      `Vertex::new` of its key. */
  function RingVertices(names: seq<Key>): (g: Graph)
    requires RingNames(names)
    ensures RingShaped(g, names) && g.edgeCount == 0
    ensures forall x :: 0 <= x < |names| ==> g.vertices[names[x]] == NewVertex(names[x])
    ensures forall x :: 0 <= x < |names| ==> Degree(g, names, x) == 0
  {
    var g := AddAll(New(false), names);
    assert forall x :: 0 <= x < |names| ==> names[x] in names;
    assert forall x :: 0 <= x < |names| ==> g.vertices[names[x]] == NewVertex(names[x]);
    g
  }

  /** The ring's edges as pairs of indices into the key list:
      A–C, C–E, E–B, B–D, D–A. */
  function RingPairs(): seq<(nat, nat)>
  {
    [(0, 2), (2, 4), (4, 1), (1, 3), (3, 0)]
  }

  /** Every ring pair joins two different ring positions. */
  lemma RingPairsValid()
    ensures forall t :: 0 <= t < |RingPairs()| ==>
      RingPairs()[t].0 < 5 && RingPairs()[t].1 < 5 && RingPairs()[t].0 != RingPairs()[t].1
  {
  }

  /** How many of the pairs have `x` as an endpoint. */
  function Hits(pairs: seq<(nat, nat)>, x: nat): nat
    decreases |pairs|
  {
    if |pairs| == 0 then 0
    else
      var last := pairs[|pairs| - 1];
      Hits(pairs[..|pairs| - 1], x) + (if last.0 == x || last.1 == x then 1 else 0)
  }

  /** Every ring vertex is an endpoint of exactly two ring edges. */
  lemma RingHits()
    ensures forall x :: 0 <= x < 5 ==> Hits(RingPairs(), x) == 2
  {
    var p := RingPairs();
    forall x | 0 <= x < 5 ensures Hits(p, x) == 2 {
      assert p[..1][..0] == p[..0];
      assert Hits(p[..1], x) == (if x == 0 || x == 2 then 1 else 0);
      assert p[..2][..1] == p[..1];
      assert Hits(p[..2], x) == Hits(p[..1], x) + (if x == 2 || x == 4 then 1 else 0);
      assert p[..3][..2] == p[..2];
      assert Hits(p[..3], x) == Hits(p[..2], x) + (if x == 4 || x == 1 then 1 else 0);
      assert p[..4][..3] == p[..3];
      assert Hits(p[..4], x) == Hits(p[..3], x) + (if x == 1 || x == 3 then 1 else 0);
      assert p[..4] == p[..|p| - 1];
    }
  }

  /** Both snapshots of `e` are edge-less vertices: the edge was built before
      any edge was added. */
  predicate SnapshotsFresh(e: Edge)
  {
    e.vertex1 == NewVertex(Source(e)) && e.vertex2 == NewVertex(Target(e))
  }

  /** Every edge stored by a ring vertex has fresh snapshots. */
  predicate StoresFresh(g: Graph, names: seq<Key>)
    requires RingNames(names) && RingShaped(g, names)
  {
    forall x, f :: 0 <= x < 5 && f in g.vertices[names[x]].edges ==> SnapshotsFresh(f)
  }

  /** `Edge::new` for each pair, taking the snapshots from `g` up front, as
      the demonstration builds all five edges before adding any. */
  function PairEdges(g: Graph, names: seq<Key>, pairs: seq<(nat, nat)>): (edges: seq<Edge>)
    requires RingNames(names) && RingShaped(g, names)
    requires forall t :: 0 <= t < |pairs| ==> pairs[t].0 < 5 && pairs[t].1 < 5
    ensures |edges| == |pairs|
    ensures forall t :: 0 <= t < |pairs| ==>
      Source(edges[t]) == names[pairs[t].0] && Target(edges[t]) == names[pairs[t].1] && edges[t].weight == 1.0
    ensures forall t :: 0 <= t < |pairs| ==>
      edges[t].vertex1 == g.vertices[names[pairs[t].0]] && edges[t].vertex2 == g.vertices[names[pairs[t].1]]
  {
    seq(|pairs|, t requires 0 <= t < |pairs| =>
      NewEdge(g.vertices[names[pairs[t].0]], g.vertices[names[pairs[t].1]], 1.0))
  }

  /** Edges for the given pairs, built from the fresh ring vertices before
      any edge is added: each holds two edge-less snapshots. */
  function FreshEdges(names: seq<Key>, pairs: seq<(nat, nat)>): (edges: seq<Edge>)
    requires RingNames(names)
    requires forall t :: 0 <= t < |pairs| ==> pairs[t].0 < 5 && pairs[t].1 < 5
    ensures |edges| == |pairs|
    ensures forall t :: 0 <= t < |pairs| ==>
      Source(edges[t]) == names[pairs[t].0] && Target(edges[t]) == names[pairs[t].1]
    ensures forall t :: 0 <= t < |edges| ==> SnapshotsFresh(edges[t]) && edges[t].weight == 1.0
  {
    PairEdges(RingVertices(names), names, pairs)
  }

  /** `add_edge` for each prepared edge in turn on a ring-shaped graph: every
      call is accepted, the counter grows by the number of calls, each vertex
      gains one stored edge per pair it belongs to, and only prepared edges
      are stored. */
  method ConnectAll(g: Graph, names: seq<Key>, pairs: seq<(nat, nat)>, edges: seq<Edge>) returns (r: Graph, outcomes: seq<Outcome>)
    requires RingNames(names) && RingShaped(g, names)
    requires forall t :: 0 <= t < |pairs| ==> pairs[t].0 < 5 && pairs[t].1 < 5 && pairs[t].0 != pairs[t].1
    requires |edges| == |pairs|
    requires forall t :: 0 <= t < |pairs| ==> Source(edges[t]) == names[pairs[t].0] && Target(edges[t]) == names[pairs[t].1]
    requires forall t :: 0 <= t < |edges| ==> SnapshotsFresh(edges[t])
    requires StoresFresh(g, names)
    ensures |outcomes| == |pairs| && forall t :: 0 <= t < |pairs| ==> outcomes[t] == Ok
    ensures RingShaped(r, names) && r.edgeCount == g.edgeCount + |pairs|
    ensures forall x :: 0 <= x < 5 ==> Degree(r, names, x) == Degree(g, names, x) + Hits(pairs, x)
    ensures forall x, f :: 0 <= x < 5 && f in r.vertices[names[x]].edges ==> f in g.vertices[names[x]].edges || f in edges
    ensures StoresFresh(r, names)
  {
    r, outcomes := g, [];
    for n := 0 to |pairs|
      invariant |outcomes| == n && forall t :: 0 <= t < n ==> outcomes[t] == Ok
      invariant RingShaped(r, names) && r.edgeCount == g.edgeCount + n
      invariant forall x :: 0 <= x < 5 ==> Degree(r, names, x) == Degree(g, names, x) + Hits(pairs[..n], x)
      invariant forall x, f :: 0 <= x < 5 && f in r.vertices[names[x]].edges ==> f in g.vertices[names[x]].edges || f in edges
      invariant StoresFresh(r, names)
    {
      assert pairs[..n + 1][..n] == pairs[..n];
      var outcome;
      r, outcome := Connect(r, names, pairs[n].0, pairs[n].1, edges[n]);
      outcomes := outcomes + [outcome];
    }
    assert pairs[..|pairs|] == pairs;
  }

  /** The demonstration's five edges, built from the fresh ring vertices,
      added in turn: all succeed, the counter reaches five, every vertex ends
      with two stored edges, and every stored edge still holds the edge-less
      snapshots it was built from. */
  method RingEdges(names: seq<Key>) returns (g: Graph, outcomes: seq<Outcome>)
    requires RingNames(names)
    ensures outcomes == [Ok, Ok, Ok, Ok, Ok]
    ensures RingShaped(g, names) && g.edgeCount == 5
    ensures forall x :: 0 <= x < 5 ==> Degree(g, names, x) == 2
    ensures StoresFresh(g, names)
  {
    RingHits();
    RingPairsValid();
    var start := RingVertices(names);
    assert StoresFresh(start, names);
    g, outcomes := ConnectAll(start, names, RingPairs(), FreshEdges(names, RingPairs()));
  }

  /** The CSR encoding of the finished ring in key order: the offsets are
      0, 2, .., 10, the stored edges number ten, and the terminator sits at
      position 10. */
  method RingCsr(g: Graph, names: seq<Key>) returns (adjacents: seq<Option<Key>>, indices: seq<nat>)
    requires RingNames(names) && RingShaped(g, names)
    requires forall x :: 0 <= x < 5 ==> Degree(g, names, x) == 2
    ensures indices == [0, 2, 4, 6, 8, 10]
    ensures EdgeTotal(g.vertices) == 10
    ensures |adjacents| == 11 && adjacents[10] == None
  {
    adjacents, indices := CsrRepresentation(g, names);
    assert Degree(g, names, 0) == 2;
    assert indices[1] == 2;
    assert Degree(g, names, 1) == 2;
    assert indices[2] == 4;
    assert Degree(g, names, 2) == 2;
    assert indices[3] == 6;
    assert Degree(g, names, 3) == 2;
    assert indices[4] == 8;
    assert Degree(g, names, 4) == 2;
    assert indices[5] == 10;
  }

  /** The ring's facts indexed by key rather than by position in `names`. */
  lemma RingByKey(g: Graph, names: seq<Key>)
    requires RingNames(names) && RingShaped(g, names)
    requires forall x :: 0 <= x < 5 ==> Degree(g, names, x) == 2
    requires StoresFresh(g, names)
    ensures forall k :: k in g.vertices ==> |g.vertices[k].edges| == 2
    ensures forall k, e :: k in g.vertices && e in g.vertices[k].edges ==>
      |e.vertex1.edges| == 0 && |e.vertex2.edges| == 0
  {
    forall k | k in g.vertices ensures |g.vertices[k].edges| == 2 {
      var x :| 0 <= x < 5 && names[x] == k;
      assert Degree(g, names, x) == 2;
    }
    forall k, e | k in g.vertices && e in g.vertices[k].edges
      ensures |e.vertex1.edges| == 0 && |e.vertex2.edges| == 0
    {
      var x :| 0 <= x < 5 && names[x] == k;
      assert SnapshotsFresh(e);
    }
  }

  /** The whole demonstration for any five different names, with the key
      order `names`: every vertex stores two edges, every stored edge holds
      edge-less snapshots, the stored edges number twice the counter, and
      the CSR offsets are 0, 2, .., 10. */
  method Ring(names: seq<Key>) returns (g: Graph, outcomes: seq<Outcome>, adjacents: seq<Option<Key>>, indices: seq<nat>)
    requires RingNames(names)
    ensures outcomes == [Ok, Ok, Ok, Ok, Ok]
    ensures !g.directed && g.edgeCount == 5
    ensures forall k :: k in g.vertices ==> |g.vertices[k].edges| == 2
    ensures EdgeTotal(g.vertices) == 2 * g.edgeCount
    ensures forall k, e :: k in g.vertices && e in g.vertices[k].edges ==>
      |e.vertex1.edges| == 0 && |e.vertex2.edges| == 0
    ensures indices == [0, 2, 4, 6, 8, 10]
    ensures |adjacents| == 11 && adjacents[10] == None
  {
    g, outcomes := RingEdges(names);
    RingByKey(g, names);
    adjacents, indices := RingCsr(g, names);
  }

  /** The demonstration itself, with the keys A..E in that order. */
  method Demonstration() returns (g: Graph, outcomes: seq<Outcome>, adjacents: seq<Option<Key>>, indices: seq<nat>)
    ensures outcomes == [Ok, Ok, Ok, Ok, Ok]
    ensures !g.directed && g.edgeCount == 5
    ensures forall k :: k in g.vertices ==> |g.vertices[k].edges| == 2
    ensures EdgeTotal(g.vertices) == 2 * g.edgeCount
    ensures forall k, e :: k in g.vertices && e in g.vertices[k].edges ==>
      |e.vertex1.edges| == 0 && |e.vertex2.edges| == 0
    ensures indices == [0, 2, 4, 6, 8, 10]
    ensures |adjacents| == 11 && adjacents[10] == None
  {
    NamesDistinct();
    g, outcomes, adjacents, indices := Ring(Names());
  }
}
