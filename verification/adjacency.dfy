/** `adjacency_matrix` (src/graph/graph.rs:96-120): a dense n×n table of
    optional weights, filled by one write per scanned edge (two when undirected). */
module Adjacency {
  import opened Wrappers
  import opened Elements
  import opened Graphs
  import opened KeyOrder

  /** Rows of optional weights; `None` means no edge, unlike a zero weight. */
  type AdjMatrix = seq<seq<Option<Weight>>>

  /** `m` has `n` rows of `n` cells each. */
  predicate IsSquare<T>(m: seq<seq<T>>, n: nat)
  {
    |m| == n && forall i :: 0 <= i < n ==> |m[i]| == n
  }

  /** An `n`×`n` table with no edges. */
  function EmptyMatrix(n: nat): (m: AdjMatrix)
    ensures IsSquare(m, n)
    ensures forall i, j :: 0 <= i < n && 0 <= j < n ==> m[i][j] == None
  {
    seq(n, _ => seq(n, _ => None))
  }

  /** Every endpoint of every edge in `scan` has an index below `n`. */
  predicate Indexed(idx: map<Key, nat>, scan: seq<Edge>, n: nat)
  {
    forall p :: 0 <= p < |scan| ==>
      Source(scan[p]) in idx && Target(scan[p]) in idx && idx[Source(scan[p])] < n && idx[Target(scan[p])] < n
  }

  /** Cell (a, b) is one that `e` writes: row of its first endpoint and column
      of its second, or in an undirected graph also the mirrored cell. */
  predicate WritesCell(idx: map<Key, nat>, directed: bool, e: Edge, a: nat, b: nat)
    requires Source(e) in idx && Target(e) in idx
  {
    (a == idx[Source(e)] && b == idx[Target(e)]) || (!directed && a == idx[Target(e)] && b == idx[Source(e)])
  }

  /** The writes for one edge: cell (i, j), and in an undirected graph also (j, i). */
  function WriteEdge(m: AdjMatrix, idx: map<Key, nat>, directed: bool, e: Edge): (r: AdjMatrix)
    requires IsSquare(m, |m|)
    requires Source(e) in idx && Target(e) in idx && idx[Source(e)] < |m| && idx[Target(e)] < |m|
    ensures IsSquare(r, |m|)
    ensures forall a, b :: 0 <= a < |m| && 0 <= b < |m| ==>
      r[a][b] == if WritesCell(idx, directed, e, a, b) then Some(e.weight) else m[a][b]
  {
    var i := idx[Source(e)];
    var j := idx[Target(e)];
    var m1 := m[i := m[i][j := Some(e.weight)]];
    if directed then m1 else m1[j := m1[j][i := Some(e.weight)]]
  }

  /** The writes for all scanned edges, in scan order. */
  function WriteAll(m: AdjMatrix, idx: map<Key, nat>, directed: bool, scan: seq<Edge>): (r: AdjMatrix)
    requires IsSquare(m, |m|)
    requires Indexed(idx, scan, |m|)
    ensures IsSquare(r, |m|)
    ensures forall a, b :: 0 <= a < |m| && 0 <= b < |m| && r[a][b] != m[a][b] ==>
      exists p :: 0 <= p < |scan| && WritesCell(idx, directed, scan[p], a, b) && r[a][b] == Some(scan[p].weight)
    decreases |scan|
  {
    if |scan| == 0 then m
    else
      var pre := scan[..|scan| - 1];
      assert Indexed(idx, pre, |m|);
      assert forall p :: 0 <= p < |pre| ==> pre[p] == scan[p];
      WriteEdge(WriteAll(m, idx, directed, pre), idx, directed, scan[|scan| - 1])
  }

  /** `e` joins `a` to `b`; in an undirected graph either orientation does. */
  predicate Joins(e: Edge, a: Key, b: Key, directed: bool)
  {
    (Source(e) == a && Target(e) == b) || (!directed && Source(e) == b && Target(e) == a)
  }

  /** Reference definition of a cell: the weight of the last scanned edge
      joining `a` to `b`, or `None` when no scanned edge joins them. */
  function LastJoin(scan: seq<Edge>, a: Key, b: Key, directed: bool): Option<Weight>
    decreases |scan|
  {
    if |scan| == 0 then None
    else if Joins(scan[|scan| - 1], a, b, directed) then Some(scan[|scan| - 1].weight)
    else LastJoin(scan[..|scan| - 1], a, b, directed)
  }

  /** One edge's writes change exactly the cells of the keys it joins. */
  lemma WriteEdgeCell(m: AdjMatrix, order: seq<Key>, directed: bool, e: Edge, i: nat, j: nat)
    requires Distinct(order)
    requires IsSquare(m, |order|)
    requires Source(e) in IndexMap(order) && Target(e) in IndexMap(order)
    requires i < |order| && j < |order|
    ensures WriteEdge(m, IndexMap(order), directed, e)[i][j]
            == if Joins(e, order[i], order[j], directed) then Some(e.weight) else m[i][j]
  {
    var idx := IndexMap(order);
    var a, b := idx[Source(e)], idx[Target(e)];
    assert order[a] == Source(e) && order[b] == Target(e);
    assert order[i] == Source(e) <==> i == a;
    assert order[j] == Target(e) <==> j == b;
    assert order[i] == Target(e) <==> i == b;
    assert order[j] == Source(e) <==> j == a;
  }

  /** A present reference cell wins over the starting table's cell. */
  function Overlay(top: Option<Weight>, below: Option<Weight>): Option<Weight>
  {
    if top.Some? then top else below
  }

  /** One cell of the written table agrees with the reference definition. */
  lemma {:induction false} WriteAllCell(m: AdjMatrix, order: seq<Key>, directed: bool, scan: seq<Edge>, i: nat, j: nat)
    requires Distinct(order)
    requires IsSquare(m, |order|)
    requires Indexed(IndexMap(order), scan, |order|)
    requires i < |order| && j < |order|
    ensures WriteAll(m, IndexMap(order), directed, scan)[i][j]
            == Overlay(LastJoin(scan, order[i], order[j], directed), m[i][j])
    decreases |scan|
  {
    if |scan| > 0 {
      var pre := scan[..|scan| - 1];
      assert Indexed(IndexMap(order), pre, |order|);
      WriteAllCell(m, order, directed, pre, i, j);
      var before := WriteAll(m, IndexMap(order), directed, pre);
      WriteEdgeCell(before, order, directed, scan[|scan| - 1], i, j);
    }
  }

  /** `adjacency_matrix`: start from an all-`None` n×n table and apply every
      scanned edge's writes. Every stored endpoint must be a key (the source
      unwraps the index lookup). */
  function AdjacencyMatrix(g: Graph, order: seq<Key>): (r: AdjMatrix)
    requires IsKeyOrder(g.vertices, order)
    requires EdgesResolve(g)
    ensures IsSquare(r, |g.vertices|)
  {
    KeyOrderLength(g.vertices, order);
    ScanResolves(g, order);
    WriteAll(EmptyMatrix(|g.vertices|), IndexMap(order), g.directed, Scan(g.vertices, order))
  }

  /** Writing a whole scan into an empty table gives the reference cells. */
  lemma WriteAllCells(order: seq<Key>, directed: bool, scan: seq<Edge>)
    requires Distinct(order)
    requires Indexed(IndexMap(order), scan, |order|)
    ensures forall i, j :: 0 <= i < |order| && 0 <= j < |order| ==>
      WriteAll(EmptyMatrix(|order|), IndexMap(order), directed, scan)[i][j] == LastJoin(scan, order[i], order[j], directed)
  {
    forall i, j | 0 <= i < |order| && 0 <= j < |order|
      ensures WriteAll(EmptyMatrix(|order|), IndexMap(order), directed, scan)[i][j] == LastJoin(scan, order[i], order[j], directed)
    {
      WriteAllCell(EmptyMatrix(|order|), order, directed, scan, i, j);
    }
  }

  /** Cell (i, j) holds the weight of the last scanned edge joining key i to
      key j, and `None` when there is none. */
  lemma AdjacencyCells(g: Graph, order: seq<Key>)
    requires IsKeyOrder(g.vertices, order)
    requires EdgesResolve(g)
    ensures |order| == |g.vertices|
    ensures forall i, j :: 0 <= i < |order| && 0 <= j < |order| ==>
      AdjacencyMatrix(g, order)[i][j] == LastJoin(Scan(g.vertices, order), order[i], order[j], g.directed)
  {
    KeyOrderLength(g.vertices, order);
    ScanResolves(g, order);
    var scan := Scan(g.vertices, order);
    assert Indexed(IndexMap(order), scan, |order|);
    WriteAllCells(order, g.directed, scan);
  }

  /** The reference cell is present exactly when some scanned edge joins the keys. */
  lemma {:induction false} LastJoinSome(scan: seq<Edge>, a: Key, b: Key, directed: bool)
    ensures LastJoin(scan, a, b, directed).Some? <==> exists e :: e in scan && Joins(e, a, b, directed)
    ensures LastJoin(scan, a, b, directed).Some? ==>
      exists e :: e in scan && Joins(e, a, b, directed) && e.weight == LastJoin(scan, a, b, directed).value
    decreases |scan|
  {
    if |scan| > 0 {
      var pre := scan[..|scan| - 1];
      LastJoinSome(pre, a, b, directed);
      assert forall e :: e in scan ==> e in pre || e == scan[|scan| - 1];
      assert forall e :: e in pre ==> e in scan;
    }
  }

  /** In an undirected graph the reference cell does not depend on orientation. */
  lemma {:induction false} LastJoinSymmetric(scan: seq<Edge>, a: Key, b: Key)
    ensures LastJoin(scan, a, b, false) == LastJoin(scan, b, a, false)
    decreases |scan|
  {
    if |scan| > 0 {
      LastJoinSymmetric(scan[..|scan| - 1], a, b);
    }
  }

  /** A cell is present exactly when some stored edge joins its row key to its
      column key (either way round in an undirected graph); a zero weight is
      present. A present cell carries the weight of such an edge. */
  lemma AdjacencyPresence(g: Graph, order: seq<Key>, i: nat, j: nat)
    requires IsKeyOrder(g.vertices, order)
    requires EdgesResolve(g)
    requires i < |order| && j < |order|
    ensures |AdjacencyMatrix(g, order)| == |order|
    ensures AdjacencyMatrix(g, order)[i][j].Some? <==>
      exists k, e :: k in g.vertices && e in g.vertices[k].edges && Joins(e, order[i], order[j], g.directed)
    ensures AdjacencyMatrix(g, order)[i][j].Some? ==>
      exists k, e :: k in g.vertices && e in g.vertices[k].edges && Joins(e, order[i], order[j], g.directed)
        && e.weight == AdjacencyMatrix(g, order)[i][j].value
  {
    AdjacencyCells(g, order);
    var scan := Scan(g.vertices, order);
    LastJoinSome(scan, order[i], order[j], g.directed);
    forall e | e in scan ensures exists k :: k in g.vertices && e in g.vertices[k].edges {
      ScanIsStored(g, order, e);
    }
    forall k, e | k in g.vertices && e in g.vertices[k].edges ensures e in scan {
      ScanIsStored(g, order, e);
    }
  }

  /** The undirected adjacency matrix is symmetric. */
  lemma AdjacencySymmetric(g: Graph, order: seq<Key>)
    requires IsKeyOrder(g.vertices, order)
    requires EdgesResolve(g)
    requires !g.directed
    ensures |AdjacencyMatrix(g, order)| == |order|
    ensures forall i, j :: 0 <= i < |order| && 0 <= j < |order| ==>
      AdjacencyMatrix(g, order)[i][j] == AdjacencyMatrix(g, order)[j][i]
  {
    AdjacencyCells(g, order);
    forall i, j | 0 <= i < |order| && 0 <= j < |order|
      ensures AdjacencyMatrix(g, order)[i][j] == AdjacencyMatrix(g, order)[j][i]
    {
      LastJoinSymmetric(Scan(g.vertices, order), order[i], order[j]);
    }
  }
}
