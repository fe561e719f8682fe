/** What the three derived views share: the order in which the vertex map is
    iterated, the index every key gets from it, and the scan of all stored
    edges in that order (src/graph/graph.rs:97-107, 146-157, 205-215). */
module KeyOrder {
  import opened Elements
  import opened Graphs

  /** No element occurs twice. */
  predicate Distinct<T(==)>(s: seq<T>)
  {
    forall i, j :: 0 <= i < j < |s| ==> s[i] != s[j]
  }

  /** `order` lists every key of `m` exactly once. The iteration order of a
      hash map is arbitrary, so every view takes it as a parameter; `keys()`,
      `values()` and iteration over the map itself all follow this one order. */
  predicate IsKeyOrder(m: map<Key, Vertex>, order: seq<Key>)
  {
    && Distinct(order)
    && (forall i :: 0 <= i < |order| ==> order[i] in m)
    && (forall k :: k in m ==> k in order)
  }

  /** A duplicate-free sequence has as many elements as its set. */
  lemma {:induction false} DistinctCardinality<T>(s: seq<T>)
    requires Distinct(s)
    ensures |set x | x in s| == |s|
    decreases |s|
  {
    if |s| > 0 {
      var pre := s[..|s| - 1];
      assert Distinct(pre);
      DistinctCardinality(pre);
      assert (set x | x in s) == (set x | x in pre) + {s[|s| - 1]};
      assert s[|s| - 1] !in pre;
    }
  }

  /** A key order is as long as the map has entries: the row count of every view. */
  lemma KeyOrderLength(m: map<Key, Vertex>, order: seq<Key>)
    requires IsKeyOrder(m, order)
    ensures |order| == |m|
  {
    DistinctCardinality(order);
    assert (set x | x in order) == m.Keys;
  }

  /** The key-to-index map built by enumerating the keys: the key met at
      position `i` gets index `i`. */
  function IndexMap(order: seq<Key>): (r: map<Key, nat>)
    ensures r.Keys == set k | k in order
    ensures forall k :: k in r ==> r[k] < |order| && order[r[k]] == k
    ensures Distinct(order) ==> forall i :: 0 <= i < |order| ==> order[i] in r && r[order[i]] == i
    decreases |order|
  {
    if |order| == 0 then map[]
    else
      var pre := order[..|order| - 1];
      var last := order[|order| - 1];
      var prev := IndexMap(pre);
      var r := prev[last := |pre|];
      assert forall i :: 0 <= i < |pre| ==> pre[i] == order[i];
      assert r.Keys == set k | k in order by {
        assert (set k | k in order) == (set k | k in pre) + {last};
      }
      assert forall k :: k in r ==> r[k] < |order| && order[r[k]] == k by {
        forall k | k in r ensures r[k] < |order| && order[r[k]] == k {
          if k != last {
            assert pre[prev[k]] == k;
          }
        }
      }
      assert Distinct(order) ==> forall i :: 0 <= i < |order| ==> order[i] in r && r[order[i]] == i by {
        if Distinct(order) {
          assert Distinct(pre);
          forall i | 0 <= i < |order| ensures order[i] in r && r[order[i]] == i {
            if i < |pre| {
              assert order[i] != last;
              assert prev[pre[i]] == i;
            }
          }
        }
      }
      r
  }

  /** All stored edges, vertex by vertex in key order, each list in its own order:
      the sequence in which the views visit edges. */
  function Scan(m: map<Key, Vertex>, order: seq<Key>): (r: seq<Edge>)
    requires forall i :: 0 <= i < |order| ==> order[i] in m
    ensures |r| == SumLengths(m, order)
    decreases |order|
  {
    if |order| == 0 then []
    else Scan(m, order[..|order| - 1]) + m[order[|order| - 1]].edges
  }

  /** The scan holds exactly the edges stored in the vertices it visits. */
  lemma {:induction false} ScanMembers(m: map<Key, Vertex>, order: seq<Key>, e: Edge)
    requires forall i :: 0 <= i < |order| ==> order[i] in m
    ensures e in Scan(m, order) <==> exists i :: 0 <= i < |order| && e in m[order[i]].edges
    decreases |order|
  {
    if |order| > 0 {
      var pre := order[..|order| - 1];
      ScanMembers(m, pre, e);
      if e in Scan(m, order) && e !in Scan(m, pre) {
        assert e in m[order[|order| - 1]].edges;
      }
      if exists i :: 0 <= i < |order| && e in m[order[i]].edges {
        var i :| 0 <= i < |order| && e in m[order[i]].edges;
        if i < |order| - 1 {
          assert order[i] == pre[i];
        }
      }
    }
  }

  /** Under a key order, the scan holds exactly the graph's stored edges. */
  lemma ScanIsStored(g: Graph, order: seq<Key>, e: Edge)
    requires IsKeyOrder(g.vertices, order)
    ensures e in Scan(g.vertices, order) <==> exists k :: k in g.vertices && e in g.vertices[k].edges
  {
    ScanMembers(g.vertices, order, e);
    if exists k :: k in g.vertices && e in g.vertices[k].edges {
      var k :| k in g.vertices && e in g.vertices[k].edges;
      var i :| 0 <= i < |order| && order[i] == k;
    }
  }

  /** When stored edges resolve, every scanned endpoint is a key, so every
      index lookup of the views succeeds. */
  lemma ScanResolves(g: Graph, order: seq<Key>)
    requires IsKeyOrder(g.vertices, order)
    requires EdgesResolve(g)
    ensures forall e :: e in Scan(g.vertices, order) ==> Source(e) in g.vertices && Target(e) in g.vertices
  {
    forall e | e in Scan(g.vertices, order)
      ensures Source(e) in g.vertices && Target(e) in g.vertices
    {
      ScanIsStored(g, order, e);
    }
  }

  /** Sum of the list lengths of the vertices in `order`. */
  function SumLengths(m: map<Key, Vertex>, order: seq<Key>): nat
    requires forall i :: 0 <= i < |order| ==> order[i] in m
    decreases |order|
  {
    if |order| == 0 then 0
    else SumLengths(m, order[..|order| - 1]) + |m[order[|order| - 1]].edges|
  }

  /** The views visit every stored edge once: a scan in key order is as long
      as the number of stored edges. */
  lemma ScanCountsEdges(m: map<Key, Vertex>, order: seq<Key>)
    requires IsKeyOrder(m, order)
    ensures |Scan(m, order)| == EdgeTotal(m)
  {
    SumLengthsIsEdgeTotal(m, order);
  }

  /** Summing over a key order counts every stored edge, whatever the order. */
  lemma {:induction false} SumLengthsIsEdgeTotal(m: map<Key, Vertex>, order: seq<Key>)
    requires IsKeyOrder(m, order)
    ensures SumLengths(m, order) == EdgeTotal(m)
    decreases |order|
  {
    if |order| == 0 {
      KeyOrderLength(m, order);
    } else {
      var k := order[|order| - 1];
      var pre := order[..|order| - 1];
      var m' := m - {k};
      assert IsKeyOrder(m', pre) by {
        assert Distinct(pre);
        forall x | x in m' ensures x in pre {
          var i :| 0 <= i < |order| && order[i] == x;
          assert i != |order| - 1;
        }
      }
      SumLengthsIsEdgeTotal(m', pre);
      SumLengthsAgree(m, m', pre);
      EdgeTotalRemove(m, k);
    }
  }

  /** The sum only reads the vertices it visits. */
  lemma {:induction false} SumLengthsAgree(m: map<Key, Vertex>, m': map<Key, Vertex>, order: seq<Key>)
    requires forall i :: 0 <= i < |order| ==> order[i] in m && order[i] in m' && m[order[i]] == m'[order[i]]
    ensures SumLengths(m, order) == SumLengths(m', order)
    decreases |order|
  {
    if |order| > 0 {
      SumLengthsAgree(m, m', order[..|order| - 1]);
    }
  }
}
