/** `csr_representation` (src/graph/graph.rs:200-234): a Compressed Sparse
    Row encoding, i.e. a flat list of neighbours and a prefix-sum offset
    array marking where each vertex's neighbours start. */
module Csr {
  import opened Wrappers
  import opened Elements
  import opened Graphs
  import opened KeyOrder

  /** The other endpoint of `e` as seen from the vertex stored under `key`:
      the second endpoint when the first is `key`, otherwise the first. A
      self-loop yields `key` itself. */
  function Neighbour(key: Key, e: Edge): (r: Key)
    ensures Source(e) == key || Target(e) == key ==>
      (Source(e) == key && Target(e) == r) || (Target(e) == key && Source(e) == r)
    ensures Source(e) == key || Target(e) == key ==> (r == key <==> Source(e) == Target(e))
  {
    if Source(e) == key then Target(e) else Source(e)
  }

  /** The neighbour entries of one vertex, in list order. */
  function NeighbourRow(key: Key, edges: seq<Edge>): (r: seq<Option<Key>>)
    ensures |r| == |edges|
    ensures forall t :: 0 <= t < |edges| ==> r[t] == Some(Neighbour(key, edges[t]))
  {
    seq(|edges|, t requires 0 <= t < |edges| => Some(Neighbour(key, edges[t])))
  }

  /** Reference definition of the neighbour list: every vertex's row, in key order. */
  function NeighbourRows(m: map<Key, Vertex>, order: seq<Key>): seq<Option<Key>>
    requires forall i :: 0 <= i < |order| ==> order[i] in m
    decreases |order|
  {
    if |order| == 0 then []
    else
      var k := order[|order| - 1];
      NeighbourRows(m, order[..|order| - 1]) + NeighbourRow(k, m[k].edges)
  }

  /** The rows fill the neighbour list exactly. */
  lemma {:induction false} NeighbourRowsLength(m: map<Key, Vertex>, order: seq<Key>)
    requires forall i :: 0 <= i < |order| ==> order[i] in m
    ensures |NeighbourRows(m, order)| == SumLengths(m, order)
    decreases |order|
  {
    if |order| > 0 {
      NeighbourRowsLength(m, order[..|order| - 1]);
    }
  }

  /** The neighbour of edge `t` of vertex `i` sits at the sum of the earlier
      vertices' list lengths plus `t`. */
  lemma {:induction false} NeighbourRowsAt(m: map<Key, Vertex>, order: seq<Key>, i: nat, t: nat)
    requires forall j :: 0 <= j < |order| ==> order[j] in m
    requires i < |order| && t < |m[order[i]].edges|
    ensures SumLengths(m, order[..i]) + t < |NeighbourRows(m, order)|
    ensures NeighbourRows(m, order)[SumLengths(m, order[..i]) + t] == Some(Neighbour(order[i], m[order[i]].edges[t]))
    decreases |order|
  {
    var pre := order[..|order| - 1];
    var last := order[|order| - 1];
    NeighbourRowsLength(m, pre);
    if i < |pre| {
      assert order[..i] == pre[..i];
      assert pre[i] == order[i];
      NeighbourRowsAt(m, pre, i, t);
    } else {
      assert order[..i] == pre;
    }
  }

  /** Offsets that never shrink from one step to the next never shrink at all. */
  lemma {:induction false} StepsNonDecreasing(s: seq<nat>)
    requires forall i :: 0 <= i < |s| - 1 ==> s[i] <= s[i + 1]
    ensures forall i, j :: 0 <= i <= j < |s| ==> s[i] <= s[j]
    decreases |s|
  {
    if |s| > 1 {
      var pre := s[..|s| - 1];
      StepsNonDecreasing(pre);
      forall i, j | 0 <= i <= j < |s| ensures s[i] <= s[j] {
        if j == |s| - 1 && i < j {
          assert pre[i] <= pre[j - 1];
        } else if j < |s| - 1 {
          assert pre[i] <= pre[j];
        }
      }
    }
  }

  /** The offsets the prefix-sum pass produces: zero first, each step one
      vertex's list length, never shrinking, and ending at the total number
      of stored edges. */
  lemma CsrOffsets(g: Graph, order: seq<Key>, indices: seq<nat>)
    requires IsKeyOrder(g.vertices, order)
    requires |indices| == |order| + 1
    requires forall j :: 0 <= j <= |order| ==> indices[j] == SumLengths(g.vertices, order[..j])
    ensures indices[0] == 0
    ensures forall i :: 0 <= i < |order| ==> indices[i + 1] == indices[i] + |g.vertices[order[i]].edges|
    ensures forall i, j :: 0 <= i <= j < |indices| ==> indices[i] <= indices[j]
    ensures indices[|order|] == EdgeTotal(g.vertices)
  {
    assert indices[|order|] == EdgeTotal(g.vertices) by {
      assert order[..|order|] == order;
      SumLengthsIsEdgeTotal(g.vertices, order);
    }
    OffsetSteps(g.vertices, order, indices);
    assert forall i :: 0 <= i < |indices| - 1 ==> indices[i] <= indices[i + 1] by {
      forall i | 0 <= i < |indices| - 1 ensures indices[i] <= indices[i + 1] {
        assert indices[i + 1] == indices[i] + |g.vertices[order[i]].edges|;
      }
    }
    StepsNonDecreasing(indices);
  }

  /** Consecutive prefix sums differ by one vertex's list length. */
  lemma OffsetSteps(m: map<Key, Vertex>, order: seq<Key>, indices: seq<nat>)
    requires forall i :: 0 <= i < |order| ==> order[i] in m
    requires |indices| == |order| + 1
    requires forall j :: 0 <= j <= |order| ==> indices[j] == SumLengths(m, order[..j])
    ensures forall i :: 0 <= i < |order| ==> indices[i + 1] == indices[i] + |m[order[i]].edges|
  {
    forall j | 0 <= j < |order|
      ensures indices[j + 1] == indices[j] + |m[order[j]].edges|
    {
      assert order[..j + 1][..j] == order[..j];
    }
  }

  /** Position `p` of the neighbour list, before its terminator, holds the
      neighbour of `e` as seen from `key`. */
  predicate ListsNeighbour(adjacents: seq<Option<Key>>, p: nat, key: Key, e: Edge)
  {
    p < |adjacents| - 1 && adjacents[p] == Some(Neighbour(key, e))
  }

  /** The neighbour list the first pass produces, followed by its terminator:
      one present entry per stored edge, vertex `i`'s entries from offset
      `i` on, and a single `None` at the very end. */
  lemma CsrNeighbours(m: map<Key, Vertex>, order: seq<Key>, adjacents: seq<Option<Key>>, indices: seq<nat>)
    requires forall i :: 0 <= i < |order| ==> order[i] in m
    requires |indices| == |order| + 1
    requires forall j :: 0 <= j <= |order| ==> indices[j] == SumLengths(m, order[..j])
    requires adjacents == NeighbourRows(m, order) + [None]
    ensures |adjacents| == indices[|order|] + 1
    ensures adjacents[|adjacents| - 1] == None
    ensures forall p :: 0 <= p < |adjacents| - 1 ==> adjacents[p].Some?
    ensures forall i, t :: 0 <= i < |order| && 0 <= t < |m[order[i]].edges| ==>
      ListsNeighbour(adjacents, indices[i] + t, order[i], m[order[i]].edges[t])
  {
    assert order[..|order|] == order;
    NeighbourRowsLength(m, order);
    forall i, t | 0 <= i < |order| && 0 <= t < |m[order[i]].edges|
      ensures ListsNeighbour(adjacents, indices[i] + t, order[i], m[order[i]].edges[t])
    {
      NeighbourRowsAt(m, order, i, t);
    }
    forall p | 0 <= p < |adjacents| - 1
      ensures adjacents[p].Some?
    {
      NeighbourRowsSome(m, order, p);
    }
  }

  /** Every entry of the reference neighbour list is present. */
  lemma {:induction false} NeighbourRowsSome(m: map<Key, Vertex>, order: seq<Key>, p: nat)
    requires forall i :: 0 <= i < |order| ==> order[i] in m
    requires p < |NeighbourRows(m, order)|
    ensures NeighbourRows(m, order)[p].Some?
    decreases |order|
  {
    var pre := order[..|order| - 1];
    if p < |NeighbourRows(m, pre)| {
      NeighbourRowsSome(m, pre, p);
    }
  }

  /** First pass of `csr_representation`: for each vertex in key order and
      each of its edges, push the neighbour and count it in the slot after
      the vertex's index. */
  method CollectNeighbours(g: Graph, order: seq<Key>) returns (adjacents: seq<Option<Key>>, counts: seq<nat>)
    requires IsKeyOrder(g.vertices, order)
    ensures adjacents == NeighbourRows(g.vertices, order)
    ensures |counts| == |order| + 1
    ensures counts[0] == 0
    ensures forall i :: 0 <= i < |order| ==> counts[i + 1] == |g.vertices[order[i]].edges|
  {
    var n := |order|;
    counts := seq(n + 1, _ => 0);
    adjacents := [];
    var k := 0;
    while k < n
      invariant 0 <= k <= n
      invariant |counts| == n + 1
      invariant counts[0] == 0
      invariant forall i :: 0 <= i < k ==> counts[i + 1] == |g.vertices[order[i]].edges|
      invariant forall i :: k < i <= n ==> counts[i] == 0
      invariant adjacents == NeighbourRows(g.vertices, order[..k])
    {
      var key := order[k];
      var edges := g.vertices[key].edges;
      var t := 0;
      while t < |edges|
        invariant 0 <= t <= |edges|
        invariant |counts| == n + 1
        invariant counts[0] == 0
        invariant counts[k + 1] == t
        invariant forall i :: 0 <= i < k ==> counts[i + 1] == |g.vertices[order[i]].edges|
        invariant forall i :: k + 1 < i <= n ==> counts[i] == 0
        invariant adjacents == NeighbourRows(g.vertices, order[..k]) + NeighbourRow(key, edges[..t])
      {
        assert edges[..t + 1] == edges[..t] + [edges[t]];
        adjacents := adjacents + [Some(Neighbour(key, edges[t]))];
        counts := counts[k + 1 := counts[k + 1] + 1];
        t := t + 1;
      }
      assert edges[..t] == edges;
      assert order[..k + 1][..k] == order[..k];
      k := k + 1;
    }
    assert order[..n] == order;
  }

  /** Second pass of `csr_representation`: in place, each slot from the
      second on adds the slot before it, turning per-vertex counts into
      starting offsets. */
  method PrefixSums(g: Graph, order: seq<Key>, counts: seq<nat>) returns (indices: seq<nat>)
    requires forall i :: 0 <= i < |order| ==> order[i] in g.vertices
    requires |counts| == |order| + 1
    requires counts[0] == 0
    requires forall i :: 0 <= i < |order| ==> counts[i + 1] == |g.vertices[order[i]].edges|
    ensures |indices| == |order| + 1
    ensures forall j :: 0 <= j <= |order| ==> indices[j] == SumLengths(g.vertices, order[..j])
  {
    indices := counts;
    var i := 1;
    while i < |indices|
      invariant 1 <= i <= |order| + 1
      invariant |indices| == |order| + 1
      invariant forall j :: 0 <= j < i ==> indices[j] == SumLengths(g.vertices, order[..j])
      invariant forall j :: i <= j <= |order| ==> indices[j] == counts[j]
    {
      assert order[..i][..i - 1] == order[..i - 1];
      indices := indices[i := indices[i] + indices[i - 1]];
      i := i + 1;
    }
  }

  /** `csr_representation`: the neighbour pass, the prefix-sum pass, then a
      single `None` terminating the neighbour list. */
  method CsrRepresentation(g: Graph, order: seq<Key>) returns (adjacents: seq<Option<Key>>, indices: seq<nat>)
    requires IsKeyOrder(g.vertices, order)
    ensures |indices| == |g.vertices| + 1 == |order| + 1
    ensures indices[0] == 0
    ensures forall i :: 0 <= i < |order| ==> indices[i + 1] == indices[i] + |g.vertices[order[i]].edges|
    ensures forall i, j :: 0 <= i <= j < |indices| ==> indices[i] <= indices[j]
    ensures indices[|order|] == EdgeTotal(g.vertices)
    ensures |adjacents| == indices[|order|] + 1
    ensures adjacents[|adjacents| - 1] == None
    ensures forall p :: 0 <= p < |adjacents| - 1 ==> adjacents[p].Some?
    ensures forall i, t :: 0 <= i < |order| && 0 <= t < |g.vertices[order[i]].edges| ==>
      ListsNeighbour(adjacents, indices[i] + t, order[i], g.vertices[order[i]].edges[t])
  {
    KeyOrderLength(g.vertices, order);
    var counts;
    adjacents, counts := CollectNeighbours(g, order);
    indices := PrefixSums(g, order, counts);
    adjacents := adjacents + [None];
    CsrOffsets(g, order, indices);
    CsrNeighbours(g.vertices, order, adjacents, indices);
  }
}
