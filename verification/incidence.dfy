/** `incidence_matrix` (src/graph/graph.rs:145-184): one column per distinct
    unordered endpoint pair among the stored edges, kept in the orientation
    and with the weight of the first edge of that pair met in the scan. */
module Incidence {
  import opened Elements
  import opened Graphs
  import opened KeyOrder

  /** One column: the endpoints (as met first) and weight of a logical edge. */
  datatype Column = Column(source: Key, target: Key, weight: Weight)

  /** The column an edge would contribute. */
  function ColumnOf(e: Edge): Column
  {
    Column(Source(e), Target(e), e.weight)
  }

  /** `{a, b}` and `{c, d}` are the same unordered pair. */
  predicate SamePair(a: Key, b: Key, c: Key, d: Key)
  {
    (a == c && b == d) || (a == d && b == c)
  }

  /** The deduplicating scan as written: a set of seen ordered pairs, and the
      columns collected so far. An edge is skipped when its pair was seen in
      either orientation; otherwise its orientation is recorded and it
      becomes a column. */
  function Dedup(scan: seq<Edge>): (r: (set<(Key, Key)>, seq<Column>))
    ensures forall c :: 0 <= c < |r.1| ==> exists p :: 0 <= p < |scan| && r.1[c] == ColumnOf(scan[p])
    decreases |scan|
  {
    if |scan| == 0 then ({}, [])
    else
      var pre := scan[..|scan| - 1];
      var e := scan[|scan| - 1];
      var prev := Dedup(pre);
      assert forall p :: 0 <= p < |pre| ==> pre[p] == scan[p];
      var v1, v2 := Source(e), Target(e);
      if (v1, v2) !in prev.0 && (v2, v1) !in prev.0 then
        var r := (prev.0 + {(v1, v2)}, prev.1 + [ColumnOf(e)]);
        assert r.1[|prev.1|] == ColumnOf(scan[|scan| - 1]);
        r
      else prev
  }

  /** Position `p` is the first position in the scan with its unordered pair. */
  predicate FirstOfPair(scan: seq<Edge>, p: nat)
    requires p < |scan|
  {
    forall q :: 0 <= q < p ==> !SamePair(Source(scan[q]), Target(scan[q]), Source(scan[p]), Target(scan[p]))
  }

  /** Reference definition of the columns: the first edge of every unordered
      pair, in scan order. */
  function FirstColumns(scan: seq<Edge>): seq<Column>
    decreases |scan|
  {
    if |scan| == 0 then []
    else
      FirstColumns(scan[..|scan| - 1])
      + (if FirstOfPair(scan, |scan| - 1) then [ColumnOf(scan[|scan| - 1])] else [])
  }

  /** Some scanned edge joins `x` and `y`, in either orientation. */
  predicate PairScanned(scan: seq<Edge>, x: Key, y: Key)
  {
    exists q :: 0 <= q < |scan| && SamePair(Source(scan[q]), Target(scan[q]), x, y)
  }

  /** A pair is scanned in a longer scan exactly when it is scanned in the
      prefix or is the last edge's pair. */
  lemma PairScannedLast(scan: seq<Edge>, x: Key, y: Key)
    requires |scan| > 0
    ensures PairScanned(scan, x, y) <==>
      PairScanned(scan[..|scan| - 1], x, y) || SamePair(Source(scan[|scan| - 1]), Target(scan[|scan| - 1]), x, y)
  {
    var pre := scan[..|scan| - 1];
    if PairScanned(scan, x, y) {
      var q :| 0 <= q < |scan| && SamePair(Source(scan[q]), Target(scan[q]), x, y);
      if q < |pre| {
        assert SamePair(Source(pre[q]), Target(pre[q]), x, y);
      }
    }
    if PairScanned(pre, x, y) {
      var q :| 0 <= q < |pre| && SamePair(Source(pre[q]), Target(pre[q]), x, y);
      assert scan[q] == pre[q];
    }
  }

  /** The seen set holds one orientation of exactly the pairs scanned so far. */
  lemma {:induction false} DedupSeen(scan: seq<Edge>)
    ensures forall x, y :: ((x, y) in Dedup(scan).0 || (y, x) in Dedup(scan).0) <==> PairScanned(scan, x, y)
    decreases |scan|
  {
    if |scan| > 0 {
      var pre := scan[..|scan| - 1];
      DedupSeen(pre);
      forall x, y
        ensures ((x, y) in Dedup(scan).0 || (y, x) in Dedup(scan).0) <==> PairScanned(scan, x, y)
      {
        PairScannedLast(scan, x, y);
        var v1, v2 := Source(scan[|scan| - 1]), Target(scan[|scan| - 1]);
        PairScannedLast(scan, v1, v2);
      }
    }
  }

  /** The last edge is the first of its pair exactly when its pair was not
      scanned before it. */
  lemma FirstOfPairLast(scan: seq<Edge>)
    requires |scan| > 0
    ensures FirstOfPair(scan, |scan| - 1) <==>
      !PairScanned(scan[..|scan| - 1], Source(scan[|scan| - 1]), Target(scan[|scan| - 1]))
  {
    var pre := scan[..|scan| - 1];
    var v1, v2 := Source(scan[|scan| - 1]), Target(scan[|scan| - 1]);
    if PairScanned(pre, v1, v2) {
      var q :| 0 <= q < |pre| && SamePair(Source(pre[q]), Target(pre[q]), v1, v2);
      assert scan[q] == pre[q];
    }
    if !FirstOfPair(scan, |scan| - 1) {
      var q :| 0 <= q < |scan| - 1 && SamePair(Source(scan[q]), Target(scan[q]), v1, v2);
      assert pre[q] == scan[q];
    }
  }

  /** The collected columns are the first edges of each pair: the seen-set
      fold computes the reference definition. */
  lemma {:induction false} DedupIsFirstColumns(scan: seq<Edge>)
    ensures Dedup(scan).1 == FirstColumns(scan)
    decreases |scan|
  {
    if |scan| > 0 {
      var pre := scan[..|scan| - 1];
      DedupIsFirstColumns(pre);
      DedupSeen(pre);
      FirstOfPairLast(scan);
    }
  }

  /** Being the first of its pair does not depend on what follows. */
  lemma FirstOfPairPrefix(scan: seq<Edge>, p: nat)
    requires p < |scan| - 1
    ensures FirstOfPair(scan[..|scan| - 1], p) <==> FirstOfPair(scan, p)
  {
    var pre := scan[..|scan| - 1];
    assert forall q :: 0 <= q <= p ==> pre[q] == scan[q];
  }

  /** `col` is the column of an edge that is the first of its pair. */
  predicate FromFirstOfPair(scan: seq<Edge>, col: Column)
  {
    exists p :: 0 <= p < |scan| && FirstOfPair(scan, p) && col == ColumnOf(scan[p])
  }

  /** Every column is the first edge of its pair, with that edge's
      orientation and weight. */
  lemma {:induction false} FirstColumnsOrigin(scan: seq<Edge>)
    ensures forall c :: 0 <= c < |FirstColumns(scan)| ==> FromFirstOfPair(scan, FirstColumns(scan)[c])
    decreases |scan|
  {
    if |scan| > 0 {
      var pre := scan[..|scan| - 1];
      FirstColumnsOrigin(pre);
      var before := FirstColumns(pre);
      var cols := FirstColumns(scan);
      assert cols == before + (if FirstOfPair(scan, |scan| - 1) then [ColumnOf(scan[|scan| - 1])] else []);
      forall c | 0 <= c < |cols|
        ensures FromFirstOfPair(scan, cols[c])
      {
        if c < |before| {
          assert FromFirstOfPair(pre, before[c]);
          var p :| 0 <= p < |pre| && FirstOfPair(pre, p) && before[c] == ColumnOf(pre[p]);
          assert cols[c] == before[c];
          FirstOfPairPrefix(scan, p);
          assert FirstOfPair(scan, p) && cols[c] == ColumnOf(scan[p]);
        } else {
          assert cols[c] == ColumnOf(scan[|scan| - 1]);
        }
      }
    }
  }

  /** No two columns share an unordered pair, even in a directed graph. */
  lemma {:induction false} FirstColumnsDistinct(scan: seq<Edge>)
    ensures forall a, b :: 0 <= a < b < |FirstColumns(scan)| ==>
      !SamePair(FirstColumns(scan)[a].source, FirstColumns(scan)[a].target,
                FirstColumns(scan)[b].source, FirstColumns(scan)[b].target)
    decreases |scan|
  {
    if |scan| > 0 {
      var pre := scan[..|scan| - 1];
      var last := |scan| - 1;
      FirstColumnsDistinct(pre);
      FirstColumnsOrigin(pre);
      var old_cols := FirstColumns(pre);
      var cols := FirstColumns(scan);
      forall a, b | 0 <= a < b < |cols|
        ensures !SamePair(cols[a].source, cols[a].target, cols[b].source, cols[b].target)
      {
        if b == |old_cols| {
          var p :| 0 <= p < |pre| && FirstOfPair(pre, p) && old_cols[a] == ColumnOf(pre[p]);
          assert pre[p] == scan[p];
          assert cols[b] == ColumnOf(scan[last]);
          assert FirstOfPair(scan, last);
        } else {
          assert cols[a] == old_cols[a] && cols[b] == old_cols[b];
        }
      }
    }
  }

  /** Some column has the unordered pair of `e`'s endpoints. */
  predicate HasColumnFor(cols: seq<Column>, e: Edge)
  {
    exists c :: 0 <= c < |cols| && SamePair(cols[c].source, cols[c].target, Source(e), Target(e))
  }

  /** Every scanned edge's unordered pair has a column. */
  lemma {:induction false} FirstColumnsCover(scan: seq<Edge>)
    ensures forall p :: 0 <= p < |scan| ==> HasColumnFor(FirstColumns(scan), scan[p])
    decreases |scan|
  {
    if |scan| > 0 {
      var pre := scan[..|scan| - 1];
      var last := |scan| - 1;
      var e := scan[last];
      FirstColumnsCover(pre);
      var old_cols := FirstColumns(pre);
      var cols := FirstColumns(scan);
      forall p | 0 <= p < |scan|
        ensures HasColumnFor(cols, scan[p])
      {
        if p < |pre| {
          assert pre[p] == scan[p];
          var c :| 0 <= c < |old_cols| &&
            SamePair(old_cols[c].source, old_cols[c].target, Source(pre[p]), Target(pre[p]));
          assert cols[c] == old_cols[c];
        } else if FirstOfPair(scan, last) {
          assert cols[|old_cols|] == ColumnOf(e);
        } else {
          var q :| 0 <= q < last && SamePair(Source(scan[q]), Target(scan[q]), Source(e), Target(e));
          assert pre[q] == scan[q];
          var c :| 0 <= c < |old_cols| &&
            SamePair(old_cols[c].source, old_cols[c].target, Source(pre[q]), Target(pre[q]));
          assert cols[c] == old_cols[c];
        }
      }
    }
  }

  /** Rows of weights. */
  type IncMatrix = seq<seq<Weight>>

  /** `m` has `rows` rows of `cols` cells each. */
  predicate IsGrid(m: IncMatrix, rows: nat, cols: nat)
  {
    |m| == rows && forall i :: 0 <= i < rows ==> |m[i]| == cols
  }

  /** A `rows`×`cols` table of zeros. */
  function ZeroMatrix(rows: nat, cols: nat): (m: IncMatrix)
    ensures IsGrid(m, rows, cols)
    ensures forall i, c :: 0 <= i < rows && 0 <= c < cols ==> m[i][c] == 0.0
  {
    seq(rows, _ => seq(cols, _ => 0.0))
  }

  /** The column's endpoints have an index below `n`. */
  predicate ColumnIndexed(idx: map<Key, nat>, col: Column, n: nat)
  {
    col.source in idx && col.target in idx && idx[col.source] < n && idx[col.target] < n
  }

  /** Every column's endpoints have an index below `n`. */
  predicate ColumnsIndexed(idx: map<Key, nat>, cols: seq<Column>, n: nat)
  {
    forall c :: 0 <= c < |cols| ==> ColumnIndexed(idx, cols[c], n)
  }

  /** The writes for column `c`: the source row gets the weight, then the
      target row gets the negated weight (directed) or the weight. */
  function WriteColumn(m: IncMatrix, idx: map<Key, nat>, directed: bool, c: nat, col: Column): (r: IncMatrix)
    requires forall i :: 0 <= i < |m| ==> c < |m[i]|
    requires col.source in idx && col.target in idx && idx[col.source] < |m| && idx[col.target] < |m|
    ensures |r| == |m|
    ensures forall i :: 0 <= i < |m| ==> |r[i]| == |m[i]|
    ensures forall i, d :: 0 <= i < |m| && 0 <= d < |m[i]| ==>
      r[i][d] == if d == c && i == idx[col.target] then (if directed then -col.weight else col.weight)
                 else if d == c && i == idx[col.source] then col.weight
                 else m[i][d]
  {
    var i := idx[col.source];
    var j := idx[col.target];
    var m1 := m[i := m[i][c := col.weight]];
    m1[j := m1[j][c := if directed then -col.weight else col.weight]]
  }

  /** The writes for every column, column `c` holding `cols[c]`. */
  function WriteColumns(m: IncMatrix, idx: map<Key, nat>, directed: bool, cols: seq<Column>): (r: IncMatrix)
    requires forall i :: 0 <= i < |m| ==> |cols| <= |m[i]|
    requires ColumnsIndexed(idx, cols, |m|)
    ensures |r| == |m| && forall i :: 0 <= i < |m| ==> |r[i]| == |m[i]|
    ensures forall i, d :: 0 <= i < |m| && |cols| <= d < |m[i]| ==> r[i][d] == m[i][d]
    ensures forall i, d :: 0 <= i < |m| && 0 <= d < |cols| && i != idx[cols[d].source] && i != idx[cols[d].target] ==>
      r[i][d] == m[i][d]
    decreases |cols|
  {
    if |cols| == 0 then m
    else
      var pre := cols[..|cols| - 1];
      assert ColumnsIndexed(idx, pre, |m|);
      var before := WriteColumns(m, idx, directed, pre);
      WriteColumn(before, idx, directed, |pre|, cols[|cols| - 1])
  }

  /** The columns of a graph's incidence matrix, deduplicated in scan order:
      they are the reference columns of the scan. */
  function IncidenceColumns(g: Graph, order: seq<Key>): (r: seq<Column>)
    requires forall i :: 0 <= i < |order| ==> order[i] in g.vertices
    ensures r == FirstColumns(Scan(g.vertices, order))
  {
    DedupIsFirstColumns(Scan(g.vertices, order));
    Dedup(Scan(g.vertices, order)).1
  }

  /** When stored edges resolve, every column endpoint has a row. */
  lemma IncidenceColumnsIndexed(g: Graph, order: seq<Key>)
    requires IsKeyOrder(g.vertices, order)
    requires EdgesResolve(g)
    ensures ColumnsIndexed(IndexMap(order), IncidenceColumns(g, order), |order|)
  {
    var scan := Scan(g.vertices, order);
    var cols := IncidenceColumns(g, order);
    ScanResolves(g, order);
    forall c | 0 <= c < |cols|
      ensures cols[c].source in IndexMap(order) && cols[c].target in IndexMap(order)
    {
      var p :| 0 <= p < |scan| && cols[c] == ColumnOf(scan[p]);
      assert scan[p] in scan;
    }
  }

  /** `incidence_matrix`: a zero table with a row per vertex and a column per
      deduplicated pair, then each column's writes. Every stored endpoint must
      be a key (the source unwraps the index lookup). */
  function IncidenceMatrix(g: Graph, order: seq<Key>): (r: IncMatrix)
    requires IsKeyOrder(g.vertices, order)
    requires EdgesResolve(g)
    ensures IsGrid(r, |g.vertices|, |IncidenceColumns(g, order)|)
  {
    KeyOrderLength(g.vertices, order);
    IncidenceColumnsIndexed(g, order);
    var cols := IncidenceColumns(g, order);
    WriteColumns(ZeroMatrix(|g.vertices|, |cols|), IndexMap(order), g.directed, cols)
  }

  /** Reference definition of an entry: row `i` of the column for `col`.
      The target row is written last, so a directed self-loop keeps the
      negated weight. */
  function Entry(order: seq<Key>, directed: bool, col: Column, i: nat): Weight
    requires i < |order|
  {
    if order[i] == col.target then (if directed then -col.weight else col.weight)
    else if order[i] == col.source then col.weight
    else 0.0
  }

  /** One column's writes change only that column, in its endpoint rows. */
  lemma WriteColumnCell(m: IncMatrix, order: seq<Key>, directed: bool, c: nat, col: Column, i: nat, k: nat)
    requires Distinct(order)
    requires |m| == |order|
    requires forall x :: 0 <= x < |m| ==> c < |m[x]|
    requires ColumnIndexed(IndexMap(order), col, |order|)
    requires i < |order| && k < |m[i]|
    ensures WriteColumn(m, IndexMap(order), directed, c, col)[i][k]
            == if k == c && (order[i] == col.source || order[i] == col.target)
               then Entry(order, directed, col, i) else m[i][k]
  {
    var idx := IndexMap(order);
    var s, t := idx[col.source], idx[col.target];
    assert idx[order[i]] == i;
    assert i == s <==> order[i] == col.source;
    assert i == t <==> order[i] == col.target;
    var m1 := m[s := m[s][c := col.weight]];
    assert m1[i][k] == if i == s && k == c then col.weight else m[i][k];
  }

  /** The last column's writes, on top of the writes of the earlier columns. */
  lemma WriteColumnsLast(m: IncMatrix, order: seq<Key>, directed: bool, cols: seq<Column>, i: nat, c: nat)
    requires Distinct(order)
    requires |m| == |order|
    requires forall x :: 0 <= x < |m| ==> |cols| <= |m[x]|
    requires ColumnsIndexed(IndexMap(order), cols, |order|)
    requires i < |order| && c < |m[i]| && |cols| > 0
    ensures ColumnsIndexed(IndexMap(order), cols[..|cols| - 1], |order|)
    ensures WriteColumns(m, IndexMap(order), directed, cols)[i][c]
            == if c == |cols| - 1 && (order[i] == cols[c].source || order[i] == cols[c].target)
               then Entry(order, directed, cols[c], i)
               else WriteColumns(m, IndexMap(order), directed, cols[..|cols| - 1])[i][c]
  {
    var idx := IndexMap(order);
    var pre := cols[..|cols| - 1];
    assert ColumnsIndexed(idx, pre, |order|) by {
      assert forall x :: 0 <= x < |pre| ==> pre[x] == cols[x];
    }
    var before := WriteColumns(m, idx, directed, pre);
    WriteColumnCell(before, order, directed, |pre|, cols[|cols| - 1], i, c);
  }

  /** After the column writes, an entry of a written column in one of its
      endpoint rows is the reference entry; every other entry is unchanged. */
  lemma {:induction false} WriteColumnsCell(m: IncMatrix, order: seq<Key>, directed: bool, cols: seq<Column>, i: nat, c: nat)
    requires Distinct(order)
    requires |m| == |order|
    requires forall x :: 0 <= x < |m| ==> |cols| <= |m[x]|
    requires ColumnsIndexed(IndexMap(order), cols, |order|)
    requires i < |order| && c < |m[i]|
    ensures WriteColumns(m, IndexMap(order), directed, cols)[i][c]
            == if c < |cols| && (order[i] == cols[c].source || order[i] == cols[c].target)
               then Entry(order, directed, cols[c], i) else m[i][c]
    decreases |cols|
  {
    if |cols| > 0 {
      var pre := cols[..|cols| - 1];
      WriteColumnsLast(m, order, directed, cols, i, c);
      WriteColumnsCell(m, order, directed, pre, i, c);
      if c < |pre| {
        assert cols[c] == pre[c];
      }
    }
  }

  /** Entry (i, c) of the incidence matrix is the reference entry of row i
      for column c: in a directed graph the source row holds the weight and
      the target row its negation, in an undirected graph both hold the
      weight, a self-loop has one entry (negated when directed), and every
      other row is zero. */
  lemma IncidenceCells(g: Graph, order: seq<Key>)
    requires IsKeyOrder(g.vertices, order)
    requires EdgesResolve(g)
    ensures |order| == |g.vertices|
    ensures forall i, c :: 0 <= i < |order| && 0 <= c < |IncidenceColumns(g, order)| ==>
      IncidenceMatrix(g, order)[i][c] == Entry(order, g.directed, IncidenceColumns(g, order)[c], i)
  {
    KeyOrderLength(g.vertices, order);
    IncidenceColumnsIndexed(g, order);
    var cols := IncidenceColumns(g, order);
    forall i, c | 0 <= i < |order| && 0 <= c < |cols|
      ensures IncidenceMatrix(g, order)[i][c] == Entry(order, g.directed, cols[c], i)
    {
      WriteColumnsCell(ZeroMatrix(|order|, |cols|), order, g.directed, cols, i, c);
    }
  }

  /** The incidence columns are the first stored edge of every distinct
      unordered endpoint pair, once each: no two columns share a pair (A→B and
      B→A share one even when directed), every stored edge's pair has a column,
      and each column keeps the orientation and weight of the first edge of
      its pair in scan order. */
  lemma IncidenceColumnsArePairs(g: Graph, order: seq<Key>)
    requires IsKeyOrder(g.vertices, order)
    ensures var scan := Scan(g.vertices, order);
      var cols := IncidenceColumns(g, order);
      && cols == FirstColumns(scan)
      && (forall a, b :: 0 <= a < b < |cols| ==>
            !SamePair(cols[a].source, cols[a].target, cols[b].source, cols[b].target))
      && (forall p :: 0 <= p < |scan| ==> HasColumnFor(cols, scan[p]))
      && (forall c :: 0 <= c < |cols| ==>
            exists p :: 0 <= p < |scan| && FirstOfPair(scan, p) && cols[c] == ColumnOf(scan[p]))
  {
    var scan := Scan(g.vertices, order);
    DedupIsFirstColumns(scan);
    FirstColumnsDistinct(scan);
    FirstColumnsCover(scan);
    FirstColumnsOrigin(scan);
  }

  /** Sum of the first `rows` entries of column `c`. */
  function ColumnSum(m: IncMatrix, c: nat, rows: nat): Weight
    requires rows <= |m| && forall i :: 0 <= i < rows ==> c < |m[i]|
    decreases rows
  {
    if rows == 0 then 0.0 else ColumnSum(m, c, rows - 1) + m[rows - 1][c]
  }

  /** The sum of the first `rows` reference entries counts only the endpoint rows. */
  lemma {:induction false} EntrySum(m: IncMatrix, order: seq<Key>, directed: bool, col: Column, c: nat, rows: nat)
    requires Distinct(order)
    requires rows <= |order| == |m| && forall i :: 0 <= i < |m| ==> c < |m[i]|
    requires forall i :: 0 <= i < |m| ==> m[i][c] == Entry(order, directed, col, i)
    ensures ColumnSum(m, c, rows)
      == (if col.source in order[..rows] && col.source != col.target then col.weight else 0.0)
       + (if col.target in order[..rows] then (if directed then -col.weight else col.weight) else 0.0)
    decreases rows
  {
    if rows > 0 {
      EntrySum(m, order, directed, col, c, rows - 1);
      assert order[..rows] == order[..rows - 1] + [order[rows - 1]];
      var k := order[rows - 1];
      if k == col.source || k == col.target {
        assert k !in order[..rows - 1];
      }
    }
  }

  /** The closed form of a whole column's sum, given reference entries. */
  function ExpectedSum(directed: bool, col: Column): Weight
  {
    if col.source == col.target then (if directed then -col.weight else col.weight)
    else if directed then 0.0
    else 2.0 * col.weight
  }

  /** A column of reference entries whose endpoints both have rows sums to the closed form. */
  lemma ColumnSumOfEntries(m: IncMatrix, order: seq<Key>, directed: bool, col: Column, c: nat)
    requires Distinct(order)
    requires |order| == |m| && forall i :: 0 <= i < |m| ==> c < |m[i]|
    requires forall i :: 0 <= i < |m| ==> m[i][c] == Entry(order, directed, col, i)
    requires col.source in order && col.target in order
    ensures ColumnSum(m, c, |m|) == ExpectedSum(directed, col)
  {
    EntrySum(m, order, directed, col, c, |order|);
    assert order[..|order|] == order;
  }

  /** Column sums: an undirected column sums to twice its weight, a directed
      one to zero, and a self-loop column to its single entry. */
  lemma IncidenceColumnSum(g: Graph, order: seq<Key>, c: nat)
    requires IsKeyOrder(g.vertices, order)
    requires EdgesResolve(g)
    requires c < |IncidenceColumns(g, order)|
    ensures ColumnSum(IncidenceMatrix(g, order), c, |g.vertices|)
            == ExpectedSum(g.directed, IncidenceColumns(g, order)[c])
  {
    var cols := IncidenceColumns(g, order);
    var col := cols[c];
    var m := IncidenceMatrix(g, order);
    assert |m| == |order| && forall i :: 0 <= i < |m| ==> m[i][c] == Entry(order, g.directed, col, i) by {
      IncidenceCells(g, order);
    }
    assert col.source in order && col.target in order by {
      IncidenceColumnsIndexed(g, order);
      var idx := IndexMap(order);
      assert ColumnIndexed(idx, col, |order|);
      assert order[idx[col.source]] == col.source && order[idx[col.target]] == col.target;
    }
    ColumnSumOfEntries(m, order, g.directed, col, c);
  }
}
