/** The undirected, weight-valued adjacency-matrix codec of the Kruskal and
    Dijkstra pages (tasks/task3/script.js and tasks/task4/script.js carry the
    same code): generateAdjacencyMatrix writes each known edge's weight into its
    cell and into the mirror cell while that is still 0; loadGraph numbers the
    rows "0".."n-1" and adds an edge for each positive entry unless an edge
    already joins the same two nodes. */
module WeightedCodec {
  import opened Graph

  type Matrix = seq<seq<int>>

  function Zeros(n: nat): (m: Matrix)
    ensures Square(m, n) && forall i, j :: 0 <= i < n && 0 <= j < n ==> m[i][j] == 0
  {
    seq(n, i => seq(n, j => 0))
  }

  // ---------------------------------------------------------------- encoder

  /** The cells one edge writes: its weight at [from][to], and at [to][from]
      while that cell is still 0; an edge with an endpoint not in the node list
      writes nothing. */
  function Place(m: Matrix, nodes: seq<Node>, e: Edge): (r: Matrix)
    requires Square(m, |nodes|)
    ensures Square(r, |nodes|)
  {
    var fi, ti := IndexOf(nodes, e.from), IndexOf(nodes, e.to);
    if fi == -1 || ti == -1 then m
    else
      var m1 := m[fi := m[fi][ti := e.weight]];
      if m1[ti][fi] == 0 then m1[ti := m1[ti][fi := e.weight]] else m1
  }

  /** The matrix generateAdjacencyMatrix returns: the edges placed in order
      into an n by n matrix of zeros. */
  function Encode(nodes: seq<Node>, edges: seq<Edge>): (m: Matrix)
    ensures Square(m, |nodes|)
    decreases |edges|
  {
    if |edges| == 0 then Zeros(|nodes|)
    else Place(Encode(nodes, edges[..|edges| - 1]), nodes, edges[|edges| - 1])
  }

  /** generateAdjacencyMatrix(nodeArray, edgeArray). */
  method GenerateAdjacencyMatrix(nodes: seq<Node>, edges: seq<Edge>) returns (m: array2<int>)
    ensures fresh(m) && m.Length0 == |nodes| && m.Length1 == |nodes|
    ensures forall i, j :: 0 <= i < |nodes| && 0 <= j < |nodes| ==> m[i, j] == Encode(nodes, edges)[i][j]
  {
    var n := |nodes|;
    m := new int[n, n]((i, j) => 0);
    for k := 0 to |edges|
      invariant forall i, j :: 0 <= i < n && 0 <= j < n ==> m[i, j] == Encode(nodes, edges[..k])[i][j]
    {
      var e := edges[k];
      ghost var before := Encode(nodes, edges[..k]);
      assert edges[..k + 1] == edges[..k] + [e];
      EncodeSnoc(nodes, edges[..k], e);
      var fi := IndexOf(nodes, e.from);
      var ti := IndexOf(nodes, e.to);
      if fi != -1 && ti != -1 {
        m[fi, ti] := e.weight;
        if m[ti, fi] == 0 {
          m[ti, fi] := e.weight;
        }
      }
      forall i, j | 0 <= i < n && 0 <= j < n
        ensures m[i, j] == Place(before, nodes, e)[i][j]
      {
        PlaceCells(before, nodes, e, i, j);
      }
    }
    assert edges[..|edges|] == edges;
  }

  /** The edge at position k joins the nodes at positions i and j, in either
      direction. */
  predicate EdgeAtCell(nodes: seq<Node>, e: Edge, i: int, j: int) {
    (IndexOf(nodes, e.from) == i && IndexOf(nodes, e.to) == j)
    || (IndexOf(nodes, e.from) == j && IndexOf(nodes, e.to) == i)
  }

  /** A cell is 0 unless some edge joins its two nodes, and then it holds the
      weight of one of those edges: no cell is invented, and an edge with an
      endpoint outside the node list leaves no trace. */
  lemma {:induction false} EncodeCells(nodes: seq<Node>, edges: seq<Edge>, i: nat, j: nat)
    requires i < |nodes| && j < |nodes|
    ensures Encode(nodes, edges)[i][j] == 0
         || exists k :: 0 <= k < |edges| && EdgeAtCell(nodes, edges[k], i, j)
                        && Encode(nodes, edges)[i][j] == edges[k].weight
    decreases |edges|
  {
    if |edges| > 0 {
      var init := edges[..|edges| - 1];
      var e := edges[|edges| - 1];
      EncodeCells(nodes, init, i, j);
      var before := Encode(nodes, init);
      var after := Encode(nodes, edges);
      assert after == Place(before, nodes, e);
      PlaceCells(before, nodes, e, i, j);
      if after[i][j] != before[i][j] {
        assert EdgeAtCell(nodes, edges[|edges| - 1], i, j) && after[i][j] == edges[|edges| - 1].weight;
      } else if before[i][j] != 0 {
        var k :| 0 <= k < |init| && EdgeAtCell(nodes, init[k], i, j) && before[i][j] == init[k].weight;
        assert edges[k] == init[k];
        assert EdgeAtCell(nodes, edges[k], i, j) && after[i][j] == edges[k].weight;
      }
    }
  }

  /** What placing one known edge does: its forward cell gets its weight; the
      mirror cell gets it only when it was 0; no other cell changes. */
  lemma PlaceCells(m: Matrix, nodes: seq<Node>, e: Edge, i: nat, j: nat)
    requires Square(m, |nodes|) && i < |nodes| && j < |nodes|
    ensures var fi, ti := IndexOf(nodes, e.from), IndexOf(nodes, e.to);
      Place(m, nodes, e)[i][j] ==
        if fi == -1 || ti == -1 then m[i][j]
        else if i == fi && j == ti then e.weight
        else if i == ti && j == fi && m[i][j] == 0 then e.weight
        else m[i][j]
  {
  }

  /** Edges with an endpoint outside the node list can be dropped first. */
  function Known(nodes: seq<Node>, edges: seq<Edge>): (r: seq<Edge>)
    ensures forall k :: 0 <= k < |r| ==> IndexOf(nodes, r[k].from) != -1 && IndexOf(nodes, r[k].to) != -1
    decreases |edges|
  {
    if |edges| == 0 then []
    else
      var e := edges[|edges| - 1];
      if IndexOf(nodes, e.from) == -1 || IndexOf(nodes, e.to) == -1 then Known(nodes, edges[..|edges| - 1])
      else Known(nodes, edges[..|edges| - 1]) + [e]
  }

  lemma {:induction false} EncodeIgnoresUnknown(nodes: seq<Node>, edges: seq<Edge>)
    ensures Encode(nodes, edges) == Encode(nodes, Known(nodes, edges))
    decreases |edges|
  {
    if |edges| > 0 {
      var init := edges[..|edges| - 1];
      EncodeIgnoresUnknown(nodes, init);
      var k := Known(nodes, edges);
      if k != Known(nodes, init) {
        assert k[..|k| - 1] == Known(nodes, init);
      }
    }
  }

  // ---------------------------------------------------------------- decoder

  /** The entry at (r, c) gets an edge: it is positive, and the mirror entry
      (c, r), when visited earlier, was not. */
  predicate Kept(m: Matrix, r: nat, c: nat)
    requires r < |m| && c < |m[r]|
  {
    m[r][c] > 0 && !(c < r && r < |m[c]| && m[c][r] > 0)
  }

  function EdgeAt(m: Matrix, r: nat, c: nat): Edge
    requires r < |m| && c < |m[r]| && m[r][c] > 0
  {
    Edge(Id(r), Id(c), NatToString(m[r][c]), m[r][c])
  }

  /** The edges of row r among its first c entries. */
  ghost function Row(m: Matrix, r: nat, c: nat): seq<Edge>
    requires r < |m| && c <= |m[r]|
  {
    if c == 0 then []
    else Row(m, r, c - 1) + if Kept(m, r, c - 1) then [EdgeAt(m, r, c - 1)] else []
  }

  /** The edges of the first r rows, in row-major order. */
  ghost function Rows(m: Matrix, r: nat): seq<Edge>
    requires r <= |m|
  {
    if r == 0 then [] else Rows(m, r - 1) + Row(m, r - 1, |m[r - 1]|)
  }

  /** Where a decoded edge comes from: a kept entry visited before (r, c). */
  ghost predicate FromCell(m: Matrix, e: Edge, r: nat, c: nat) {
    exists r2: nat, c2: nat {:trigger EdgeAt(m, r2, c2)} ::
      && r2 < |m| && c2 < |m[r2]| && Before(r2, c2, r, c) && Kept(m, r2, c2) && e == EdgeAt(m, r2, c2)
  }

  lemma {:induction false} RowOrigin(m: Matrix, r: nat, c: nat, e: Edge)
    requires r < |m| && c <= |m[r]| && e in Row(m, r, c)
    ensures FromCell(m, e, r, c)
    decreases c
  {
    if e in Row(m, r, c - 1) {
      RowOrigin(m, r, c - 1, e);
    } else {
      assert e == EdgeAt(m, r, c - 1);
    }
  }

  lemma {:induction false} RowsOrigin(m: Matrix, r: nat, e: Edge)
    requires r <= |m| && e in Rows(m, r)
    ensures FromCell(m, e, r, 0)
    decreases r
  {
    if e in Rows(m, r - 1) {
      RowsOrigin(m, r - 1, e);
    } else {
      RowOrigin(m, r - 1, |m[r - 1]|, e);
    }
  }

  lemma {:induction false} RowContains(m: Matrix, r: nat, c: nat, c2: nat)
    requires r < |m| && c2 < c <= |m[r]| && Kept(m, r, c2)
    ensures EdgeAt(m, r, c2) in Row(m, r, c)
    decreases c
  {
    if c2 < c - 1 {
      RowContains(m, r, c - 1, c2);
    }
  }

  lemma {:induction false} RowsContain(m: Matrix, r: nat, r2: nat, c2: nat)
    requires r2 < r <= |m| && c2 < |m[r2]| && Kept(m, r2, c2)
    ensures EdgeAt(m, r2, c2) in Rows(m, r)
    decreases r
  {
    if r2 < r - 1 {
      RowsContain(m, r - 1, r2, c2);
    } else {
      RowContains(m, r2, |m[r2]|, c2);
    }
  }

  /** The `existingEdge` test at entry (r, c) succeeds exactly when the mirror
      entry was visited earlier and was positive. */
  lemma Existing(m: Matrix, r: nat, c: nat)
    requires r < |m| && c < |m[r]|
    ensures Adjacent(EdgeLinks(Rows(m, r) + Row(m, r, c)), Id(r), Id(c))
        <==> (c < r && r < |m[c]| && m[c][r] > 0)
  {
    if Adjacent(EdgeLinks(Rows(m, r) + Row(m, r, c)), Id(r), Id(c)) {
      ExistingOnlyMirror(m, r, c);
    }
    if c < r && r < |m[c]| && m[c][r] > 0 {
      ExistingMirror(m, r, c);
    }
  }

  lemma ExistingOnlyMirror(m: Matrix, r: nat, c: nat)
    requires r < |m| && c < |m[r]|
    requires Adjacent(EdgeLinks(Rows(m, r) + Row(m, r, c)), Id(r), Id(c))
    ensures c < r && r < |m[c]| && m[c][r] > 0
  {
    var es := Rows(m, r) + Row(m, r, c);
    var links := EdgeLinks(es);
    var k :| 0 <= k < |links| && Joins(links[k], Id(r), Id(c));
    var e := es[k];
    assert Joins((e.from, e.to), Id(r), Id(c));
    if k < |Rows(m, r)| {
      assert e in Rows(m, r);
      RowsOrigin(m, r, e);
      FromEarlier(m, e, r, c, r, 0);
    } else {
      assert e in Row(m, r, c);
      RowOrigin(m, r, c, e);
      FromEarlier(m, e, r, c, r, c);
    }
  }

  lemma ExistingMirror(m: Matrix, r: nat, c: nat)
    requires r < |m| && c < |m[r]|
    requires c < r && r < |m[c]| && m[c][r] > 0
    ensures Adjacent(EdgeLinks(Rows(m, r) + Row(m, r, c)), Id(r), Id(c))
  {
    var es := Rows(m, r) + Row(m, r, c);
    var links := EdgeLinks(es);
    RowsContain(m, r, c, r);
    var e := EdgeAt(m, c, r);
    assert e in es;
    var k :| 0 <= k < |es| && es[k] == e;
    assert links[k] == (Id(c), Id(r));
    assert Joins(links[k], Id(r), Id(c));
  }

  /** An earlier kept entry whose edge joins "r" and "c" is the mirror entry. */
  lemma FromEarlier(m: Matrix, e: Edge, r: nat, c: nat, r1: nat, c1: nat)
    requires r < |m| && c < |m[r]| && Before(r1, c1, r, c + 1) && (r1 < r || c1 <= c)
    requires FromCell(m, e, r1, c1) && Joins((e.from, e.to), Id(r), Id(c))
    ensures c < r && r < |m[c]| && m[c][r] > 0
  {
    var r2: nat, c2: nat :| r2 < |m| && c2 < |m[r2]| && Before(r2, c2, r1, c1) && Kept(m, r2, c2) && e == EdgeAt(m, r2, c2);
    if e.from == Id(r) && e.to == Id(c) {
      NatToStringInjective(r2, r);
      NatToStringInjective(c2, c);
      assert false;
    } else {
      NatToStringInjective(r2, c);
      NatToStringInjective(c2, r);
    }
  }

  /** loadGraph's restore loop on an already parsed matrix. */
  method LoadGraph(matrix: Matrix) returns (nodes: seq<Node>, edges: seq<Edge>)
    ensures nodes == NumberedNodes(|matrix|)
    ensures edges == Rows(matrix, |matrix|)
  {
    nodes := [];
    edges := [];
    for r := 0 to |matrix|
      invariant nodes == NumberedNodes(r) && edges == Rows(matrix, r)
    {
      nodes := nodes + [Node(Id(r), "Узел " + Id(r))];
      var row := matrix[r];
      for c := 0 to |row|
        invariant edges == Rows(matrix, r) + Row(matrix, r, c)
      {
        var value := row[c];
        if value > 0 {
          Existing(matrix, r, c);
          var existing := Adjacent(EdgeLinks(edges), Id(r), Id(c));
          if !existing {
            edges := edges + [Edge(Id(r), Id(c), NatToString(value), value)];
          }
        }
      }
    }
  }

  // ------------------------------------------------------ decoder properties

  /** Every decoded edge comes from a positive entry: it joins that entry's row
      and column, and its weight and label are the entry's value. */
  lemma DecodeSound(m: Matrix, e: Edge)
    requires e in Rows(m, |m|)
    ensures exists r: nat, c: nat {:trigger EdgeAt(m, r, c)} ::
      r < |m| && c < |m[r]| && m[r][c] > 0 && e == EdgeAt(m, r, c)
    ensures e.weight > 0 && e.caption == NatToString(e.weight)
  {
    RowsOrigin(m, |m|, e);
  }

  /** Every positive entry is represented: some decoded edge joins its row and
      column, in one direction or the other. */
  lemma DecodeCovers(m: Matrix, r: nat, c: nat)
    requires r < |m| && c < |m[r]| && m[r][c] > 0
    ensures Adjacent(EdgeLinks(Rows(m, |m|)), Id(r), Id(c))
  {
    var es := Rows(m, |m|);
    var e;
    if Kept(m, r, c) {
      RowsContain(m, |m|, r, c);
      e := EdgeAt(m, r, c);
    } else {
      RowsContain(m, |m|, c, r);
      e := EdgeAt(m, c, r);
    }
    var k :| 0 <= k < |es| && es[k] == e;
    assert Joins(EdgeLinks(es)[k], Id(r), Id(c));
  }

  /** No decoded edge joins two nodes an earlier one already joins. */
  ghost predicate NoRepeat(es: seq<Edge>) {
    forall j :: 0 <= j < |es| ==> !Adjacent(EdgeLinks(es[..j]), es[j].from, es[j].to)
  }

  lemma NoRepeatSnoc(es: seq<Edge>, e: Edge)
    requires NoRepeat(es) && !Adjacent(EdgeLinks(es), e.from, e.to)
    ensures NoRepeat(es + [e])
  {
    var es' := es + [e];
    forall j | 0 <= j < |es'|
      ensures !Adjacent(EdgeLinks(es'[..j]), es'[j].from, es'[j].to)
    {
      if j < |es| {
        assert es'[..j] == es[..j];
      } else {
        assert es'[..j] == es;
      }
    }
  }

  lemma {:induction false} NoRepeatPrefix(m: Matrix, r: nat, c: nat)
    requires r < |m| && c <= |m[r]|
    ensures NoRepeat(Rows(m, r) + Row(m, r, c))
    decreases r, c
  {
    if c > 0 {
      NoRepeatPrefix(m, r, c - 1);
      var es := Rows(m, r) + Row(m, r, c - 1);
      if Kept(m, r, c - 1) {
        Existing(m, r, c - 1);
        NoRepeatSnoc(es, EdgeAt(m, r, c - 1));
        assert Rows(m, r) + Row(m, r, c) == es + [EdgeAt(m, r, c - 1)];
      } else {
        assert Rows(m, r) + Row(m, r, c) == es;
      }
    } else if r > 0 {
      NoRepeatPrefix(m, r - 1, |m[r - 1]|);
      assert Rows(m, r) + Row(m, r, c) == Rows(m, r - 1) + Row(m, r - 1, |m[r - 1]|);
    } else {
      assert Rows(m, r) + Row(m, r, c) == [];
    }
  }

  lemma NoRepeatRow(m: Matrix, k: nat)
    requires 0 < k <= |m| && NoRepeat(Rows(m, k - 1) + Row(m, k - 1, |m[k - 1]|))
    ensures NoRepeat(Rows(m, k))
  {
  }

  lemma NoRepeatLastRow(m: Matrix)
    requires |m| > 0
    ensures NoRepeat(Rows(m, |m|))
  {
    NoRepeatPrefix(m, |m| - 1, |m[|m| - 1]|);
    NoRepeatRow(m, |m|);
  }

  /** loadGraph adds at most one edge per pair of nodes. */
  lemma DecodeNoRepeat(m: Matrix)
    ensures NoRepeat(Rows(m, |m|))
  {
    if |m| > 0 {
      NoRepeatLastRow(m);
    }
  }

  // -------------------------------------------------------------- round trip

  predicate Symmetric(m: Matrix, n: nat)
    requires Square(m, n)
  {
    forall i, j {:trigger m[i][j]} :: 0 <= i < n && 0 <= j < n ==> m[i][j] == m[j][i]
  }

  predicate NonNegative(m: Matrix, n: nat)
    requires Square(m, n)
  {
    forall i, j {:trigger m[i][j]} :: 0 <= i < n && 0 <= j < n ==> m[i][j] >= 0
  }

  function Min(a: int, b: int): int { if a <= b then a else b }
  function Max(a: int, b: int): int { if a <= b then b else a }

  /** x is the part of m encoded once the entries before (r, c) are decoded:
      an entry shows when its upper-triangle twin was visited, 0 otherwise. */
  ghost predicate Covers(x: Matrix, m: Matrix, n: nat, r: int, c: int)
    requires Square(x, n) && Square(m, n)
  {
    forall i, j :: 0 <= i < n && 0 <= j < n ==>
      x[i][j] == if Before(Min(i, j), Max(i, j), r, c) then m[i][j] else 0
  }

  /** The matrices the round trip is about. */
  ghost predicate Restorable(m: Matrix, n: nat) {
    Square(m, n) && Symmetric(m, n) && NonNegative(m, n)
  }

  /** Encoding the edges decoded before row r gives the first r rows' part. */
  ghost predicate RowsDone(m: Matrix, n: nat, r: nat) {
    Restorable(m, n) && r <= n && Covers(Encode(NumberedNodes(n), Rows(m, r)), m, n, r, 0)
  }

  /** Encoding the edges decoded before entry (r, c) gives the part before it. */
  ghost predicate EntriesDone(m: Matrix, n: nat, r: nat, c: nat) {
    Restorable(m, n) && r < n && c <= n
    && Covers(Encode(NumberedNodes(n), Rows(m, r) + Row(m, r, c)), m, n, r, c)
  }

  lemma EncodeSnoc(nodes: seq<Node>, es: seq<Edge>, e: Edge)
    ensures Encode(nodes, es + [e]) == Place(Encode(nodes, es), nodes, e)
  {
    assert (es + [e])[..|es|] == es;
  }

  /** Decoding entry (r, c) and encoding its edge uncovers that pair. */
  lemma RoundTripEntry(m: Matrix, n: nat, r: nat, c: nat)
    requires EntriesDone(m, n, r, c) && c < n
    ensures EntriesDone(m, n, r, c + 1)
  {
    assert m[r][c] == m[c][r] >= 0;
    if Kept(m, r, c) {
      RoundTripKept(m, n, r, c);
    } else {
      assert Rows(m, r) + Row(m, r, c + 1) == Rows(m, r) + Row(m, r, c);
      SkipCover(Encode(NumberedNodes(n), Rows(m, r) + Row(m, r, c)), m, n, r, c);
    }
  }

  /** An entry that gets no edge is 0 or has its pair uncovered already. */
  lemma SkipCover(x: Matrix, m: Matrix, n: nat, r: nat, c: nat)
    requires Square(x, n) && Square(m, n) && r < n && c < n && m[r][c] == m[c][r]
    requires m[r][c] == 0 || c < r
    requires Covers(x, m, n, r, c)
    ensures Covers(x, m, n, r, c + 1)
  {
  }

  lemma RoundTripKept(m: Matrix, n: nat, r: nat, c: nat)
    requires Square(m, n) && r < n && c < n && m[r][c] == m[c][r] && Kept(m, r, c)
    requires Covers(Encode(NumberedNodes(n), Rows(m, r) + Row(m, r, c)), m, n, r, c)
    ensures Covers(Encode(NumberedNodes(n), Rows(m, r) + Row(m, r, c + 1)), m, n, r, c + 1)
  {
    var nodes := NumberedNodes(n);
    var es := Rows(m, r) + Row(m, r, c);
    var e := EdgeAt(m, r, c);
    var x := Encode(nodes, es);
    assert Rows(m, r) + Row(m, r, c + 1) == es + [e];
    EncodeSnoc(nodes, es, e);
    assert Encode(nodes, Rows(m, r) + Row(m, r, c + 1)) == Place(x, nodes, e);
    NumberedIndex(n, r);
    NumberedIndex(n, c);
    PlaceCover(x, m, n, nodes, e, r, c);
  }

  /** Placing the edge of a kept upper-triangle entry (r, c) uncovers both
      its cells and leaves every other cell alone. */
  lemma PlaceCover(x: Matrix, m: Matrix, n: nat, nodes: seq<Node>, e: Edge, r: nat, c: nat)
    requires |nodes| == n && Square(x, n) && Square(m, n) && r <= c < n
    requires IndexOf(nodes, e.from) == r && IndexOf(nodes, e.to) == c && e.weight == m[r][c] == m[c][r]
    requires Covers(x, m, n, r, c)
    ensures Covers(Place(x, nodes, e), m, n, r, c + 1)
  {
    forall i, j | 0 <= i < n && 0 <= j < n
      ensures Place(x, nodes, e)[i][j] == if Before(Min(i, j), Max(i, j), r, c + 1) then m[i][j] else 0
    {
      PlaceCells(x, nodes, e, i, j);
    }
  }

  /** A finished row hands over to the next one. */
  lemma RoundTripRow(m: Matrix, n: nat, r: nat, c: nat)
    requires EntriesDone(m, n, r, c) && c == n
    ensures RowsDone(m, n, r + 1)
  {
    assert Rows(m, r + 1) == Rows(m, r) + Row(m, r, c);
  }

  lemma RoundTripRowStart(m: Matrix, n: nat, r: nat)
    requires RowsDone(m, n, r) && r < n
    ensures EntriesDone(m, n, r, 0)
  {
    assert Rows(m, r) + Row(m, r, 0) == Rows(m, r);
  }

  /** Decoding and encoding the rest of row r, from entry c on, uncovers all
      of it. */
  lemma RoundTripEntries(m: Matrix, n: nat, r: nat)
    requires EntriesDone(m, n, r, 0)
    ensures RowsDone(m, n, r + 1)
  {
    var c := 0;
    while c < n
      invariant c <= n && EntriesDone(m, n, r, c)
    {
      RoundTripEntry(m, n, r, c);
      c := c + 1;
    }
    RoundTripRow(m, n, r, c);
  }

  lemma RoundTripStart(m: Matrix, n: nat)
    requires Restorable(m, n)
    ensures RowsDone(m, n, 0)
  {
  }

  lemma RoundTripEnd(m: Matrix, n: nat)
    requires RowsDone(m, n, n)
    ensures Encode(NumberedNodes(n), Rows(m, n)) == m
  {
    SameMatrix(Encode(NumberedNodes(n), Rows(m, n)), m, n);
  }

  /** Saving the graph loaded from a square, symmetric, non-negative matrix
      gives that matrix back. */
  lemma RoundTrip(m: Matrix, n: nat)
    requires Square(m, n) && Symmetric(m, n) && NonNegative(m, n)
    ensures Encode(NumberedNodes(n), Rows(m, n)) == m
  {
    RoundTripStart(m, n);
    var r := 0;
    while r < n
      invariant r <= n && RowsDone(m, n, r)
    {
      RoundTripRowStart(m, n, r);
      RoundTripEntries(m, n, r);
      r := r + 1;
    }
    RoundTripEnd(m, n);
  }
}
