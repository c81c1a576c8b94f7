/** The directed, label-valued adjacency-matrix codec of the traversal page
    (tasks/task1/script.js): generateAdjacencyMatrix, and the same build in
    updateAdjacencyMatrix, write each known arc's label into its cell, a later
    arc overwriting an earlier one; loadGraph numbers the rows "0".."n-1" and
    adds one arc per positive entry. */
module DirectedCodec {
  import opened Graph

  /** A cell of the saved matrix: the number 0, or an arc's label text. */
  datatype Cell = Zero | Label(text: string)

  type Grid = seq<seq<Cell>>

  type Matrix = seq<seq<int>>

  function Blank(n: nat): (g: Grid)
    ensures Square(g, n) && forall i, j :: 0 <= i < n && 0 <= j < n ==> g[i][j] == Zero
  {
    seq(n, i => seq(n, j => Zero))
  }

  // ---------------------------------------------------------------- encoder

  /** The arc leaves node i for node j, counting positions in the node list. */
  predicate ArcAt(nodes: seq<Node>, a: Arc, i: int, j: int) {
    IndexOf(nodes, a.from) == i && IndexOf(nodes, a.to) == j
  }

  /** The cell one arc writes: its label at [from][to]; an arc with an
      endpoint not in the node list writes nothing. */
  function Place(g: Grid, nodes: seq<Node>, a: Arc): (r: Grid)
    requires Square(g, |nodes|)
    ensures Square(r, |nodes|)
  {
    var fi, ti := IndexOf(nodes, a.from), IndexOf(nodes, a.to);
    if fi == -1 || ti == -1 then g else g[fi := g[fi][ti := Label(a.caption)]]
  }

  /** The matrix generateAdjacencyMatrix returns: the arcs placed in order
      into an n by n matrix of zeros. */
  function Encode(nodes: seq<Node>, arcs: seq<Arc>): (g: Grid)
    ensures Square(g, |nodes|)
    decreases |arcs|
  {
    if |arcs| == 0 then Blank(|nodes|)
    else Place(Encode(nodes, arcs[..|arcs| - 1]), nodes, arcs[|arcs| - 1])
  }

  lemma PlaceCell(g: Grid, nodes: seq<Node>, a: Arc, i: nat, j: nat)
    requires Square(g, |nodes|) && i < |nodes| && j < |nodes|
    ensures Place(g, nodes, a)[i][j] == if ArcAt(nodes, a, i, j) then Label(a.caption) else g[i][j]
  {
  }

  /** generateAdjacencyMatrix(nodeArray, edgeArray), and the matrix that
      updateAdjacencyMatrix builds before rendering it. */
  method GenerateAdjacencyMatrix(nodes: seq<Node>, arcs: seq<Arc>) returns (g: array2<Cell>)
    ensures fresh(g) && g.Length0 == |nodes| && g.Length1 == |nodes|
    ensures forall i, j :: 0 <= i < |nodes| && 0 <= j < |nodes| ==> g[i, j] == Encode(nodes, arcs)[i][j]
  {
    var n := |nodes|;
    g := new Cell[n, n]((i, j) => Zero);
    for k := 0 to |arcs|
      invariant forall i, j :: 0 <= i < n && 0 <= j < n ==> g[i, j] == Encode(nodes, arcs[..k])[i][j]
    {
      var a := arcs[k];
      ghost var before := Encode(nodes, arcs[..k]);
      assert arcs[..k + 1][..k] == arcs[..k];
      var fi := IndexOf(nodes, a.from);
      var ti := IndexOf(nodes, a.to);
      if fi != -1 && ti != -1 {
        g[fi, ti] := Label(a.caption);
      }
      forall i, j | 0 <= i < n && 0 <= j < n
        ensures g[i, j] == Place(before, nodes, a)[i][j]
      {
        PlaceCell(before, nodes, a, i, j);
      }
    }
    assert arcs[..|arcs|] == arcs;
  }

  /** The position of the last arc from node i to node j, or -1 if none. */
  function LastArc(nodes: seq<Node>, arcs: seq<Arc>, i: int, j: int): (k: int)
    ensures -1 <= k < |arcs|
    decreases |arcs|
  {
    if |arcs| == 0 then -1
    else if ArcAt(nodes, arcs[|arcs| - 1], i, j) then |arcs| - 1
    else LastArc(nodes, arcs[..|arcs| - 1], i, j)
  }

  /** LastArc finds no arc from i to j exactly when there is none. */
  lemma {:induction false} LastArcNone(nodes: seq<Node>, arcs: seq<Arc>, i: int, j: int)
    ensures LastArc(nodes, arcs, i, j) == -1 <==> forall q :: 0 <= q < |arcs| ==> !ArcAt(nodes, arcs[q], i, j)
    decreases |arcs|
  {
    if |arcs| > 0 && !ArcAt(nodes, arcs[|arcs| - 1], i, j) {
      var init := arcs[..|arcs| - 1];
      LastArcNone(nodes, init, i, j);
      if LastArc(nodes, arcs, i, j) == -1 {
        forall q | 0 <= q < |arcs|
          ensures !ArcAt(nodes, arcs[q], i, j)
        {
          if q < |init| {
            assert arcs[q] == init[q];
          }
        }
      } else {
        var q :| 0 <= q < |init| && ArcAt(nodes, init[q], i, j);
        assert arcs[q] == init[q];
      }
    }
  }

  /** An arc LastArc finds goes from i to j, and no later arc does. */
  lemma {:induction false} LastArcFound(nodes: seq<Node>, arcs: seq<Arc>, i: int, j: int)
    requires LastArc(nodes, arcs, i, j) >= 0
    ensures var k := LastArc(nodes, arcs, i, j);
      ArcAt(nodes, arcs[k], i, j) && forall q :: k < q < |arcs| ==> !ArcAt(nodes, arcs[q], i, j)
    decreases |arcs|
  {
    if !ArcAt(nodes, arcs[|arcs| - 1], i, j) {
      var init := arcs[..|arcs| - 1];
      LastArcFound(nodes, init, i, j);
      var k := LastArc(nodes, init, i, j);
      assert arcs[k] == init[k];
      forall q | k < q < |arcs|
        ensures !ArcAt(nodes, arcs[q], i, j)
      {
        if q < |init| {
          assert arcs[q] == init[q];
        }
      }
    }
  }

  /** Each cell holds the label of the last arc between its two nodes, in that
      direction, and 0 when there is none: no mirroring, and arcs with an
      endpoint outside the node list leave no trace. */
  lemma {:induction false} EncodeLast(nodes: seq<Node>, arcs: seq<Arc>, i: nat, j: nat)
    requires i < |nodes| && j < |nodes|
    ensures Encode(nodes, arcs)[i][j] ==
      var k := LastArc(nodes, arcs, i, j); if k == -1 then Zero else Label(arcs[k].caption)
    decreases |arcs|
  {
    if |arcs| > 0 {
      var init := arcs[..|arcs| - 1];
      EncodeLast(nodes, init, i, j);
      PlaceCell(Encode(nodes, init), nodes, arcs[|arcs| - 1], i, j);
      if !ArcAt(nodes, arcs[|arcs| - 1], i, j) {
        var k := LastArc(nodes, init, i, j);
        if k >= 0 {
          assert arcs[k] == init[k];
        }
      }
    }
  }

  // ---------------------------------------------------------------- decoder

  /** The arc loadGraph adds for the positive entry (r, c). */
  function EntryArc(m: Matrix, r: nat, c: nat): Arc
    requires r < |m| && c < |m[r]| && m[r][c] > 0
  {
    Arc(Id(r), Id(c), NatToString(m[r][c]))
  }

  /** The arcs of row r among its first c entries. */
  ghost function RowArcs(m: Matrix, r: nat, c: nat): seq<Arc>
    requires r < |m| && c <= |m[r]|
  {
    if c == 0 then []
    else RowArcs(m, r, c - 1) + if m[r][c - 1] > 0 then [EntryArc(m, r, c - 1)] else []
  }

  /** The arcs of the first r rows, in row-major order. */
  ghost function Arcs(m: Matrix, r: nat): seq<Arc>
    requires r <= |m|
  {
    if r == 0 then [] else Arcs(m, r - 1) + RowArcs(m, r - 1, |m[r - 1]|)
  }

  /** loadGraph's restore loop on an already parsed matrix. */
  method LoadGraph(matrix: Matrix) returns (nodes: seq<Node>, arcs: seq<Arc>)
    ensures nodes == NumberedNodes(|matrix|)
    ensures arcs == Arcs(matrix, |matrix|)
  {
    nodes := [];
    arcs := [];
    for r := 0 to |matrix|
      invariant nodes == NumberedNodes(r) && arcs == Arcs(matrix, r)
    {
      nodes := nodes + [Node(Id(r), "Узел " + Id(r))];
      var row := matrix[r];
      for c := 0 to |row|
        invariant arcs == Arcs(matrix, r) + RowArcs(matrix, r, c)
      {
        var value := row[c];
        if value > 0 {
          assert RowArcs(matrix, r, c + 1) == RowArcs(matrix, r, c) + [EntryArc(matrix, r, c)];
          arcs := arcs + [Arc(Id(r), Id(c), NatToString(value))];
        } else {
          assert RowArcs(matrix, r, c + 1) == RowArcs(matrix, r, c);
        }
      }
    }
  }

  /** Every decoded arc is the arc of a positive entry. */
  ghost predicate FromEntry(m: Matrix, a: Arc) {
    exists r: nat, c: nat {:trigger EntryArc(m, r, c)} ::
      r < |m| && c < |m[r]| && m[r][c] > 0 && a == EntryArc(m, r, c)
  }

  lemma {:induction false} RowArcsSound(m: Matrix, r: nat, c: nat, a: Arc)
    requires r < |m| && c <= |m[r]| && a in RowArcs(m, r, c)
    ensures FromEntry(m, a)
    decreases c
  {
    if a in RowArcs(m, r, c - 1) {
      RowArcsSound(m, r, c - 1, a);
    } else {
      assert a == EntryArc(m, r, c - 1);
    }
  }

  lemma {:induction false} DecodeSound(m: Matrix, r: nat, a: Arc)
    requires r <= |m| && a in Arcs(m, r)
    ensures FromEntry(m, a)
    decreases r
  {
    if a in Arcs(m, r - 1) {
      DecodeSound(m, r - 1, a);
    } else {
      RowArcsSound(m, r - 1, |m[r - 1]|, a);
    }
  }

  lemma {:induction false} RowArcsComplete(m: Matrix, r: nat, c: nat, c2: nat)
    requires r < |m| && c2 < c <= |m[r]| && m[r][c2] > 0
    ensures EntryArc(m, r, c2) in RowArcs(m, r, c)
    decreases c
  {
    if c2 < c - 1 {
      RowArcsComplete(m, r, c - 1, c2);
    }
  }

  /** Every positive entry gets its arc. */
  lemma {:induction false} DecodeComplete(m: Matrix, r: nat, r2: nat, c2: nat)
    requires r2 < r <= |m| && c2 < |m[r2]| && m[r2][c2] > 0
    ensures EntryArc(m, r2, c2) in Arcs(m, r)
    decreases r
  {
    if r2 < r - 1 {
      DecodeComplete(m, r - 1, r2, c2);
    } else {
      RowArcsComplete(m, r2, |m[r2]|, c2);
    }
  }

  // -------------------------------------------------------------- round trip

  /** The cell a saved entry becomes. */
  function Saved(v: int): Cell {
    if v > 0 then Label(NatToString(v)) else Zero
  }

  /** g holds the saved form of every entry of m before (r, c), zeros after. */
  ghost predicate Shows(g: Grid, m: Matrix, n: nat, r: int, c: int)
    requires Square(g, n) && Square(m, n)
  {
    forall i, j :: 0 <= i < n && 0 <= j < n ==>
      g[i][j] == if Before(i, j, r, c) then Saved(m[i][j]) else Zero
  }

  ghost predicate RowsDone(m: Matrix, n: nat, r: nat) {
    Square(m, n) && r <= n && Shows(Encode(NumberedNodes(n), Arcs(m, r)), m, n, r, 0)
  }

  ghost predicate EntriesDone(m: Matrix, n: nat, r: nat, c: nat) {
    Square(m, n) && r < n && c <= n
    && Shows(Encode(NumberedNodes(n), Arcs(m, r) + RowArcs(m, r, c)), m, n, r, c)
  }

  lemma EncodeSnoc(nodes: seq<Node>, arcs: seq<Arc>, a: Arc)
    ensures Encode(nodes, arcs + [a]) == Place(Encode(nodes, arcs), nodes, a)
  {
    assert (arcs + [a])[..|arcs|] == arcs;
  }

  /** Placing the arc of entry (r, c) shows that entry and nothing else. */
  lemma PlaceShows(g: Grid, m: Matrix, n: nat, nodes: seq<Node>, a: Arc, r: nat, c: nat)
    requires |nodes| == n && Square(g, n) && Square(m, n) && r < n && c < n && m[r][c] > 0
    requires IndexOf(nodes, a.from) == r && IndexOf(nodes, a.to) == c && a.caption == NatToString(m[r][c])
    requires Shows(g, m, n, r, c)
    ensures Shows(Place(g, nodes, a), m, n, r, c + 1)
  {
    forall i, j | 0 <= i < n && 0 <= j < n
      ensures Place(g, nodes, a)[i][j] == if Before(i, j, r, c + 1) then Saved(m[i][j]) else Zero
    {
      PlaceCell(g, nodes, a, i, j);
    }
  }

  lemma SkipShows(g: Grid, m: Matrix, n: nat, r: nat, c: nat)
    requires Square(g, n) && Square(m, n) && r < n && c < n && m[r][c] <= 0
    requires Shows(g, m, n, r, c)
    ensures Shows(g, m, n, r, c + 1)
  {
  }

  lemma RoundTripPositive(m: Matrix, n: nat, r: nat, c: nat)
    requires Square(m, n) && r < n && c < n && m[r][c] > 0
    requires Shows(Encode(NumberedNodes(n), Arcs(m, r) + RowArcs(m, r, c)), m, n, r, c)
    ensures Shows(Encode(NumberedNodes(n), Arcs(m, r) + RowArcs(m, r, c + 1)), m, n, r, c + 1)
  {
    var nodes := NumberedNodes(n);
    var arcs := Arcs(m, r) + RowArcs(m, r, c);
    var a := EntryArc(m, r, c);
    var g := Encode(nodes, arcs);
    assert Arcs(m, r) + RowArcs(m, r, c + 1) == arcs + [a];
    EncodeSnoc(nodes, arcs, a);
    assert Encode(nodes, Arcs(m, r) + RowArcs(m, r, c + 1)) == Place(g, nodes, a);
    NumberedIndex(n, r);
    NumberedIndex(n, c);
    PlaceShows(g, m, n, nodes, a, r, c);
  }

  lemma RoundTripZero(m: Matrix, n: nat, r: nat, c: nat)
    requires Square(m, n) && r < n && c < n && m[r][c] <= 0
    requires Shows(Encode(NumberedNodes(n), Arcs(m, r) + RowArcs(m, r, c)), m, n, r, c)
    ensures Shows(Encode(NumberedNodes(n), Arcs(m, r) + RowArcs(m, r, c + 1)), m, n, r, c + 1)
  {
    var arcs := Arcs(m, r) + RowArcs(m, r, c);
    assert Arcs(m, r) + RowArcs(m, r, c + 1) == arcs;
    SkipShows(Encode(NumberedNodes(n), arcs), m, n, r, c);
  }

  lemma RoundTripEntry(m: Matrix, n: nat, r: nat, c: nat)
    requires EntriesDone(m, n, r, c) && c < n
    ensures EntriesDone(m, n, r, c + 1)
  {
    if m[r][c] > 0 {
      RoundTripPositive(m, n, r, c);
    } else {
      RoundTripZero(m, n, r, c);
    }
  }

  lemma RoundTripRowStart(m: Matrix, n: nat, r: nat)
    requires RowsDone(m, n, r) && r < n
    ensures EntriesDone(m, n, r, 0)
  {
    assert Arcs(m, r) + RowArcs(m, r, 0) == Arcs(m, r);
  }

  lemma RoundTripRow(m: Matrix, n: nat, r: nat, c: nat)
    requires EntriesDone(m, n, r, c) && c == n
    ensures RowsDone(m, n, r + 1)
  {
    assert Arcs(m, r + 1) == Arcs(m, r) + RowArcs(m, r, c);
  }

  lemma RoundTripEntries(m: Matrix, n: nat, r: nat)
    requires EntriesDone(m, n, r, 0)
    ensures RowsDone(m, n, r + 1)
  {
    var c := 0;
    while c < n
      invariant c <= n && EntriesDone(m, n, r, c)
    {
      RoundTripEntry(m, n, r, c);
      c := c + 1;
    }
    RoundTripRow(m, n, r, c);
  }

  lemma RoundTripEnd(m: Matrix, n: nat, i: nat, j: nat)
    requires RowsDone(m, n, n) && i < n && j < n
    ensures Encode(NumberedNodes(n), Arcs(m, n))[i][j] == Saved(m[i][j])
  {
  }

  /** Saving the graph loaded from a square matrix gives back its positive
      entries as label text and 0 everywhere else. */
  lemma RoundTrip(m: Matrix, n: nat, i: nat, j: nat)
    requires Square(m, n) && i < n && j < n
    ensures Encode(NumberedNodes(n), Arcs(m, n))[i][j] == Saved(m[i][j])
  {
    var r := 0;
    while r < n
      invariant r <= n && RowsDone(m, n, r)
    {
      RoundTripRowStart(m, n, r);
      RoundTripEntries(m, n, r);
      r := r + 1;
    }
    RoundTripEnd(m, n, i, j);
  }
}
